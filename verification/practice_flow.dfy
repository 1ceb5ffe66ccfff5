/**
 How the practice and bookmark screens are wired to the pool they show. The
 application hands the screen its removal handler under the prop name
 `onQuestionCorrect`, while the screen calls `onQuestionAnswered(id,
 isCorrect)`; as written that callback is undefined, so every answer throws
 before the screen advances or the pool changes. `Intended` is the repair the
 names and the screen's own comment promise. The removal handler takes only
 an id, so it is called through a wrapper that passes it on only for a
 correct answer. The screen walks a snapshot of the pool taken when it
 opened; the application hands it the live pool, and `LivePoolSkipsNext`
 shows what goes wrong without the snapshot.
 */
module PracticeFlow {
  import opened Types
  import Pools
  import PracticeScreen

  /** The callback the practice screen receives. */
  datatype Wiring = AsWritten | Intended

  /** An answer either throws out of the click handler or lands. */
  datatype AnswerResult = Threw | Answered(pool: seq<Question>, session: PracticeScreen.Session)

  /**
   One answer `selected` on a practice screen opened on `shown`, at session
   `s`, while the application's pool is `pool`. As written the call to the
   missing callback throws, so neither the advance nor any removal happens;
   intended, the screen advances as usual and a correct answer removes the
   question's id from the pool.
   */
  function AnswerOn(w: Wiring, pool: seq<Question>, shown: seq<Question>, s: PracticeScreen.Session, selected: string): (r: AnswerResult)
    requires s.index < |shown|
    ensures r.Threw? <==> w == AsWritten
    ensures r.Answered? ==> r.session == PracticeScreen.Answer(shown, s, selected).session
    ensures r.Answered? && shown[s.index].correctAnswer == selected ==> !HasId(r.pool, shown[s.index].id)
    ensures r.Answered? && shown[s.index].correctAnswer == selected ==> r.pool == Pools.RemoveById(pool, shown[s.index].id)
    ensures r.Answered? && shown[s.index].correctAnswer != selected ==> r.pool == pool
  {
    match w
    case AsWritten => Threw
    case Intended =>
      var a := PracticeScreen.Answer(shown, s, selected);
      Answered(if a.report.isCorrect then Pools.RemoveById(pool, a.report.questionId) else pool, a.session)
  }

  /**
   The pool and session after a run of selections with the given wiring; a
   throwing answer leaves both as they were, and the finished view takes no
   answers.
   */
  function Walk(w: Wiring, pool: seq<Question>, shown: seq<Question>, s: PracticeScreen.Session, selections: seq<string>): (seq<Question>, PracticeScreen.Session)
    decreases |selections|
  {
    if |selections| == 0 || PracticeScreen.ShowsFinished(shown, s) then (pool, s)
    else
      match AnswerOn(w, pool, shown, s, selections[0])
      case Threw => Walk(w, pool, shown, s, selections[1..])
      case Answered(p, next) => Walk(w, p, shown, next, selections[1..])
  }

  /**
   As written, no run of answers changes anything: the pool keeps every
   question, even the correctly answered ones, and the screen stays on the
   question it started on.
   */
  lemma {:induction false} AsWrittenWalkChangesNothing(pool: seq<Question>, shown: seq<Question>, s: PracticeScreen.Session, selections: seq<string>)
    ensures Walk(AsWritten, pool, shown, s, selections) == (pool, s)
    decreases |selections|
  {
    if |selections| > 0 && !PracticeScreen.ShowsFinished(shown, s) {
      AsWrittenWalkChangesNothing(pool, shown, s, selections[1..]);
    }
  }

  /** A one-question pool used to exhibit the wiring fault. */
  function Sample(): Question {
    Question("q1", "?", ["a", "b"], "a", "", "")
  }

  /**
   The input that shows the fault: a one-question pool answered correctly.
   As written the question stays in the pool and the finished view is never
   reached; intended, the pool becomes empty and the walk ends.
   */
  lemma CorrectAnswerKeptAsWritten()
    ensures var start := PracticeScreen.Init([Sample()]);
            && Walk(AsWritten, [Sample()], [Sample()], start, ["a"]) == ([Sample()], start)
            && !PracticeScreen.ShowsFinished([Sample()], start)
            && Walk(Intended, [Sample()], [Sample()], start, ["a"]).0 == []
            && PracticeScreen.ShowsFinished([Sample()], Walk(Intended, [Sample()], [Sample()], start, ["a"]).1)
  {
    AsWrittenWalkChangesNothing([Sample()], [Sample()], PracticeScreen.Init([Sample()]), ["a"]);
  }

  /**
   Why the intended wiring walks a snapshot: were the screen to show the live
   pool, a correct answer to the first of three questions would shrink the
   pool under the index. Until the feedback delay ends the index stays at 0,
   so the second question is on screen only during that delay. The delayed
   advance, computed against the list of the render that was clicked, then
   moves to index 1, past the second question, which now sits at index 0:
   unless it is answered inside the delay, it is skipped. This lemma states
   the pool and the session once the delay has ended.
   */
  lemma LivePoolSkipsNext(a: Question, b: Question, c: Question)
    requires a.id != b.id && a.id != c.id
    ensures var r := AnswerOn(Intended, [a, b, c], [a, b, c], PracticeScreen.Session(0, false), a.correctAnswer);
            && r.Answered?
            && r.pool == [b, c]
            && r.pool[0] == b
            && r.session == PracticeScreen.Session(1, false)
            && r.pool[r.session.index] == c
  {
    Pools.RemoveByIdCons(a, [b, c], a.id);
    Pools.RemoveByIdCons(b, [c], a.id);
    Pools.RemoveByIdCons(c, [], a.id);
  }

  /**
   The questions a walk over `shown` leaves in the pool: those whose
   selection was not their correct answer, in order.
   */
  function Survivors(shown: seq<Question>, selections: seq<string>): (r: seq<Question>)
    requires |selections| >= |shown|
    ensures |r| <= |shown|
    ensures forall j :: 0 <= j < |r| ==> r[j] in shown
    decreases |shown|
  {
    if |shown| == 0 then []
    else
      (if selections[0] == shown[0].correctAnswer then [] else [shown[0]])
        + Survivors(shown[1..], selections[1..])
  }

  /** Removing an id absent from `acc` and from `rest` out of `acc + [q] + rest`, where `q` has it, leaves `acc + rest`. */
  lemma RemoveMiddle(acc: seq<Question>, q: Question, rest: seq<Question>)
    requires !HasId(acc, q.id) && !HasId(rest, q.id)
    ensures Pools.RemoveById(acc + ([q] + rest), q.id) == acc + rest
  {
    Pools.RemoveByIdConcat(acc, [q] + rest, q.id);
    Pools.RemoveByIdConcat([q], rest, q.id);
    assert !HasId(Pools.RemoveById([q], q.id), q.id);
    assert Pools.RemoveById([q], q.id) == [];
  }

  /** The id of question `k` occurs nowhere after it in a pool with unique ids. */
  lemma LaterIdsDiffer(shown: seq<Question>, k: nat)
    requires UniqueIds(shown)
    requires k < |shown|
    ensures !HasId(shown[k + 1..], shown[k].id)
  {
  }

  /**
   One intended answer at question `k`, with the questions already kept in
   `acc`: the pool drops question `k` when it is answered correctly and
   otherwise keeps it after `acc`.
   */
  lemma IntendedStep(acc: seq<Question>, shown: seq<Question>, k: nat, selected: string)
    requires UniqueIds(shown)
    requires k < |shown|
    requires !HasId(acc, shown[k].id)
    ensures var kept := if selected == shown[k].correctAnswer then acc else acc + [shown[k]];
            AnswerOn(Intended, acc + shown[k..], shown, PracticeScreen.Session(k, false), selected)
            == Answered(kept + shown[k + 1..], PracticeScreen.Answer(shown, PracticeScreen.Session(k, false), selected).session)
  {
    var q := shown[k];
    assert shown[k..] == [q] + shown[k + 1..];
    LaterIdsDiffer(shown, k);
    if selected == q.correctAnswer {
      RemoveMiddle(acc, q, shown[k + 1..]);
    } else {
      assert acc + shown[k..] == (acc + [q]) + shown[k + 1..];
    }
  }

  /**
   The intended walk from question `k` on, with the questions already kept
   in `acc`: it keeps exactly `acc` followed by the survivors of the rest.
   */
  lemma {:induction false} IntendedWalkFrom(acc: seq<Question>, shown: seq<Question>, k: nat, selections: seq<string>)
    requires UniqueIds(shown)
    requires k < |shown|
    requires |selections| >= |shown| - k
    requires forall i :: k <= i < |shown| ==> !HasId(acc, shown[i].id)
    ensures Walk(Intended, acc + shown[k..], shown, PracticeScreen.Session(k, false), selections).0
            == acc + Survivors(shown[k..], selections)
    decreases |shown| - k
  {
    var q := shown[k];
    var s := PracticeScreen.Session(k, false);
    var next := PracticeScreen.Answer(shown, s, selections[0]).session;
    var head := if selections[0] == q.correctAnswer then [] else [q];
    var kept := acc + head;
    assert kept == if selections[0] == q.correctAnswer then acc else acc + [q];
    IntendedStep(acc, shown, k, selections[0]);
    var after := Walk(Intended, kept + shown[k + 1..], shown, next, selections[1..]);
    assert Walk(Intended, acc + shown[k..], shown, s, selections) == after;
    var rest := Survivors(shown[k + 1..], selections[1..]);
    assert Survivors(shown[k..], selections) == head + rest by {
      assert shown[k..][1..] == shown[k + 1..];
    }
    if k + 1 < |shown| {
      assert next == PracticeScreen.Session(k + 1, false);
      forall i | k + 1 <= i < |shown|
        ensures !HasId(kept, shown[i].id)
      {
        Pools.HasIdAppend(acc, q, shown[i].id);
        assert shown[i].id != q.id by {
          assert i != k;
        }
      }
      IntendedWalkFrom(kept, shown, k + 1, selections[1..]);
      assert after.0 == kept + rest;
    } else {
      assert next == PracticeScreen.Session(k, true);
      assert shown[k + 1..] == [] && rest == [];
      assert after.0 == kept + shown[k + 1..];
      assert after.0 == kept + rest;
    }
    ConcatAssoc(acc, head, rest);
  }

  /** Concatenation is associative. */
  lemma ConcatAssoc(a: seq<Question>, b: seq<Question>, c: seq<Question>)
    ensures (a + b) + c == a + (b + c)
  {
  }

  /**
   Practising a whole pool with unique ids under the intended wiring leaves
   exactly the questions answered wrongly, in their original order.
   */
  lemma IntendedWalkKeepsWrongOnes(pool: seq<Question>, selections: seq<string>)
    requires UniqueIds(pool)
    requires |selections| >= |pool|
    ensures Walk(Intended, pool, pool, PracticeScreen.Init(pool), selections).0 == Survivors(pool, selections)
  {
    if |pool| > 0 {
      assert pool[0..] == pool;
      assert [] + pool[0..] == pool;
      IntendedWalkFrom([], pool, 0, selections);
    }
  }

  /**
   The survivors of a walk over a pool with unique ids: a question's id is
   still present exactly when it was answered wrongly.
   */
  lemma {:induction false} SurvivorsIffWrong(shown: seq<Question>, selections: seq<string>, i: nat)
    requires UniqueIds(shown)
    requires |selections| >= |shown|
    requires i < |shown|
    ensures HasId(Survivors(shown, selections), shown[i].id) <==> selections[i] != shown[i].correctAnswer
    decreases |shown|
  {
    var head := if selections[0] == shown[0].correctAnswer then [] else [shown[0]];
    var tail := Survivors(shown[1..], selections[1..]);
    assert UniqueIds(shown[1..]) by {
      forall a, b | 0 <= a < b < |shown[1..]|
        ensures shown[1..][a].id != shown[1..][b].id
      {
        assert shown[1..][a] == shown[a + 1] && shown[1..][b] == shown[b + 1];
      }
    }
    assert HasId(head + tail, shown[i].id) <==> HasId(head, shown[i].id) || HasId(tail, shown[i].id) by {
      HasIdSplit(head, tail, shown[i].id);
    }
    if i == 0 {
      LaterIdsDiffer(shown, 0);
      SurvivorsHaveIdsOf(shown[1..], selections[1..], shown[0].id);
    } else {
      assert shown[i] == shown[1..][i - 1];
      SurvivorsIffWrong(shown[1..], selections[1..], i - 1);
    }
  }

  /** Survivors carry only ids of the walked questions. */
  lemma SurvivorsHaveIdsOf(shown: seq<Question>, selections: seq<string>, id: string)
    requires |selections| >= |shown|
    requires !HasId(shown, id)
    ensures !HasId(Survivors(shown, selections), id)
  {
  }

  /** An id is in a concatenation exactly when it is in one of the parts. */
  lemma HasIdSplit(a: seq<Question>, b: seq<Question>, id: string)
    ensures HasId(a + b, id) <==> HasId(a, id) || HasId(b, id)
  {
    if HasId(a + b, id) {
      var k :| 0 <= k < |a + b| && (a + b)[k].id == id;
      if k >= |a| {
        assert b[k - |a|] == (a + b)[k];
      }
    }
    if HasId(a, id) {
      var k :| 0 <= k < |a| && a[k].id == id;
      assert (a + b)[k] == a[k];
    }
    if HasId(b, id) {
      var k :| 0 <= k < |b| && b[k].id == id;
      assert (a + b)[|a| + k] == b[k];
    }
  }

  /**
   Under the intended wiring, practising a whole pool with unique ids leaves
   a question's id in the pool exactly when it was answered wrongly.
   */
  lemma IntendedWalkRemovesExactlyCorrect(pool: seq<Question>, selections: seq<string>, i: nat)
    requires UniqueIds(pool)
    requires |selections| >= |pool|
    requires i < |pool|
    ensures HasId(Walk(Intended, pool, pool, PracticeScreen.Init(pool), selections).0, pool[i].id)
            <==> selections[i] != pool[i].correctAnswer
  {
    IntendedWalkKeepsWrongOnes(pool, selections);
    SurvivorsIffWrong(pool, selections, i);
  }
}
