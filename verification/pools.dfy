/**
 The two durable question lists of the application, the practice pool and the
 bookmark pool, and the edits App makes to them: removal by id, bookmark
 toggling and merging a quiz's missed questions into the practice pool.
 */
module Pools {
  import opened Types
  import opened Seqs

  /** The filter predicate of a removal: the entry's id differs from `id`. */
  function IdIsNot(id: string): Question -> bool {
    (q: Question) => q.id != id
  }

  /** The pool without the entries carrying `id`, in their order. */
  function RemoveById(pool: seq<Question>, id: string): (r: seq<Question>)
    ensures !HasId(r, id)
    ensures forall i :: 0 <= i < |r| ==> r[i] in pool
    ensures forall i :: 0 <= i < |pool| && pool[i].id != id ==> pool[i] in r
    ensures !HasId(pool, id) ==> r == pool
  {
    AbsentIdFilterKeepsAll(pool, id);
    Filter(pool, IdIsNot(id))
  }

  /** Filtering out an id that no entry carries keeps the pool as it is. */
  lemma AbsentIdFilterKeepsAll(pool: seq<Question>, id: string)
    ensures !HasId(pool, id) ==> Filter(pool, IdIsNot(id)) == pool
  {
    if !HasId(pool, id) {
      FilterKeepsAll(pool, IdIsNot(id));
    }
  }

  /** Removal keeps the relative order of the entries it keeps. */
  lemma RemoveByIdConcat(a: seq<Question>, b: seq<Question>, id: string)
    ensures RemoveById(a + b, id) == RemoveById(a, id) + RemoveById(b, id)
  {
    FilterConcat(a, b, IdIsNot(id));
  }

  /**
   Removal walks the pool front to back, dropping exactly the entries that
   carry `id`; with `RemoveById([], id) == []` this fixes the result
   entry by entry, order included.
   */
  lemma RemoveByIdCons(q: Question, rest: seq<Question>, id: string)
    ensures RemoveById([q] + rest, id) == (if q.id == id then [] else [q]) + RemoveById(rest, id)
    ensures RemoveById([], id) == []
  {
    RemoveByIdConcat([q], rest, id);
    if q.id == id {
      assert !HasId(RemoveById([q], id), id);
      assert RemoveById([q], id) == [];
    } else {
      assert RemoveById([q], id) == [q];
    }
  }

  /** A filter over a list with unique ids yields a list with unique ids. */
  lemma {:induction false} FilterKeepsUniqueIds(s: seq<Question>, keep: Question -> bool)
    requires UniqueIds(s)
    ensures UniqueIds(Filter(s, keep))
    decreases |s|
  {
    if |s| > 0 {
      var rest := Filter(s[1..], keep);
      FilterKeepsUniqueIds(s[1..], keep);
      if keep(s[0]) {
        forall j | 0 <= j < |rest|
          ensures s[0].id != rest[j].id
        {
          var k :| 0 <= k < |s[1..]| && s[1..][k] == rest[j];
          assert s[k + 1] == rest[j];
        }
      }
    }
  }

  /** Removal from a list with unique ids keeps the ids unique. */
  lemma RemoveByIdKeepsUniqueIds(pool: seq<Question>, id: string)
    requires UniqueIds(pool)
    ensures UniqueIds(RemoveById(pool, id))
  {
    FilterKeepsUniqueIds(pool, IdIsNot(id));
  }

  /**
   The bookmark button: a bookmarked question (by id) is removed, every entry
   with its id going; an unbookmarked one is appended at the end.
   */
  function ToggleBookmark(bookmarks: seq<Question>, q: Question): (r: seq<Question>)
    ensures HasId(r, q.id) <==> !HasId(bookmarks, q.id)
    ensures HasId(bookmarks, q.id) ==> r == RemoveById(bookmarks, q.id)
    ensures !HasId(bookmarks, q.id) ==> |r| == |bookmarks| + 1 && r[..|bookmarks|] == bookmarks && r[|bookmarks|] == q
  {
    HasIdAppend(bookmarks, q, q.id);
    if HasId(bookmarks, q.id) then RemoveById(bookmarks, q.id) else bookmarks + [q]
  }

  /** Toggling a question that is not bookmarked twice restores the list. */
  lemma ToggleTwiceRestores(bookmarks: seq<Question>, q: Question)
    requires !HasId(bookmarks, q.id)
    ensures ToggleBookmark(ToggleBookmark(bookmarks, q), q) == bookmarks
  {
    RemoveByIdConcat(bookmarks, [q], q.id);
    FilterDropsAll([q], IdIsNot(q.id));
  }

  /** Toggling keeps the bookmark ids unique. */
  lemma ToggleKeepsUniqueIds(bookmarks: seq<Question>, q: Question)
    requires UniqueIds(bookmarks)
    ensures UniqueIds(ToggleBookmark(bookmarks, q))
  {
    if HasId(bookmarks, q.id) {
      RemoveByIdKeepsUniqueIds(bookmarks, q.id);
    }
  }

  /** Appending a question whose id is absent keeps the ids unique. */
  lemma AppendFreshKeepsUniqueIds(pool: seq<Question>, q: Question)
    requires UniqueIds(pool)
    requires !HasId(pool, q.id)
    ensures UniqueIds(pool + [q])
  {
  }

  /**
   Merging a quiz's missed questions into the practice pool: each missed
   question, in order, is appended unless a question with its id is already
   present (in the old pool or among those appended before it). The old pool
   is an unchanged prefix of the result; only missed questions with a fresh
   id are appended; afterwards every missed id is present; unique ids stay
   unique.
   */
  function MergeMissed(pool: seq<Question>, missed: seq<Question>): (r: seq<Question>)
    ensures |pool| <= |r| && r[..|pool|] == pool
    ensures forall i :: |pool| <= i < |r| ==> r[i] in missed && !HasId(pool, r[i].id)
    ensures forall i :: 0 <= i < |missed| ==> HasId(r, missed[i].id)
    ensures UniqueIds(pool) ==> UniqueIds(r)
    decreases |missed|
  {
    if |missed| == 0 then pool
    else
      var m := missed[0];
      var next := if HasId(pool, m.id) then pool else pool + [m];
      var r := MergeMissed(next, missed[1..]);
      MergeStep(pool, missed, next, r);
      r
  }

  /**
   One step of the merge: if the rest of the missed list merged into `next`
   (the pool with the first missed question admitted or not) gives `r`, then
   `r` relates to `pool` and the whole missed list as `MergeMissed` promises.
   */
  lemma MergeStep(pool: seq<Question>, missed: seq<Question>, next: seq<Question>, r: seq<Question>)
    requires |missed| > 0
    requires next == if HasId(pool, missed[0].id) then pool else pool + [missed[0]]
    requires |next| <= |r| && r[..|next|] == next
    requires forall i :: |next| <= i < |r| ==> r[i] in missed[1..] && !HasId(next, r[i].id)
    requires forall i :: 0 <= i < |missed[1..]| ==> HasId(r, missed[1..][i].id)
    requires UniqueIds(next) ==> UniqueIds(r)
    ensures |pool| <= |r| && r[..|pool|] == pool
    ensures forall i :: |pool| <= i < |r| ==> r[i] in missed && !HasId(pool, r[i].id)
    ensures forall i :: 0 <= i < |missed| ==> HasId(r, missed[i].id)
    ensures UniqueIds(pool) ==> UniqueIds(r)
  {
    var m := missed[0];
    assert next[..|pool|] == pool;
    assert r[..|pool|] == pool by {
      assert r[..|pool|] == r[..|next|][..|pool|];
    }
    forall i | |pool| <= i < |r|
      ensures r[i] in missed && !HasId(pool, r[i].id)
    {
      MergeStepAppended(pool, missed, next, r, i);
    }
    forall i | 0 <= i < |missed|
      ensures HasId(r, missed[i].id)
    {
      if i == 0 {
        HasIdAppend(pool, m, m.id);
        HasIdPrefix(next, r, m.id);
      } else {
        assert missed[i] == missed[1..][i - 1];
      }
    }
    if UniqueIds(pool) && !HasId(pool, m.id) {
      AppendFreshKeepsUniqueIds(pool, m);
    }
  }

  lemma MergeStepAppended(pool: seq<Question>, missed: seq<Question>, next: seq<Question>, r: seq<Question>, i: int)
    requires |missed| > 0
    requires next == if HasId(pool, missed[0].id) then pool else pool + [missed[0]]
    requires |next| <= |r| && r[..|next|] == next
    requires forall i :: |next| <= i < |r| ==> r[i] in missed[1..] && !HasId(next, r[i].id)
    requires |pool| <= i < |r|
    ensures r[i] in missed && !HasId(pool, r[i].id)
  {
    if i < |next| {
      assert r[i] == r[..|next|][i] == next[i] == missed[0];
    } else {
      assert r[i] in missed[1..];
      if HasId(pool, r[i].id) {
        assert next[..|pool|] == pool;
        HasIdPrefix(pool, next, r[i].id);
      }
    }
  }

  lemma FreshAfterAdmit(pool: seq<Question>, missed: seq<Question>)
    requires |missed| > 0
    requires UniqueIds(missed)
    requires forall i :: 0 <= i < |missed| ==> !HasId(pool, missed[i].id)
    ensures UniqueIds(missed[1..])
    ensures forall i :: 0 <= i < |missed[1..]| ==> !HasId(pool + [missed[0]], missed[1..][i].id)
  {
    forall i | 0 <= i < |missed[1..]|
      ensures !HasId(pool + [missed[0]], missed[1..][i].id)
    {
      assert missed[1..][i] == missed[i + 1];
      assert missed[0].id != missed[i + 1].id;
      HasIdAppend(pool, missed[0], missed[i + 1].id);
    }
  }

  /** Appending one question adds exactly its id to the ids present. */
  lemma HasIdAppend(pool: seq<Question>, q: Question, id: string)
    ensures HasId(pool + [q], id) <==> HasId(pool, id) || q.id == id
  {
    if HasId(pool, id) {
      var k :| 0 <= k < |pool| && pool[k].id == id;
      assert (pool + [q])[k] == pool[k];
    }
    if HasId(pool + [q], id) && q.id != id {
      var k :| 0 <= k < |pool + [q]| && (pool + [q])[k].id == id;
      assert pool[k] == (pool + [q])[k];
    }
    assert (pool + [q])[|pool|] == q;
  }

  /**
   When every missed question has a fresh id and the missed ids are distinct,
   the merge appends all of them, in order.
   */
  lemma {:induction false} MergeFreshAppendsAll(pool: seq<Question>, missed: seq<Question>)
    requires UniqueIds(missed)
    requires forall i :: 0 <= i < |missed| ==> !HasId(pool, missed[i].id)
    ensures MergeMissed(pool, missed) == pool + missed
    decreases |missed|
  {
    if |missed| > 0 {
      var m := missed[0];
      assert !HasId(pool, m.id);
      assert MergeMissed(pool, missed) == MergeMissed(pool + [m], missed[1..]);
      FreshAfterAdmit(pool, missed);
      MergeFreshAppendsAll(pool + [m], missed[1..]);
      AppendHead(pool, missed);
    }
  }

  /** Moving the head of `missed` onto the end of `pool` keeps the concatenation. */
  lemma AppendHead(pool: seq<Question>, missed: seq<Question>)
    requires |missed| > 0
    ensures (pool + [missed[0]]) + missed[1..] == pool + missed
  {
    assert missed == [missed[0]] + missed[1..];
  }
}
