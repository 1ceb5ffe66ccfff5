/**
 The API-key entry form: the input is trimmed, and only a non-empty trimmed
 key is handed to `onSave`; the submit button is disabled exactly when
 submitting would do nothing.
 */
module ApiKeyScreen {
  import opened Types
  import opened Text

  /**
   Submitting the form with `input` in the field: `onSave` is called with
   the trimmed input when that is non-empty, and not called otherwise.
   */
  function Submit(input: string): (saved: Option<string>)
    ensures saved.None? <==> AllWhitespace(input)
    ensures saved.Some? ==> saved.value == Trim(input)
    ensures saved.Some? ==> saved.value != []
    ensures saved.Some? ==> !IsJsWhitespace(saved.value[0]) && !IsJsWhitespace(saved.value[|saved.value| - 1])
  {
    TrimEmptyIffAllWhitespace(input);
    var key := Trim(input);
    if key != [] then Some(key) else None
  }

  /** The submit button is disabled while the trimmed input is empty. */
  function SubmitDisabled(input: string): (disabled: bool)
    ensures disabled <==> AllWhitespace(input)
  {
    TrimEmptyIffAllWhitespace(input);
    Trim(input) == []
  }

  /** The button is disabled exactly when a submit would not save. */
  lemma DisabledMatchesGuard(input: string)
    ensures SubmitDisabled(input) <==> Submit(input).None?
  {
  }

  /** A saved key is a fixed point of trimming: saving it again saves it unchanged. */
  lemma SavedKeyIsStable(input: string)
    requires Submit(input).Some?
    ensures Submit(Submit(input).value) == Submit(input)
  {
    TrimIdempotent(input);
    TrimEmptyIffAllWhitespace(Trim(input));
  }
}
