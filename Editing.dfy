/*
 * The inline editor every component runs: a flag saying whether the input is
 * shown and the text typed into it (`isEditingTitle`/`tempTitle` in
 * ChapterComponent and VideoComponent, `isEditingDescription`/
 * `tempDescription` in SceneComponent, `isEditingPrompt`/`tempPromptText` in
 * PromptComponent). Each component's save handler dispatches the trimmed text
 * when it is not blank; what it dispatches is built in the component's module.
 */
module Editing {
  import opened Types
  import opened Text

  /**
   * `if (temp.trim()) { ... temp.trim() ... }`: the trimmed text, or None when
   * the typed text is blank, i.e. whitespace only (an empty string included).
   */
  function Committed(temp: string): (r: Option<string>)
    ensures r.None? <==> forall k :: 0 <= k < |temp| ==> IsWhitespace(temp[k])
    ensures r.Some? ==> r.value == Trim(temp)
    ensures r.Some? ==> r.value != [] && !IsWhitespace(r.value[0]) && !IsWhitespace(r.value[|r.value| - 1])
  {
    TrimEmptyIff(temp);
    TrimIsSlice(temp);
    if Trim(temp) != [] then Some(Trim(temp)) else None
  }

  /** Opening a saved text again and saving it unchanged saves the same text. */
  lemma CommittedIdempotent(temp: string)
    requires Committed(temp).Some?
    ensures Committed(Committed(temp).value) == Committed(temp)
  {
    TrimIdempotent(temp);
  }

  /** The editing state of one component. */
  class TextEditor {
    var isEditing: bool
    var temp: string

    /** `useState(false)` and `useState('')` */
    constructor ()
      ensures !isEditing && temp == ""
    {
      isEditing := false;
      temp := "";
    }

    /** The edit handler: copy the current value into the input and show it. */
    method Edit(current: string)
      modifies this
      ensures isEditing && temp == current
    {
      temp := current;
      isEditing := true;
    }

    /** The input's `onChange`: the typed text replaces the temporary value. */
    method Change(value: string)
      modifies this
      ensures temp == value && isEditing == old(isEditing)
    {
      temp := value;
    }

    /**
     * The save handler: hand back the text to dispatch, if any, and leave
     * editing. The typed text itself stays as it was.
     */
    method Save() returns (committed: Option<string>)
      modifies this
      ensures committed == Committed(old(temp))
      ensures !isEditing && temp == old(temp)
    {
      committed := Committed(temp);
      isEditing := false;
    }

    /** The cancel handler: clear the input and leave editing, dispatching nothing. */
    method Cancel()
      modifies this
      ensures !isEditing && temp == ""
    {
      temp := "";
      isEditing := false;
    }
  }
}
