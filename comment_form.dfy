/**
 * client/src/components/CommentForm.js: the text area's content and what
 * submitting it does.
 */
module CommentForm {
  import opened CommentModel
  import opened JsString

  /**
   * The object handed to `onSubmit`. The form itself only ever fills in the
   * content; a reply's `parentId` is added by the comment it answers.
   */
  datatype Payload = Payload(content: string, parentId: Option<Id>)

  /**
   * The trim check and the payload of `handleSubmit`: nothing when the
   * content is blank, otherwise the trimmed content alone.
   */
  function SubmitPayload(content: string): (r: Option<Payload>)
    ensures r.None? <==> AllWhitespace(content)
    ensures r.Some? ==>
      && r.value.parentId == None
      && r.value.content != []
      && !IsWhitespace(r.value.content[0]) && !IsWhitespace(r.value.content[|r.value.content| - 1])
      && CutFrom(content, r.value.content)
  {
    TrimEmpty(content);
    TrimSpec(content);
    var trimmed := Trim(content);
    if trimmed == [] then None else Some(Payload(trimmed, None))
  }

  /** What the form submits, the store keeps as it is: trimming it again changes nothing. */
  lemma SubmittedKeptAsSent(content: string)
    requires SubmitPayload(content).Some?
    ensures Trim(SubmitPayload(content).value.content) == SubmitPayload(content).value.content != []
  {
    TrimIdempotent(content);
  }

  class FormState {
    /** The text area's content. */
    var content: string

    /** A new form starts empty. */
    constructor ()
      ensures content == []
    {
      content := [];
    }

    /** Typing into the text area (`onChange`). */
    method Edit(text: string)
      modifies this
      ensures content == text
    {
      content := text;
    }

    /**
     * `handleSubmit`: blank content is refused and left in place; otherwise
     * the trimmed content is handed on and the text area is cleared.
     */
    method HandleSubmit() returns (submitted: Option<Payload>)
      modifies this
      ensures submitted == SubmitPayload(old(content))
      ensures submitted.None? ==> content == old(content)
      ensures submitted.Some? ==> content == []
    {
      submitted := SubmitPayload(content);
      if submitted.Some? {
        content := [];
      }
    }
  }
}
