/**
 The contact form: three text fields, a status line, and the two ways a send
 can end.

 Sending goes through an external mail service; here its answer is an input
 (`Sent` or `Failed`).  The status line is hidden while the status is empty,
 green when the status mentions "successfully" and red otherwise.
 */
module Contact {

  import opened Common

  datatype FormData = FormData(name: string, email: string, message: string)

  /** The three inputs of the form, named as in their `name` attribute. */
  datatype Field = Name | Email | Message

  /** The form's data when it is first shown and after a successful send. */
  const EmptyForm: FormData := FormData("", "", "")

  datatype ContactForm = ContactForm(data: FormData, status: string)

  const InitialForm: ContactForm := ContactForm(EmptyForm, "")

  const SuccessStatus: string := "Message sent successfully!"
  /**
   "Failed to send message. Please try again later.", written in four pieces
   so that `FailureStatusLacksU` can check its letters piece by piece, which
   is much cheaper for the verifier than one long literal.
   */
  const FailureStatus: string := "Failed to send " + "message. " + "Please try " + "again later."

  /** How the mail service answered. */
  datatype Outcome = Sent | Failed

  /** What the status line shows. */
  datatype StatusView = Hidden | Green(text: string) | Red(text: string)

  /** The value of one field. */
  function Get(data: FormData, field: Field): string
  {
    match field
    case Name => data.name
    case Email => data.email
    case Message => data.message
  }

  /**
   `handleChange`: the input that fired stores its new value, and the other
   two fields keep theirs.
   */
  function HandleChange(form: ContactForm, field: Field, value: string): (r: ContactForm)
    ensures Get(r.data, field) == value
    ensures forall other :: other != field ==> Get(r.data, other) == Get(form.data, other)
    ensures r.status == form.status
  {
    var d := form.data;
    var data := match field
      case Name => d.(name := value)
      case Email => d.(email := value)
      case Message => d.(message := value);
    form.(data := data)
  }

  /**
   The three inputs are `required`: the browser submits the form only when
   none of them is empty.
   */
  predicate FilledIn(data: FormData)
  {
    data.name != "" && data.email != "" && data.message != ""
  }

  /**
   Pressing "Send": with a field left empty the browser blocks the submit
   event, nothing is sent and the form stays as it is.  Otherwise
   `handleSubmit` and its two continuations run: the current data is what is
   sent; on success the fields are cleared and the success status is set, on
   failure the fields are kept and the failure status is set.
   */
  function Submit(form: ContactForm, outcome: Outcome): (r: (Option<FormData>, ContactForm))
    ensures !FilledIn(form.data) ==> r == (None, form)
    ensures FilledIn(form.data) ==> r.0 == Some(form.data)
    ensures FilledIn(form.data) && outcome == Sent ==> r.1 == ContactForm(EmptyForm, SuccessStatus)
    ensures FilledIn(form.data) && outcome == Failed ==> r.1 == ContactForm(form.data, FailureStatus)
  {
    if !FilledIn(form.data) then
      (None, form)
    else
      match outcome
      case Sent => (Some(form.data), ContactForm(EmptyForm, SuccessStatus))
      case Failed => (Some(form.data), form.(status := FailureStatus))
  }

  /**
   The form as first shown, and as left after a successful send, cannot be
   sent again until every field is filled in.
   */
  lemma EmptyFormBlocked(form: ContactForm, outcome: Outcome)
    ensures Submit(InitialForm, outcome) == (None, InitialForm)
    ensures Submit(Submit(form, Sent).1, outcome).0 == None
  {
  }

  /** `word` appears in `text` starting at offset `i`. */
  predicate OccursAt(text: string, word: string, i: nat)
  {
    i + |word| <= |text| && text[i..i + |word|] == word
  }

  /** `text.includes(word)`: `word` occurs somewhere in `text`. */
  function Contains(text: string, word: string): (r: bool)
    ensures r <==> exists i: nat :: OccursAt(text, word, i)
    decreases |text|
  {
    if |text| < |word| then
      false
    else if text[..|word|] == word then
      assert OccursAt(text, word, 0);
      true
    else
      var r := Contains(text[1..], word);
      forall i: nat | 1 <= i
        ensures OccursAt(text, word, i) <==> OccursAt(text[1..], word, i - 1)
      {
        if i + |word| <= |text| {
          SliceOfTail(text, i - 1, |word|);
        }
      }
      forall i: nat
        ensures OccursAt(text[1..], word, i) <==> OccursAt(text, word, i + 1)
      {
        if i + 1 + |word| <= |text| {
          SliceOfTail(text, i, |word|);
        }
      }
      assert !OccursAt(text, word, 0);
      r
  }

  lemma SliceOfTail(text: string, i: nat, n: nat)
    requires i + 1 + n <= |text|
    ensures text[1..][i..i + n] == text[i + 1..i + 1 + n]
  {
  }

  /** The status line for a status. */
  function View(status: string): (v: StatusView)
    ensures v == Hidden <==> status == ""
    ensures v.Green? ==> v.text == status && Contains(status, "successfully")
    ensures v.Red? ==> v.text == status && !Contains(status, "successfully")
  {
    if status == "" then Hidden
    else if Contains(status, "successfully") then Green(status)
    else Red(status)
  }

  /** Nothing is shown before the first send. */
  lemma InitiallyHidden()
    ensures View(InitialForm.status) == Hidden
  {
  }

  /** The success status mentions "successfully", at offset 13. */
  lemma SuccessStatusIsGreen()
    ensures View(SuccessStatus) == Green(SuccessStatus)
  {
    assert OccursAt(SuccessStatus, "successfully", 13);
  }

  /** A word with a letter the text lacks does not occur in the text. */
  lemma MissingLetter(text: string, word: string, j: nat)
    requires j < |word|
    requires word[j] !in text
    ensures !Contains(text, word)
  {
    forall i: nat
      ensures !OccursAt(text, word, i)
    {
      if i + |word| <= |text| {
        assert text[i..i + |word|][j] == text[i + j];
      }
    }
  }

  /** `c` occurs nowhere in `text`. */
  predicate Lacks(text: string, c: char)
  {
    forall i :: 0 <= i < |text| ==> text[i] != c
  }

  lemma LacksConcat(a: string, b: string, c: char)
    requires Lacks(a, c) && Lacks(b, c)
    ensures Lacks(a + b, c)
  {
    forall i | 0 <= i < |a + b|
      ensures (a + b)[i] != c
    {
      if i >= |a| {
        assert (a + b)[i] == b[i - |a|];
      }
    }
  }

  lemma FailureStatusLacksU()
    ensures 'u' !in FailureStatus
  {
    assert Lacks("Failed to send ", 'u');
    assert Lacks("message. ", 'u');
    assert Lacks("Please try ", 'u');
    assert Lacks("again later.", 'u');
    LacksConcat("Failed to send ", "message. ", 'u');
    LacksConcat("Failed to send " + "message. ", "Please try ", 'u');
    LacksConcat("Failed to send " + "message. " + "Please try ", "again later.", 'u');
  }

  /**
   The failure status has no `u`, while "successfully" has one, so it does
   not mention "successfully" and is shown in red.
   */
  lemma FailureStatusIsRed()
    ensures View(FailureStatus) == Red(FailureStatus)
  {
    FailureStatusLacksU();
    MissingLetter(FailureStatus, "successfully", 1);
  }

  /**
   After a send the status line is always shown, in green exactly when the
   mail service accepted the message.
   */
  lemma SubmitColour(form: ContactForm, outcome: Outcome)
    requires FilledIn(form.data)
    ensures View(Submit(form, outcome).1.status).Green? <==> outcome == Sent
    ensures View(Submit(form, outcome).1.status).Red? <==> outcome == Failed
  {
    SuccessStatusIsGreen();
    FailureStatusIsRed();
  }

  /** Editing a field after a failed send leaves the failure status up. */
  lemma EditKeepsStatus(form: ContactForm, field: Field, value: string)
    requires FilledIn(form.data)
    ensures View(HandleChange(Submit(form, Failed).1, field, value).status) == Red(FailureStatus)
  {
    FailureStatusIsRed();
  }
}
