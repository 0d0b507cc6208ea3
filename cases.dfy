/** The case record, the edit form's values and the small pure rules the
    form applies: the 100-character input limit and the "Select an option"
    placeholder of the two drop-downs. */
module Cases {
  import opened Text

  datatype Option<T> = None | Some(value: T)

  /** One CSV row, with the nine columns of FIELDNAMES in their order. The two
      counts are stored as text, as the CSV holds them. */
  datatype Row = Row(
    caseId: string,
    timestamp: string,
    phoneNumber: string,
    email: string,
    mainReaction: string,
    mainResponse: string,
    emailCount: string,
    phoneCount: string,
    comments: string)

  /** What the edit form holds when Update is pressed: the read-only case id
      and timestamp, the two entries, the two drop-downs and the comments box. */
  datatype Form = Form(
    caseId: string,
    timestamp: string,
    phone: string,
    email: string,
    reaction: string,
    response: string,
    comments: string)

  /** The two contact values that carry an aggregate count. */
  datatype Contact = ByEmail | ByPhone

  /** The value under which a stored row is counted: its email stripped and
      lower-cased, its phone number stripped but case-sensitive. */
  function ContactKey(r: Row, c: Contact): string {
    match c
    case ByEmail => Lower(Trim(r.email))
    case ByPhone => Trim(r.phoneNumber)
  }

  /** Two emails that differ only in the case of their letters (or nothing
      at all) are counted under one key; phone numbers are not case-folded. */
  lemma EmailKeyIgnoresCase(r: Row, u: Row)
    requires Alike(r.email, u.email)
    ensures ContactKey(r, ByEmail) == ContactKey(u, ByEmail)
  {
    NormalizedAlike(r.email, u.email);
  }

  /** The count column that belongs to a contact value. */
  function StoredCount(r: Row, c: Contact): string {
    match c
    case ByEmail => r.emailCount
    case ByPhone => r.phoneCount
  }

  /** The value the form's entry is counted under, normalised as for stored rows. */
  function InputKey(f: Form, c: Contact): string {
    match c
    case ByEmail => Lower(Trim(f.email))
    case ByPhone => Trim(f.phone)
  }

  /** The validation callback registered on every entry: the proposed text
      is accepted when it has at most 100 characters. */
  predicate Max100(text: string) {
    |text| <= 100
  }

  /** Tk's key validation: an edit whose resulting text fails Max100 is
      refused and the entry keeps its current text. */
  function AcceptEdit(current: string, proposed: string): (shown: string)
    ensures shown == proposed <== |proposed| <= 100
    ensures shown == current <== |proposed| > 100
    ensures |current| <= 100 ==> |shown| <= 100
  {
    if Max100(proposed) then proposed else current
  }

  /** A run of keystrokes on an entry that is within the limit never leaves
      more than 100 characters in it; what it shows is one accepted edit. */
  function TypeAll(current: string, edits: seq<string>): (shown: string)
    requires |current| <= 100
    ensures |shown| <= 100
    ensures shown == current || shown in edits
    decreases |edits|
  {
    if edits == [] then current else TypeAll(AcceptEdit(current, edits[0]), edits[1..])
  }

  const Placeholder: string := "Select an option"

  /** Loading a stored choice into a drop-down: an empty value shows the placeholder. */
  function ToChoice(stored: string): string {
    if stored != "" then stored else Placeholder
  }

  /** Saving a drop-down: the placeholder is stored as an empty value. */
  function FromChoice(shown: string): string {
    if shown != Placeholder then shown else ""
  }

  /** Showing a stored value and saving it again gives back the value,
      except for a stored "Select an option", which becomes empty. */
  lemma StoredChoiceRoundTrip(stored: string)
    ensures stored != Placeholder ==> FromChoice(ToChoice(stored)) == stored
    ensures FromChoice(ToChoice(Placeholder)) == ""
  {
  }

  /** Saving a shown value and loading it again gives back the shown value,
      except for an empty one, which comes back as the placeholder. */
  lemma ShownChoiceRoundTrip(shown: string)
    ensures shown != "" ==> ToChoice(FromChoice(shown)) == shown
    ensures ToChoice(FromChoice("")) == Placeholder
  {
  }

  /** The form for a brand-new case: a fresh id and timestamp (drawn by the
      caller from uuid4 and the clock), every field blank, both drop-downs
      on the placeholder. */
  function BlankForm(newId: string, now: string): (f: Form)
    ensures f.caseId == newId && f.timestamp == now
    ensures InputKey(f, ByEmail) == "" && InputKey(f, ByPhone) == ""
    ensures FromChoice(f.reaction) == "" && FromChoice(f.response) == ""
  {
    Form(newId, now, "", "", Placeholder, Placeholder, "")
  }

  /** The form filled from a stored row when a case is opened for editing. */
  function FormOf(r: Row): (f: Form)
    ensures f.caseId == r.caseId
    ensures forall c :: InputKey(f, c) == ContactKey(r, c)
    ensures r.mainReaction != Placeholder ==> FromChoice(f.reaction) == r.mainReaction
    ensures r.mainResponse != Placeholder ==> FromChoice(f.response) == r.mainResponse
  {
    Form(r.caseId, r.timestamp, r.phoneNumber, r.email,
         ToChoice(r.mainReaction), ToChoice(r.mainResponse), r.comments)
  }
}
