/**
 * The add-school form: the validation schema the form is resolved against and the payload
 * the submit handler posts once the form has passed it.
 */
module AddSchool {
  import opened Optional

  /** An entry of the file input's list; the schema looks only at its size in bytes. */
  datatype File = File(name: string, size: nat)

  /** The form values as the resolver receives them: text inputs give strings (the empty
      string when left blank), the file input gives its file list, or nothing. */
  datatype Form = Form(
    name: string,
    address: string,
    city: string,
    state: string,
    contact: string,
    emailId: string,
    imageFile: Option<seq<File>>)

  /** One failed test of the schema. */
  datatype Issue =
    | NameRequired
    | AddressRequired
    | CityRequired
    | StateRequired
    | ContactNotNumber
    | ContactRequired
    | EmailRequired
    | ImageRequired
    | ImageTooLarge

  /** The message the schema attaches to each test. */
  function Message(i: Issue): string
  {
    match i
    case NameRequired => "School name is required"
    case AddressRequired => "Address is required"
    case CityRequired => "City is required"
    case StateRequired => "State is required"
    case ContactNotNumber => "Contact must be a number"
    case ContactRequired => "Contact is required"
    case EmailRequired => "Email is required"
    case ImageRequired => "Image is required"
    case ImageTooLarge => "Image size is too large"
  }

  /** The largest accepted image, 5 MiB. */
  const MAX_IMAGE_BYTES: nat := 5 * 1024 * 1024

  predicate IsDigit(c: char)
  {
    '0' <= c <= '9'
  }

  /** `/^\d+$/`: one or more decimal digits and nothing else. */
  predicate DigitsOnly(s: string)
  {
    |s| > 0 && forall i :: 0 <= i < |s| ==> IsDigit(s[i])
  }

  /** A required string test: the empty string fails it. */
  function Required(value: string, issue: Issue): (r: seq<Issue>)
    ensures forall i :: i in r <==> i == issue && value == ""
  {
    if value == "" then [issue] else []
  }

  /** The two tests on `contact`: the digit pattern and presence. The empty string fails
      both, since the pattern does not exclude it. */
  function ContactIssues(contact: string): (r: seq<Issue>)
    ensures forall i :: i in r <==>
              (i == ContactNotNumber && !DigitsOnly(contact)) || (i == ContactRequired && contact == "")
  {
    (if DigitsOnly(contact) then [] else [ContactNotNumber]) + Required(contact, ContactRequired)
  }

  /** The tests on `imageFile`: presence, then the size of the first file. A missing value
      stops at the presence test; a present list fails the size test when it has no first
      file or that file is larger than the limit. */
  function ImageIssues(files: Option<seq<File>>): (r: seq<Issue>)
    ensures forall i :: i in r <==>
              (i == ImageRequired && files.None?) ||
              (i == ImageTooLarge && files.Some? && (files.value == [] || files.value[0].size > MAX_IMAGE_BYTES))
  {
    match files
    case None => [ImageRequired]
    case Some(fs) => if |fs| > 0 && fs[0].size <= MAX_IMAGE_BYTES then [] else [ImageTooLarge]
  }

  /** When each test of the schema fails, stated field by field. */
  ghost predicate Fails(f: Form, i: Issue)
  {
    match i
    case NameRequired => f.name == ""
    case AddressRequired => f.address == ""
    case CityRequired => f.city == ""
    case StateRequired => f.state == ""
    case ContactNotNumber => !DigitsOnly(f.contact)
    case ContactRequired => f.contact == ""
    case EmailRequired => f.emailId == ""
    case ImageRequired => f.imageFile.None?
    case ImageTooLarge =>
      f.imageFile.Some? && (f.imageFile.value == [] || f.imageFile.value[0].size > MAX_IMAGE_BYTES)
  }

  /** What the schema accepts: every field present, a contact of digits only, and a first
      image file of at most 5 MiB. */
  ghost predicate Accepted(f: Form)
  {
    f.name != "" && f.address != "" && f.city != "" && f.state != "" &&
    DigitsOnly(f.contact) && f.emailId != "" &&
    f.imageFile.Some? && |f.imageFile.value| > 0 && f.imageFile.value[0].size <= MAX_IMAGE_BYTES
  }

  /** Every failed test of the schema, in the schema's field order. */
  function Validate(f: Form): (issues: seq<Issue>)
    ensures forall i :: i in issues <==> Fails(f, i)
    ensures issues == [] <==> Accepted(f)
  {
    var text := Required(f.name, NameRequired) + Required(f.address, AddressRequired) +
                Required(f.city, CityRequired) + Required(f.state, StateRequired);
    var rest := ContactIssues(f.contact) + Required(f.emailId, EmailRequired) + ImageIssues(f.imageFile);
    text + rest
  }

  /** Each test reports its own message. */
  lemma MessagesDistinct(i: Issue, j: Issue)
    requires i != j
    ensures Message(i) != Message(j)
  {
  }

  /** A form the schema accepts, with one required text field blanked, fails that field's
      test alone. */
  lemma BlankFieldFailsAlone(f: Form)
    requires Accepted(f)
    ensures Validate(f.(name := "")) == [NameRequired]
    ensures Validate(f.(address := "")) == [AddressRequired]
    ensures Validate(f.(city := "")) == [CityRequired]
    ensures Validate(f.(state := "")) == [StateRequired]
    ensures Validate(f.(emailId := "")) == [EmailRequired]
    ensures Validate(f.(contact := "")) == [ContactNotNumber, ContactRequired]
  {
  }

  /** The size limit is inclusive: a first file of exactly 5 MiB passes and one byte more
      fails, whatever follows it in the list. */
  lemma ImageSizeBoundary(rest: seq<File>)
    ensures ImageIssues(Some([File("a", 5242880)] + rest)) == []
    ensures ImageIssues(Some([File("a", 5242881)] + rest)) == [ImageTooLarge]
    ensures ImageIssues(Some([])) == [ImageTooLarge]
  {
  }

  /** A contact holding anything but digits fails only the pattern test. */
  lemma ContactWithNonDigit(contact: string, i: nat)
    requires i < |contact| && !IsDigit(contact[i])
    ensures ContactIssues(contact) == [ContactNotNumber]
  {
  }

  /** The record the submit handler posts. */
  datatype Payload = Payload(
    name: string,
    address: string,
    city: string,
    state: string,
    contact: string,
    emailId: string,
    imageBase64: string)

  /** The payload built from an accepted form: the six text fields as entered and the first
      file's data URL, made by `toBase64`. */
  function BuildPayload(f: Form, toBase64: File -> string): (p: Payload)
    requires Validate(f) == []
    ensures p.name == f.name && p.address == f.address && p.city == f.city && p.state == f.state
    ensures p.contact == f.contact && p.emailId == f.emailId
    ensures p.name != "" && p.address != "" && p.city != "" && p.state != "" && p.emailId != ""
    ensures DigitsOnly(p.contact)
    ensures exists file :: file in f.imageFile.value && file.size <= MAX_IMAGE_BYTES && p.imageBase64 == toBase64(file)
  {
    var file := f.imageFile.value[0];
    Payload(f.name, f.address, f.city, f.state, f.contact, f.emailId, toBase64(file))
  }

  /** Only the first file reaches the payload: forms that differ in their later files post the
      same payload. */
  lemma PayloadUsesFirstFileOnly(f: Form, rest: seq<File>, toBase64: File -> string)
    requires Validate(f) == []
    ensures var g := f.(imageFile := Some([f.imageFile.value[0]] + rest));
            Validate(g) == [] && BuildPayload(g, toBase64) == BuildPayload(f, toBase64)
  {
  }
}
