/** The registration page's form record, its single-field update, and the
    `loading` protocol around submitting it. */
module RegisterPage {
  import opened Wrappers
  import opened Text

  /** The fields of the registration payload, one per form control. */
  datatype FieldName =
    | Email | Password | FirstName | LastName | Gender | Phone | Dob
    | AddressLine1 | AddressLine2 | City | County | PostalCode | Country

  /** The registration payload as the form holds it. */
  datatype Form = Form(
    email: string, password: string, firstName: string, lastName: string,
    gender: string, phone: string, dob: string,
    addressLine1: string, addressLine2: string, city: string, county: string,
    postalCode: string, country: string)

  /** The `name` attribute of the control that edits each field, which is
      also the field's key in the payload. */
  function InputName(n: FieldName): string {
    match n
    case Email => "email"
    case Password => "password"
    case FirstName => "firstName"
    case LastName => "lastName"
    case Gender => "gender"
    case Phone => "phone"
    case Dob => "dob"
    case AddressLine1 => "address_line1"
    case AddressLine2 => "address_line2"
    case City => "city"
    case County => "county"
    case PostalCode => "postalcode"
    case Country => "country"
  }

  /** The field a change event's `name` designates, if any. */
  function FieldNamed(name: string): Option<FieldName> {
    if name == "email" then Some(Email)
    else if name == "password" then Some(Password)
    else if name == "firstName" then Some(FirstName)
    else if name == "lastName" then Some(LastName)
    else if name == "gender" then Some(Gender)
    else if name == "phone" then Some(Phone)
    else if name == "dob" then Some(Dob)
    else if name == "address_line1" then Some(AddressLine1)
    else if name == "address_line2" then Some(AddressLine2)
    else if name == "city" then Some(City)
    else if name == "county" then Some(County)
    else if name == "postalcode" then Some(PostalCode)
    else if name == "country" then Some(Country)
    else None
  }

  /** Every control's `name` designates exactly the field it edits, so a
      change event always lands on a field of the payload. */
  lemma InputNamesDesignateFields(n: FieldName)
    ensures FieldNamed(InputName(n)) == Some(n)
  {
  }

  /** `form[name]`. */
  function Get(f: Form, n: FieldName): string {
    match n
    case Email => f.email
    case Password => f.password
    case FirstName => f.firstName
    case LastName => f.lastName
    case Gender => f.gender
    case Phone => f.phone
    case Dob => f.dob
    case AddressLine1 => f.addressLine1
    case AddressLine2 => f.addressLine2
    case City => f.city
    case County => f.county
    case PostalCode => f.postalCode
    case Country => f.country
  }

  /** Two forms that agree on every field are the same form. */
  lemma FormsEqualByFields(a: Form, b: Form)
    requires forall n :: Get(a, n) == Get(b, n)
    ensures a == b
  {
    assert Get(a, Email) == Get(b, Email);
    assert Get(a, Password) == Get(b, Password);
    assert Get(a, FirstName) == Get(b, FirstName);
    assert Get(a, LastName) == Get(b, LastName);
    assert Get(a, Gender) == Get(b, Gender);
    assert Get(a, Phone) == Get(b, Phone);
    assert Get(a, Dob) == Get(b, Dob);
    assert Get(a, AddressLine1) == Get(b, AddressLine1);
    assert Get(a, AddressLine2) == Get(b, AddressLine2);
    assert Get(a, City) == Get(b, City);
    assert Get(a, County) == Get(b, County);
    assert Get(a, PostalCode) == Get(b, PostalCode);
    assert Get(a, Country) == Get(b, Country);
  }

  /** The form the page opens with: every field empty except the gender,
      which starts as `male`, and the country, which starts as `UK`. */
  function InitialForm(): (f: Form)
    ensures Get(f, Gender) == "male" && Get(f, Country) == "UK"
    ensures forall n :: n != Gender && n != Country ==> Get(f, n) == ""
  {
    Form("", "", "", "", "male", "", "", "", "", "", "", "", "UK")
  }

  /** `handleChange`: the field named by the event takes the event's value
      and every other field keeps its value. */
  function HandleChange(f: Form, n: FieldName, value: string): (r: Form)
    ensures Get(r, n) == value
    ensures forall m :: m != n ==> Get(r, m) == Get(f, m)
  {
    match n
    case Email => f.(email := value)
    case Password => f.(password := value)
    case FirstName => f.(firstName := value)
    case LastName => f.(lastName := value)
    case Gender => f.(gender := value)
    case Phone => f.(phone := value)
    case Dob => f.(dob := value)
    case AddressLine1 => f.(addressLine1 := value)
    case AddressLine2 => f.(addressLine2 := value)
    case City => f.(city := value)
    case County => f.(county := value)
    case PostalCode => f.(postalCode := value)
    case Country => f.(country := value)
  }

  /** Edits to two different fields can be made in either order. */
  lemma ChangesCommute(f: Form, n: FieldName, v: string, m: FieldName, w: string)
    requires n != m
    ensures HandleChange(HandleChange(f, n, v), m, w) == HandleChange(HandleChange(f, m, w), n, v)
  {
    FormsEqualByFields(HandleChange(HandleChange(f, n, v), m, w), HandleChange(HandleChange(f, m, w), n, v));
  }

  /** A second edit to the same field overrides the first. */
  lemma LastChangeWins(f: Form, n: FieldName, v: string, w: string)
    ensures HandleChange(HandleChange(f, n, v), n, w) == HandleChange(f, n, w)
  {
    FormsEqualByFields(HandleChange(HandleChange(f, n, v), n, w), HandleChange(f, n, w));
  }

  /** Writing back the value a field already has leaves the form as it is. */
  lemma ChangeToSameValue(f: Form, n: FieldName)
    ensures HandleChange(f, n, Get(f, n)) == f
  {
    FormsEqualByFields(HandleChange(f, n, Get(f, n)), f);
  }

  // -------------------------------------------------------------- submit

  /** The page's state: the form and whether a submission is in flight. */
  datatype Page = Page(form: Form, loading: bool)

  /** The page as it opens. */
  function Open(): (p: Page)
    ensures p.form == InitialForm() && !p.loading
  {
    Page(InitialForm(), false)
  }

  /** How the registration request (`registerPatientApi`) settled; a
      rejection carries the error's `message`, which may be missing. */
  datatype Response = Registered | Rejected(message: Option<string>)

  datatype Toast = SuccessToast(text: string) | ErrorToast(text: string)

  const CreatedMessage: string := "Account created successfully. Please log in."
  const FallbackError: string := "Registration failed"
  const LoginRoute: string := "/login"

  /** One submission: the payload sent, the page while the request is in
      flight, the page once it has settled, the toast shown, and where the
      router was sent, if anywhere. */
  datatype Submission = Submission(
    sent: Form, pending: Page, settled: Page, toast: Toast, navigation: Option<string>)

  /** The fields whose control carries `required`: all but the gender
      select and the second address line. */
  predicate Required(n: FieldName) {
    n != Gender && n != AddressLine2
  }

  /** The browser's constraint check passes on the form: every required
      control is filled in. */
  predicate Complete(f: Form) {
    forall n :: Required(n) ==> Get(f, n) != ""
  }

  /** `handleSubmit` with the request's outcome given. It runs only when the
      browser lets the form be submitted: the submit button is enabled (it
      is disabled while a submission is in flight) and every required
      control is filled in; otherwise nothing is sent. Then
      `loading` is raised before the request and lowered once it settles,
      whatever the outcome; success shows the confirmation and sends the
      router to the login page; failure shows the error's message, or a
      fixed text when it has none, and stays on the page. The form is kept
      in both cases. */
  function Submit(p: Page, response: Response): (r: Option<Submission>)
    ensures r.Some? <==> !p.loading && Complete(p.form)
    ensures r.Some? ==> r.value.sent == p.form
    ensures r.Some? ==> r.value.pending.loading && r.value.pending.form == p.form
    ensures r.Some? ==> !r.value.settled.loading && r.value.settled.form == p.form
    ensures r.Some? ==> (r.value.navigation == Some(LoginRoute) <==> response.Registered?)
    ensures r.Some? ==> (r.value.navigation == None <==> response.Rejected?)
    ensures r.Some? && response.Registered? ==> r.value.toast == SuccessToast(CreatedMessage)
    ensures r.Some? && response.Rejected? ==> r.value.toast.ErrorToast? && r.value.toast.text != ""
    ensures r.Some? && response.Rejected? && Present(response.message) ==>
              r.value.toast.text == response.message.value
    ensures r.Some? && response.Rejected? && !Present(response.message) ==>
              r.value.toast.text == FallbackError
  {
    if p.loading || !Complete(p.form) then None
    else
      var pending := p.(loading := true);
      var settled := pending.(loading := false);
      match response
      case Registered =>
        Some(Submission(pending.form, pending, settled, SuccessToast(CreatedMessage), Some(LoginRoute)))
      case Rejected(message) =>
        Some(Submission(pending.form, pending, settled, ErrorToast(OrElse(message, FallbackError)), None))
  }

  /** Once a submission has settled the button is enabled again: the
      settled page accepts the next submission, whatever either outcome. */
  lemma SubmitReenables(p: Page, first: Response, second: Response)
    requires !p.loading
    ensures Submit(p, first).Some? <==> Complete(p.form)
    ensures Submit(p, first).Some? ==>
              Submit(p, first).value.settled == p && Submit(Submit(p, first).value.settled, second).Some?
  {
  }

  /** The form as the page opens is not sent: its required fields, such as
      the email, are still empty. */
  lemma OpeningFormNotSent(response: Response)
    ensures !Complete(Open().form)
    ensures Submit(Open(), response) == None
  {
    assert Get(Open().form, Email) == "";
  }
}
