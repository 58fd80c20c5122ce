/**
 * The input checks of registration and login (backend/controllers/authController.js). Password
 * hashing, token signing and the insert itself are not modelled; registration ends with the
 * record that would be stored.
 */
module Auth {
  import opened Wrappers
  import opened Text
  import opened Store
  import opened Http

  /** The registration form; None is an absent field. */
  datatype RegisterForm = RegisterForm(
    name: Option<string>,
    email: Option<string>,
    phone: Option<string>,
    password: Option<string>,
    role: Option<string>)

  /** What registration goes on to store: the phone trimmed, or none. */
  datatype Registration = Registration(name: string, email: string, phone: Option<string>, password: string, role: string)

  /** JavaScript truthiness of a text field: absent and "" are both false. */
  predicate Given(s: Option<string>) {
    s.Some? && |s.value| > 0
  }

  const PhonePrefix: string := "+375"
  const DefaultRole: string := "client"
  const MinPasswordLength: nat := 8

  /** `/^\+375[0-9]{9}$/`: the Belarusian prefix followed by exactly nine digits. */
  predicate IsPhone(s: string) {
    |s| == 13 && s[..4] == PhonePrefix && AllDigits(s[4..])
  }

  /** The phone numbers accepted are exactly the prefix followed by any nine digits. */
  lemma PhoneShape(s: string)
    ensures IsPhone(s) <==> exists d :: |d| == 9 && AllDigits(d) && s == PhonePrefix + d
  {
    if IsPhone(s) {
      assert s == PhonePrefix + s[4..];
    }
  }

  /**
   * The phone step: an absent or empty phone is stored as none; otherwise it is trimmed, a
   * trimmed-empty phone is none, and anything else must be a valid phone.
   */
  function PhoneCheck(phone: Option<string>): (r: Result<Option<string>, Why>)
    ensures !Given(phone) ==> r == Success(None)
    ensures Given(phone) && |Trim(phone.value)| == 0 ==> r == Success(None)
    ensures r.Success? && r.value.Some? ==> Given(phone) && r.value.value == Trim(phone.value) && IsPhone(r.value.value)
    ensures r.Failure? <==> Given(phone) && |Trim(phone.value)| > 0 && !IsPhone(Trim(phone.value))
    ensures r.Failure? ==> r.error == Invalid("phone")
  {
    if !Given(phone) then Success(None)
    else
      var t := Trim(phone.value);
      if |t| == 0 then Success(None)
      else if IsPhone(t) then Success(Some(t))
      else Failure(Invalid("phone"))
  }

  /** A well-formed number survives surrounding white space. */
  lemma PaddedPhoneAccepted(digits: string, before: string, after: string)
    requires |digits| == 9 && AllDigits(digits)
    requires forall i :: 0 <= i < |before| ==> IsSpace(before[i])
    requires forall i :: 0 <= i < |after| ==> IsSpace(after[i])
    ensures PhoneCheck(Some(before + PhonePrefix + digits + after)) == Success(Some(PhonePrefix + digits))
  {
    var core := PhonePrefix + digits;
    assert core[0] == '+' && core[|core| - 1] == digits[8];
    assert core[..4] == PhonePrefix && core[4..] == digits;
    assert IsPhone(core);
    assert before + PhonePrefix + digits + after == before + core + after;
    TrimAround(before, core, after);
  }

  lemma {:induction false} TrimAround(before: string, core: string, after: string)
    requires |core| > 0 && !IsSpace(core[0]) && !IsSpace(core[|core| - 1])
    requires forall i :: 0 <= i < |before| ==> IsSpace(before[i])
    requires forall i :: 0 <= i < |after| ==> IsSpace(after[i])
    ensures Trim(before + core + after) == core
  {
    TrimStartSkips(before, core + after);
    assert before + core + after == before + (core + after);
    TrimEndSkips(core, after);
  }

  lemma {:induction false} TrimEndSkips(core: string, after: string)
    requires |core| > 0 && !IsSpace(core[|core| - 1])
    requires forall i :: 0 <= i < |after| ==> IsSpace(after[i])
    ensures TrimEnd(core + after) == core
    decreases |after|
  {
    if |after| > 0 {
      var s := core + after;
      assert s[..|s| - 1] == core + after[..|after| - 1];
      TrimEndSkips(core, after[..|after| - 1]);
    } else {
      assert core + after == core;
    }
  }

  /** `checkEmailExists`: some user already has the email. */
  predicate EmailKnown(db: Db, email: string) {
    exists id :: id in db.users && db.users[id].email == email
  }

  /**
   * `register` up to the insert, in order: 400 unless name, email and password are given; 400
   * for a malformed phone; 400 for a password shorter than eight characters; 400 for a known
   * email; otherwise the record to store, with the role "client" when none was sent.
   */
  function Register(db: Db, form: RegisterForm): (r: Result<Registration, Why>)
    ensures !(Given(form.name) && Given(form.email) && Given(form.password)) ==> r == Failure(Missing("name, email, password"))
    ensures Given(form.name) && Given(form.email) && Given(form.password) && PhoneCheck(form.phone).Failure? ==>
      r == Failure(Invalid("phone"))
    ensures (Given(form.name) && Given(form.email) && Given(form.password) && PhoneCheck(form.phone).Success?
      && |form.password.value| < MinPasswordLength) ==> r == Failure(Invalid("password"))
    ensures r.Failure? && r.error == EmailTaken ==> EmailKnown(db, form.email.value)
    ensures r.Success? <==>
      && Given(form.name) && Given(form.email) && Given(form.password)
      && PhoneCheck(form.phone).Success? && |form.password.value| >= MinPasswordLength
      && !EmailKnown(db, form.email.value)
    ensures r.Success? ==>
      && r.value.name == form.name.value && r.value.email == form.email.value && r.value.password == form.password.value
      && r.value.phone == PhoneCheck(form.phone).value
      && r.value.role == form.role.GetOr(DefaultRole)
  {
    if !(Given(form.name) && Given(form.email) && Given(form.password)) then Failure(Missing("name, email, password"))
    else match PhoneCheck(form.phone)
      case Failure(w) => Failure(w)
      case Success(phone) =>
        if |form.password.value| < MinPasswordLength then Failure(Invalid("password"))
        else if exists id :: id in db.users && db.users[id].email == form.email.value then Failure(EmailTaken)
        else Success(Registration(form.name.value, form.email.value, phone, form.password.value, form.role.GetOr(DefaultRole)))
  }

  /** Every phone registration stores is empty or a valid number with no surrounding white space. */
  lemma StoredPhoneIsValid(db: Db, form: RegisterForm)
    requires Register(db, form).Success?
    ensures var p := Register(db, form).value.phone;
      p.Some? ==> IsPhone(p.value) && Trim(p.value) == p.value
  {
    var p := Register(db, form).value.phone;
    if p.Some? {
      TrimOfTrimmed(p.value);
    }
  }

  /** `login`'s first check: both email and password must be given. */
  function LoginCheck(email: Option<string>, password: Option<string>): (w: Option<Why>)
    ensures w.None? <==> Given(email) && Given(password)
    ensures w.Some? ==> w.value == Missing("email, password") && Status(w.value) == 400
  {
    if Given(email) && Given(password) then None else Some(Missing("email, password"))
  }
}
