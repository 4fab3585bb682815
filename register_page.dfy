/**
 * The student sign-up form: the client-side password checks that run before anything is
 * sent, and the payload the form posts to POST /api/auth/register (`Auth.SignUp`).
 */
module RegisterPage {
  import opened Wrappers
  import opened Schema
  import Auth

  /**
   * The form state. Every input holds text, except the year, which starts as the number 1
   * and becomes the selected option's text once the select is changed.
   */
  datatype Form = Form(
    name: string, email: string, password: string, confirmPassword: string, department: string,
    year: JsValue, section: string, registerNo: string, phoneNo: string)

  const MinPasswordLength: nat := 6

  /** The form as the page first renders it: department CSE, year 1, section A, the rest empty. */
  const InitialForm := Form("", "", "", "", "CSE", Num(1), "A", "", "")

  predicate IsDigit(c: char) {
    '0' <= c <= '9'
  }

  /** The length of the run of decimal digits `s` starts with. */
  function LeadingDigits(s: string): (n: nat)
    ensures n <= |s|
    ensures forall i :: 0 <= i < n ==> IsDigit(s[i])
    ensures n < |s| ==> !IsDigit(s[n])
  {
    if |s| == 0 || !IsDigit(s[0]) then 0 else 1 + LeadingDigits(s[1..])
  }

  /** The number a string of decimal digits denotes. */
  function DigitsValue(s: string): nat
    requires forall i :: 0 <= i < |s| ==> IsDigit(s[i])
  {
    if |s| == 0 then 0
    else
      assert IsDigit(s[|s| - 1]);
      10 * DigitsValue(s[..|s| - 1]) + (s[|s| - 1] as int - '0' as int)
  }

  /**
   * `parseInt`: a number is kept; a text yields the number its leading digits denote, and
   * NaN (sent as JSON `null`) when it starts with no digit; any other value yields NaN.
   */
  function ParseInt(v: JsValue): (r: Option<int>)
    ensures v.Num? ==> r == Some(v.n)
    ensures v.Str? ==> (r.None? <==> |v.s| == 0 || !IsDigit(v.s[0]))
    ensures r.Some? && v.Str? ==> r.value >= 0
    ensures r.Some? && v.Str? ==> r.value == DigitsValue(v.s[..LeadingDigits(v.s)])
    ensures !v.Num? && !v.Str? ==> r.None?
  {
    match v
    case Num(n) => Some(n)
    case Str(s) =>
      var k := LeadingDigits(s);
      if k == 0 then None else Some(DigitsValue(s[..k]))
    case _ => None
  }

  /** Each year option's text parses to the year it shows. */
  lemma ParseYearOption(y: int)
    requires 1 <= y <= 4
    ensures ParseInt(Str([('0' as int + y) as char])) == Some(y)
  {
    var s := [('0' as int + y) as char];
    assert LeadingDigits(s) == 1;
    assert s[..1] == s && s[..|s| - 1] == [];
    assert DigitsValue(s) == s[0] as int - '0' as int;
  }

  /** What pressing "Create Account" does: nothing is sent when a check fails. */
  datatype Submit = Rejected(message: string) | Send(payload: Auth.SignUp)

  /** The request body: the form's fields, the year parsed, and no confirmation field. */
  function Payload(f: Form): (p: Auth.SignUp)
    ensures p.name == Some(f.name) && p.email == Some(f.email) && p.password == Some(f.password)
    ensures p.department == Some(f.department) && p.section == Some(f.section)
    ensures p.registerNo == Some(f.registerNo) && p.phoneNo == Some(f.phoneNo)
    ensures p.year == ParseInt(f.year)
  {
    Auth.SignUp(Some(f.name), Some(f.email), Some(f.password), Some(f.department), ParseInt(f.year),
      Some(f.section), Some(f.registerNo), Some(f.phoneNo))
  }

  /**
   * `handleSubmit`: a password that differs from its confirmation is refused first; then one
   * shorter than six characters; otherwise the payload is sent.
   */
  function HandleSubmit(f: Form): (r: Submit)
    ensures f.password != f.confirmPassword ==> r == Rejected("Passwords do not match")
    ensures f.password == f.confirmPassword && |f.password| < MinPasswordLength ==>
      r == Rejected("Password must be at least 6 characters")
    ensures r.Send? <==> f.password == f.confirmPassword && |f.password| >= MinPasswordLength
    ensures r.Send? ==> r.payload == Payload(f)
  {
    if f.password != f.confirmPassword then Rejected("Passwords do not match")
    else if |f.password| < MinPasswordLength then Rejected("Password must be at least 6 characters")
    else Send(Payload(f))
  }

  /**
   * A form filled in from the defaults with a name, an email, a register number and a
   * confirmed password of six or more characters sends a payload the server's field check
   * accepts.
   */
  lemma DefaultsPassServerCheck(name: string, email: string, password: string, registerNo: string, phoneNo: string)
    requires name != "" && email != "" && registerNo != ""
    requires |password| >= MinPasswordLength
    ensures var r := HandleSubmit(InitialForm.(name := name, email := email, password := password,
                                               confirmPassword := password, registerNo := registerNo, phoneNo := phoneNo));
      r.Send? && Auth.Complete(r.payload)
  {
  }
}
