/** The add/update form, its validation and the notices the dashboard emits. */
module Form {
  import opened Text

  /** The six string fields read from the add or update form. */
  datatype FormData = FormData(name: string, email: string, department: string,
                               year: string, jobTitle: string, company: string)

  datatype Severity = Success | Error | Info

  /** A message handed to the notifier; how it is drawn and dismissed is not modelled. */
  datatype Notice = Notice(message: string, severity: Severity)

  datatype Option<T> = None | Some(value: T)

  /** What a handler produces: a value, or the error notice it shows instead. */
  datatype Outcome<T> = Ok(value: T) | Fail(notice: Notice)

  datatype FormError = MissingFields(fields: seq<string>) | InvalidEmail

  datatype Verdict = Accepted | Rejected(error: FormError)

  /** The fields validateForm insists on, in the order it reports them. */
  const RequiredFields: seq<string> := ["name", "email", "department", "year"]

  /** data[field] for the field names of the form; any other name reads as empty. */
  function FieldValue(data: FormData, field: string): string {
    match field
    case "name" => data.name
    case "email" => data.email
    case "department" => data.department
    case "year" => data.year
    case "jobTitle" => data.jobTitle
    case "company" => data.company
    case _ => ""
  }

  /** `!data[field] || data[field].trim() === ''`: the value is empty or only white space. */
  predicate IsMissing(value: string) {
    value == "" || Trim(value) == ""
  }

  /** `a` is `b` with some elements left out, the rest kept in order. */
  predicate IsSubsequence(a: seq<string>, b: seq<string>) {
    if a == [] then true
    else if b == [] then false
    else if a[0] == b[0] then IsSubsequence(a[1..], b[1..])
    else IsSubsequence(a, b[1..])
  }

  /** `fields.filter(field => missing)`: the missing fields, in the order of `fields`. */
  function MissingOf(fields: seq<string>, data: FormData): (r: seq<string>)
    ensures forall f :: f in r <==> f in fields && IsMissing(FieldValue(data, f))
    ensures IsSubsequence(r, fields)
  {
    if fields == [] then []
    else
      var rest := MissingOf(fields[1..], data);
      if IsMissing(FieldValue(data, fields[0])) then [fields[0]] + rest else rest
  }

  /** A run of characters the class [^\s@] accepts, at least one long. */
  predicate EmailPart(s: string) {
    |s| > 0 && forall i :: 0 <= i < |s| ==> !IsSpace(s[i]) && s[i] != '@'
  }

  /** The language of /^[^\s@]+@[^\s@]+\.[^\s@]+$/: a non-empty local part, '@', a
      non-empty host, '.', a non-empty last label, none of them holding '@' or white space. */
  ghost predicate MatchesEmailPattern(s: string) {
    exists i, j :: 0 <= i < j < |s| && s[i] == '@' && s[j] == '.'
      && EmailPart(s[..i]) && EmailPart(s[i + 1..j]) && EmailPart(s[j + 1..])
  }

  /** The index of the first `c` in `s`, or -1; `IsEmailShape`, the executable side of
      `MatchesEmailPattern`, finds the '@' with it. */
  function IndexOf(s: string, c: char): (r: int)
    ensures -1 <= r < |s|
    ensures r >= 0 ==> s[r] == c && c !in s[..r]
    ensures r == -1 ==> c !in s
  {
    if s == [] then -1
    else if s[0] == c then 0
    else
      var k := IndexOf(s[1..], c);
      assert k >= 0 ==> s[1..][..k] == s[1..k + 1];
      if k < 0 then -1 else k + 1
  }

  /** An executable test of the e-mail shape: split at the first '@', then look for a dot
      with at least one character on each side in what follows. */
  predicate IsEmailShape(s: string) {
    var at := IndexOf(s, '@');
    at > 0 &&
    var host := s[at + 1..];
    EmailPart(s[..at]) && |host| >= 3 && EmailPart(host) && '.' in host[1..|host| - 1]
  }

  /** Every string the executable test accepts matches the regular expression. */
  lemma ShapeMatchesPattern(s: string)
    requires IsEmailShape(s)
    ensures MatchesEmailPattern(s)
  {
    var at := IndexOf(s, '@');
    var host := s[at + 1..];
    var k :| 0 <= k < |host| - 2 && host[1..|host| - 1][k] == '.';
    var j := at + 2 + k;
    assert s[at + 1..j] == host[..k + 1];
    assert s[j + 1..] == host[k + 2..];
    assert s[j] == '.';
    assert EmailPart(s[at + 1..j]);
    assert EmailPart(s[j + 1..]);
  }

  /** The first occurrence of `c` is the one with no `c` before it. */
  lemma IndexOfFirst(s: string, c: char, i: nat)
    requires i < |s| && s[i] == c && c !in s[..i]
    ensures IndexOf(s, c) == i
  {
  }

  /** Two runs of [^\s@] joined by a dot form one longer run. */
  lemma EmailPartJoin(a: string, b: string)
    requires EmailPart(a) && EmailPart(b)
    ensures EmailPart(a + "." + b)
  {
    var h := a + "." + b;
    forall k | 0 <= k < |h| ensures !IsSpace(h[k]) && h[k] != '@' {
      if k < |a| { assert h[k] == a[k]; }
      else if k > |a| { assert h[k] == b[k - |a| - 1]; }
    }
  }

  /** A match of the regular expression, with '@' at `i` and the chosen dot at `j`,
      passes the executable test. */
  lemma MatchPassesShape(s: string, i: nat, j: nat)
    requires i < j < |s| && s[i] == '@' && s[j] == '.'
    requires EmailPart(s[..i]) && EmailPart(s[i + 1..j]) && EmailPart(s[j + 1..])
    ensures IsEmailShape(s)
  {
    assert '@' !in s[..i];
    IndexOfFirst(s, '@', i);
    var host := s[i + 1..];
    assert host == s[i + 1..j] + "." + s[j + 1..];
    EmailPartJoin(s[i + 1..j], s[j + 1..]);
    assert host[1..|host| - 1][j - i - 2] == '.';
  }

  /** Every string the regular expression matches passes the executable test. */
  lemma PatternMatchesShape(s: string)
    requires MatchesEmailPattern(s)
    ensures IsEmailShape(s)
  {
    var i, j :| 0 <= i < j < |s| && s[i] == '@' && s[j] == '.'
      && EmailPart(s[..i]) && EmailPart(s[i + 1..j]) && EmailPart(s[j + 1..]);
    MatchPassesShape(s, i, j);
  }

  /** The executable test accepts exactly the strings the regular expression matches. */
  lemma EmailShapeIsPattern(s: string)
    ensures IsEmailShape(s) <==> MatchesEmailPattern(s)
  {
    if IsEmailShape(s) { ShapeMatchesPattern(s); }
    if MatchesEmailPattern(s) { PatternMatchesShape(s); }
  }

  /** validateForm: missing required fields are reported first (and alone); only a form
      with every required field present has its e-mail checked. */
  function ValidateForm(data: FormData): (v: Verdict)
    ensures v.Accepted? <==>
      (forall f :: f in RequiredFields ==> !IsMissing(FieldValue(data, f)))
      && MatchesEmailPattern(data.email)
    ensures v.Rejected? && v.error.MissingFields? ==>
      v.error.fields != [] && IsSubsequence(v.error.fields, RequiredFields)
      && forall f :: f in v.error.fields <==> f in RequiredFields && IsMissing(FieldValue(data, f))
    ensures v == Rejected(InvalidEmail) <==>
      (forall f :: f in RequiredFields ==> !IsMissing(FieldValue(data, f)))
      && !MatchesEmailPattern(data.email)
  {
    EmailShapeIsPattern(data.email);
    var missing := MissingOf(RequiredFields, data);
    if |missing| > 0 then
      assert missing[0] in missing;
      Rejected(MissingFields(missing))
    else if !IsEmailShape(data.email) then Rejected(InvalidEmail)
    else Accepted
  }

  /** The error notice validateForm shows for a rejected form. */
  function ValidationNotice(e: FormError): (n: Notice)
    ensures n.severity == Error
  {
    match e
    case MissingFields(fields) =>
      Notice("Please fill in all required fields: " + Join(fields, ", "), Error)
    case InvalidEmail => Notice("Please enter a valid email address", Error)
  }

  /** Both missing e-mail fields and malformed ones are reported before anything else:
      a blank e-mail is reported as missing, never as malformed. */
  lemma BlankEmailIsMissing(data: FormData)
    requires IsMissing(data.email)
    ensures ValidateForm(data).Rejected?
    ensures ValidateForm(data).error.MissingFields?
    ensures "email" in ValidateForm(data).error.fields
  {
    assert "email" in RequiredFields;
  }
}
