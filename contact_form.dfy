/** The contact form of main.js (initContactForm): the four fields are
    trimmed, the three required ones must be non-empty, the e-mail address
    must have the shape /^[^\s@]+@[^\s@]+\.[^\s@]+$/, and only then is the
    (simulated) submission made. */
module ContactForm {

  /** The characters that JavaScript's `String.prototype.trim` removes and
      that the regular-expression class `\s` matches: the ECMAScript
      WhiteSpace and LineTerminator characters. */
  predicate IsSpace(c: char) {
    || c == '\t' || c == '\n' || c == '\U{000B}' || c == '\U{000C}' || c == '\r'
    || c == ' ' || c == '\U{00A0}' || c == '\U{1680}'
    || ('\U{2000}' <= c <= '\U{200A}')
    || c == '\U{2028}' || c == '\U{2029}' || c == '\U{202F}' || c == '\U{205F}'
    || c == '\U{3000}' || c == '\U{FEFF}'
  }

  predicate Blank(s: string) {
    forall k :: 0 <= k < |s| ==> IsSpace(s[k])
  }

  /** Where the text starts once the whitespace from position i on is
      skipped: the first non-space at or after i, or |s|. */
  function SkipSpaces(s: string, i: nat): (j: nat)
    requires i <= |s|
    ensures i <= j <= |s|
    ensures forall k :: i <= k < j ==> IsSpace(s[k])
    ensures j < |s| ==> !IsSpace(s[j])
    decreases |s| - i
  {
    if i < |s| && IsSpace(s[i]) then SkipSpaces(s, i + 1) else i
  }

  /** Where the text ends once the whitespace before position j, down to
      lo, is dropped: just after the last non-space in [lo, j), or lo. */
  function DropSpaces(s: string, lo: nat, j: nat): (e: nat)
    requires lo <= j <= |s|
    ensures lo <= e <= j
    ensures forall k :: e <= k < j ==> IsSpace(s[k])
    ensures e > lo ==> !IsSpace(s[e - 1])
    decreases j
  {
    if j > lo && IsSpace(s[j - 1]) then DropSpaces(s, lo, j - 1) else j
  }

  /** `String.prototype.trim`: the input without its leading and trailing
      whitespace; empty exactly when the input is blank. */
  function Trim(s: string): (r: string)
    ensures |r| <= |s|
    ensures r == [] <==> Blank(s)
    ensures r != [] ==> !IsSpace(r[0]) && !IsSpace(r[|r| - 1])
    // r is the slice left once a whitespace prefix and a whitespace suffix
    // are dropped
    ensures var i := SkipSpaces(s, 0);
      && i + |r| <= |s| && r == s[i..i + |r|]
      && (forall k :: 0 <= k < i ==> IsSpace(s[k]))
      && (forall k :: i + |r| <= k < |s| ==> IsSpace(s[k]))
  {
    var i := SkipSpaces(s, 0);
    var e := DropSpaces(s, i, |s|);
    assert i < |s| ==> e > i;
    s[i..e]
  }

  /** Trimming twice is trimming once. */
  lemma TrimIdempotent(s: string)
    ensures Trim(Trim(s)) == Trim(s)
  {
    var r := Trim(s);
    if r != [] {
      assert SkipSpaces(r, 0) == 0;
      assert DropSpaces(r, 0, |r|) == |r|;
    }
  }

  /** A character of the class `[^\s@]`. */
  predicate Plain(c: char) {
    !IsSpace(c) && c != '@'
  }

  predicate AllPlain(s: string) {
    forall k :: 0 <= k < |s| ==> Plain(s[k])
  }

  /** The language of /^[^\s@]+@[^\s@]+\.[^\s@]+$/. */
  ghost predicate EmailPattern(s: string)
    // at least five characters, contains '@', and begins and ends with a
    // `[^\s@]` character
    ensures EmailPattern(s) ==> |s| >= 5 && '@' in s && Plain(s[0]) && Plain(s[|s| - 1])
  {
    exists a: string, b: string, c: string ::
      && a != [] && b != [] && c != []
      && AllPlain(a) && AllPlain(b) && AllPlain(c)
      && s == a + "@" + b + "." + c
  }

  /** `String.prototype.indexOf` for one character: -1 when absent. */
  function IndexOf(s: string, c: char): (r: int)
    ensures -1 <= r < |s|
    ensures r == -1 ==> c !in s
    ensures 0 <= r ==> s[r] == c && c !in s[..r]
    decreases |s|
  {
    if s == [] then -1
    else if s[0] == c then 0
    else
      var r := IndexOf(s[1..], c);
      assert s[1..][..if r < 0 then 0 else r] == s[1..1 + if r < 0 then 0 else r];
      if r < 0 then -1 else r + 1
  }

  /** What follows the '@': only `[^\s@]` characters, with a '.' that is
      neither the first nor the last character. */
  predicate ValidDomain(d: string) {
    AllPlain(d) && exists k :: 1 <= k < |d| - 1 && d[k] == '.'
  }

  /** `validateEmail`. */
  function ValidateEmail(email: string): (ok: bool)
    ensures ok ==> '@' in email && !Blank(email)
  {
    var at := IndexOf(email, '@');
    0 < at && AllPlain(email[..at]) && ValidDomain(email[at + 1..])
  }

  /** ValidateEmail accepts exactly the strings the regular expression
      matches. */
  lemma ValidateEmailIsPattern(email: string)
    ensures ValidateEmail(email) <==> EmailPattern(email)
  {
    if ValidateEmail(email) {
      AcceptedMatches(email);
    }
    if EmailPattern(email) {
      var a: string, b: string, c: string :|
        && a != [] && b != [] && c != []
        && AllPlain(a) && AllPlain(b) && AllPlain(c)
        && email == a + "@" + b + "." + c;
      MatchedAccepted(email, a, b, c);
    }
  }

  lemma AcceptedMatches(email: string)
    requires ValidateEmail(email)
    ensures EmailPattern(email)
  {
    var at := IndexOf(email, '@');
    var d := email[at + 1..];
    var k :| 1 <= k < |d| - 1 && d[k] == '.';
    var a, b, c := email[..at], d[..k], d[k + 1..];
    assert AllPlain(b) by { forall j | 0 <= j < |b| ensures Plain(b[j]) { assert b[j] == d[j]; } }
    assert AllPlain(c) by { forall j | 0 <= j < |c| ensures Plain(c[j]) { assert c[j] == d[k + 1 + j]; } }
    assert d == b + "." + c;
    assert email == a + "@" + b + "." + c;
  }

  lemma MatchedAccepted(email: string, a: string, b: string, c: string)
    requires a != [] && b != [] && c != []
    requires AllPlain(a) && AllPlain(b) && AllPlain(c)
    requires email == a + "@" + b + "." + c
    ensures ValidateEmail(email)
  {
    var d := b + "." + c;
    assert email == a + "@" + d;
    assert email[|a|] == '@';
    assert email[..|a|] == a;
    assert email[|a| + 1..] == d;
    assert forall j :: 0 <= j < |a| ==> email[j] == a[j] && email[j] != '@';
    assert IndexOf(email, '@') == |a|;
    assert d[|b|] == '.';
    assert AllPlain(d) by {
      forall j | 0 <= j < |d| ensures Plain(d[j]) {
        if j < |b| { assert d[j] == b[j]; }
        else if j > |b| { assert d[j] == c[j - |b| - 1]; }
      }
    }
  }

  /** The values of the name, email, subject and message fields. */
  datatype Form = Form(name: string, email: string, subject: string, message: string)

  /** The form values the handler works with: every field trimmed. A
      field comes out empty exactly when it was blank, and trimming again
      changes nothing. */
  function Trimmed(f: Form): (r: Form)
    ensures r.name == [] <==> Blank(f.name)
    ensures r.email == [] <==> Blank(f.email)
    ensures r.subject == [] <==> Blank(f.subject)
    ensures r.message == [] <==> Blank(f.message)
    ensures Trim(r.name) == r.name && Trim(r.email) == r.email
    ensures Trim(r.subject) == r.subject && Trim(r.message) == r.message
  {
    TrimIdempotent(f.name);
    TrimIdempotent(f.email);
    TrimIdempotent(f.subject);
    TrimIdempotent(f.message);
    Form(Trim(f.name), Trim(f.email), Trim(f.subject), Trim(f.message))
  }

  /** How a submission ends: rejected by one of the two checks, or sent to
      the (simulated) backend with the trimmed values. */
  datatype Outcome = MissingRequired | InvalidEmail | Sent(data: Form)

  /** The submit handler up to the simulated call. */
  function Submit(raw: Form): (r: Outcome)
    // a blank required field is reported first, whatever the e-mail address is
    ensures r == MissingRequired <==> Blank(raw.name) || Blank(raw.email) || Blank(raw.message)
    ensures r == InvalidEmail <==>
              && !Blank(raw.name) && !Blank(raw.email) && !Blank(raw.message)
              && !EmailPattern(Trim(raw.email))
    // only trimmed, complete forms with a well-formed address are sent; the
    // subject may be empty
    ensures r.Sent? ==>
              && r.data == Trimmed(raw)
              && r.data.name != [] && r.data.email != [] && r.data.message != []
              && EmailPattern(r.data.email)
  {
    ValidateEmailIsPattern(Trim(raw.email));
    var formData := Trimmed(raw);
    if formData.name == [] || formData.email == [] || formData.message == [] then
      MissingRequired
    else if !ValidateEmail(formData.email) then
      InvalidEmail
    else
      Sent(formData)
  }

  /** The subject never decides whether a form is sent. */
  lemma SubjectIsOptional(raw: Form, subject: string)
    ensures Submit(raw.(subject := subject)).Sent? <==> Submit(raw).Sent?
  {
  }

  datatype Kind = Success | Error

  /** A toast notification: its text and its kind. */
  datatype Toast = Toast(message: string, kind: Kind)

  /** The toast shown for an outcome; the simulated call always succeeds. */
  function Notify(r: Outcome): (t: Toast)
    ensures t.kind == Success <==> r.Sent?
    ensures r.Sent? ==> t.message == "Thank you, " + r.data.name + "! Your message has been sent successfully. I'll get back to you soon."
  {
    match r
    case MissingRequired => Toast("Please fill in all required fields.", Error)
    case InvalidEmail => Toast("Please enter a valid email address.", Error)
    case Sent(data) => Toast("Thank you, " + data.name + "! Your message has been sent successfully. I'll get back to you soon.", Success)
  }
}
