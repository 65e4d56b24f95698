/** User records and the syntactic email check used by registration and login. */
module Accounts {
  import opened Text

  /** A registered user: the password is compared verbatim, the profile is stored and never read. */
  datatype User = User(password: string, profile: map<string, string>)

  /** The built-in account that alone may add trains. */
  const AdminEmail: string := "admin@gmail.com"
  const AdminPassword: string := "12345"

  predicate NoAt(s: string) {
    forall k :: 0 <= k < |s| ==> s[k] != '@'
  }

  /** The regular expression `[^@]+@[^@]+\.[^@]+` matched at the start of `email` only
      (any suffix may follow the match): some non-empty run without '@', an '@', a non-empty
      run without '@', a '.', and at least one more character that is not '@'. */
  ghost predicate MatchesEmailPattern(email: string) {
    exists i, j :: PatternSplit(email, i, j)
  }

  /** The match above with its '@' at `i` and its '.' at `j`. */
  predicate PatternSplit(email: string, i: int, j: int) {
    0 < i && i + 1 < j && j + 1 < |email| &&
    email[i] == '@' && email[j] == '.' && email[j + 1] != '@' &&
    NoAt(email[..i]) && NoAt(email[i + 1..j])
  }

  /** There is a '.' at some position strictly inside (lo, hi - 1). */
  predicate HasInnerDot(s: string, lo: nat, hi: nat)
    requires lo <= hi <= |s|
  {
    exists j :: lo < j < hi - 1 && s[j] == '.'
  }

  /** The email check as a scan: the first '@' is not at the start, and between it and the
      next '@' (or the end) there is a '.' with at least one character on each side. */
  predicate IsValidEmail(email: string)
    ensures IsValidEmail(email) ==> 5 <= |email| && email[0] != '@'
  {
    var at := FirstIndex(email, '@', 0);
    0 < at < |email| && HasInnerDot(email, at + 1, FirstIndex(email, '@', at + 1))
  }

  /** Every string the scan accepts matches the regular expression. */
  lemma EmailCheckSound(email: string)
    requires IsValidEmail(email)
    ensures MatchesEmailPattern(email)
  {
    var at := FirstIndex(email, '@', 0);
    var hi := FirstIndex(email, '@', at + 1);
    var j :| at + 1 < j < hi - 1 && email[j] == '.';
    assert NoAt(email[..at]);
    assert NoAt(email[at + 1..j]);
    assert PatternSplit(email, at, j);
  }

  /** Every string the regular expression matches is accepted by the scan. */
  lemma EmailCheckComplete(email: string, i: nat, j: nat)
    requires 0 < i && i + 1 < j && j + 1 < |email|
    requires email[i] == '@' && email[j] == '.' && email[j + 1] != '@'
    requires NoAt(email[..i]) && NoAt(email[i + 1..j])
    ensures IsValidEmail(email)
  {
    var at := FirstIndex(email, '@', 0);
    assert at == i;
    var hi := FirstIndex(email, '@', at + 1);
    assert at + 1 < j < hi - 1;
  }

  /** The scan accepts exactly the strings the regular expression matches at their start. */
  lemma EmailCheckMatchesPattern(email: string)
    ensures IsValidEmail(email) <==> MatchesEmailPattern(email)
  {
    if IsValidEmail(email) {
      EmailCheckSound(email);
    }
    if MatchesEmailPattern(email) {
      var i, j :| PatternSplit(email, i, j);
      EmailCheckComplete(email, i, j);
    }
  }
}
