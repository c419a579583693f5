/** The contact-email check that gates both forms (app.py, `is_valid_email`):
    a match of the whole string against `^[^@]+@[^@]+\.[^@]+$`.

    Python's `$` also matches just before a final newline, but that does not
    change which strings are accepted: the last `[^@]+` can always absorb a
    trailing newline itself. */
module Email {

  predicate NoAt(s: string) {
    '@' !in s
  }

  /** The language of the pattern, read off the regular expression: a
      non-empty local part, `@`, a non-empty domain head, `.`, a non-empty
      domain tail, none of the three containing `@`. */
  ghost predicate MatchesPattern(s: string) {
    exists i, j :: 0 < i && i + 1 < j && j + 1 < |s| && s[i] == '@' && s[j] == '.'
                   && NoAt(s[..i]) && NoAt(s[i + 1..j]) && NoAt(s[j + 1..])
  }

  /** Position of the first `@` of a string that has one. */
  function FirstAt(s: string): (k: nat)
    requires '@' in s
    ensures k < |s| && s[k] == '@' && NoAt(s[..k])
  {
    if s[0] == '@' then 0
    else
      assert '@' in s[1..] by { var m :| 0 <= m < |s| && s[m] == '@'; assert s[1..][m - 1] == '@'; }
      var k := FirstAt(s[1..]);
      assert s[..k + 1] == [s[0]] + s[1..][..k];
      k + 1
  }

  /** `is_valid_email(s)`: exactly one `@`, something before it, and after it
      a `.` with at least one character on each side. */
  function IsValidEmail(s: string): (r: bool)
    ensures r <==> MatchesPattern(s)
  {
    if '@' !in s then
      NoMatchWithoutAt(s);
      false
    else
      var k := FirstAt(s);
      var ok := 0 < k && NoAt(s[k + 1..]) && k + 3 < |s| + 1 && '.' in s[k + 2..|s| - 1];
      AtSplit(s, k, ok);
      ok
  }

  lemma NoMatchWithoutAt(s: string)
    requires '@' !in s
    ensures !MatchesPattern(s)
  {
  }

  /** The pattern, split at the first `@`. */
  lemma AtSplit(s: string, k: nat, ok: bool)
    requires k < |s| && s[k] == '@' && NoAt(s[..k])
    requires ok == (0 < k && NoAt(s[k + 1..]) && k + 3 < |s| + 1 && '.' in s[k + 2..|s| - 1])
    ensures ok <==> MatchesPattern(s)
  {
    if ok {
      AtSplitSound(s, k);
    }
    if MatchesPattern(s) {
      var i, j :| 0 < i && i + 1 < j && j + 1 < |s| && s[i] == '@' && s[j] == '.'
                  && NoAt(s[..i]) && NoAt(s[i + 1..j]) && NoAt(s[j + 1..]);
      AtSplitComplete(s, k, i, j);
    }
  }

  lemma AtSplitSound(s: string, k: nat)
    requires k < |s| && s[k] == '@' && NoAt(s[..k])
    requires 0 < k && NoAt(s[k + 1..]) && k + 3 < |s| + 1 && '.' in s[k + 2..|s| - 1]
    ensures MatchesPattern(s)
  {
    var p :| 0 <= p < |s| - 1 - (k + 2) && s[k + 2..|s| - 1][p] == '.';
    var j := p + k + 2;
    assert s[j] == '.';
    assert s[k + 1..j] == s[k + 1..][..j - k - 1];
    assert s[j + 1..] == s[k + 1..][j - k..];
    assert NoAt(s[k + 1..j]) && NoAt(s[j + 1..]);
  }

  lemma AtSplitComplete(s: string, k: nat, i: int, j: int)
    requires k < |s| && s[k] == '@' && NoAt(s[..k])
    requires 0 < i && i + 1 < j && j + 1 < |s| && s[i] == '@' && s[j] == '.'
    requires NoAt(s[..i]) && NoAt(s[i + 1..j]) && NoAt(s[j + 1..])
    ensures 0 < k && NoAt(s[k + 1..]) && k + 3 < |s| + 1 && '.' in s[k + 2..|s| - 1]
  {
    assert i == k;
    assert s[k + 1..] == s[i + 1..j] + [s[j]] + s[j + 1..];
    assert s[k + 2..|s| - 1][j - k - 2] == '.';
  }

  /** Strings the pattern accepts and rejects. */
  lemma Examples()
    ensures IsValidEmail("a@b.com")
    ensures !IsValidEmail("a@b")
    ensures !IsValidEmail("abc")
    ensures !IsValidEmail("")
  {
    assert "a@b.com"[1] == '@' && "a@b.com"[3] == '.';
    assert "a@b.com"[..1] == "a" && "a@b.com"[2..3] == "b" && "a@b.com"[4..] == "com";
  }
}
