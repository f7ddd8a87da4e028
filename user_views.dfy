/**
 * rchat/views/user/views.py: the search string of `/user/find` before it
 * is looked up: surrounding whitespace removed, then, when it starts with
 * '@', the whole leading run of '@' removed.
 */
module UserViews {

  /** The characters Python's `str.strip()` removes: those `str.isspace()` accepts. */
  predicate IsSpace(c: char)
  {
    || ('\U{0009}' <= c <= '\U{000D}')
    || ('\U{001C}' <= c <= '\U{001F}')
    || c == '\U{0020}' || c == '\U{0085}' || c == '\U{00A0}' || c == '\U{1680}'
    || ('\U{2000}' <= c <= '\U{200A}')
    || c == '\U{2028}' || c == '\U{2029}' || c == '\U{202F}' || c == '\U{205F}' || c == '\U{3000}'
  }

  /** `s` without its leading whitespace. */
  function StripLeading(s: string): (r: string)
    ensures |r| <= |s| && r == s[|s| - |r|..]
    ensures r == [] || !IsSpace(r[0])
    ensures forall i :: 0 <= i < |s| - |r| ==> IsSpace(s[i])
  {
    if s != [] && IsSpace(s[0]) then StripLeading(s[1..]) else s
  }

  /** `s` without its trailing whitespace. */
  function StripTrailing(s: string): (r: string)
    ensures |r| <= |s| && r == s[..|r|]
    ensures r == [] || !IsSpace(r[|r| - 1])
    ensures forall i :: |r| <= i < |s| ==> IsSpace(s[i])
  {
    if s != [] && IsSpace(s[|s| - 1]) then StripTrailing(s[..|s| - 1]) else s
  }

  /**
   * `r` is `s` with its first `k` characters and everything after `k + |r|`
   * cut off, and only whitespace was cut.
   */
  predicate TrimmedAt(s: string, r: string, k: nat)
  {
    && k + |r| <= |s| && r == s[k..k + |r|]
    && (forall i :: 0 <= i < k ==> IsSpace(s[i]))
    && (forall i :: k + |r| <= i < |s| ==> IsSpace(s[i]))
  }

  /** `str.strip()`: whitespace removed at both ends. */
  function Strip(s: string): (r: string)
    ensures r == [] || (!IsSpace(r[0]) && !IsSpace(r[|r| - 1]))
    ensures exists k :: TrimmedAt(s, r, k)
  {
    var lead := StripLeading(s);
    var r := StripTrailing(lead);
    StripTrimmed(s, lead, r);
    r
  }

  /** Cutting leading, then trailing whitespace trims `s` at `|s| - |lead|`. */
  lemma StripTrimmed(s: string, lead: string, r: string)
    requires |lead| <= |s| && lead == s[|s| - |lead|..]
    requires forall i :: 0 <= i < |s| - |lead| ==> IsSpace(s[i])
    requires lead == [] || !IsSpace(lead[0])
    requires |r| <= |lead| && r == lead[..|r|]
    requires forall i :: |r| <= i < |lead| ==> IsSpace(lead[i])
    requires r == [] || !IsSpace(r[|r| - 1])
    ensures r == [] || (!IsSpace(r[0]) && !IsSpace(r[|r| - 1]))
    ensures TrimmedAt(s, r, |s| - |lead|)
  {
    var k := |s| - |lead|;
    assert r != [] ==> r[0] == lead[0];
    forall i | k + |r| <= i < |s|
      ensures IsSpace(s[i])
    {
      assert s[i] == lead[i - k];
    }
    assert r == s[k..k + |r|];
  }

  /** `str.lstrip("@")`: the leading run of '@' removed. */
  function StripAts(s: string): (r: string)
    ensures |r| <= |s| && r == s[|s| - |r|..]
    ensures r == [] || r[0] != '@'
    ensures forall i :: 0 <= i < |s| - |r| ==> s[i] == '@'
  {
    if s != [] && s[0] == '@' then StripAts(s[1..]) else s
  }

  /** The normalised search string of `get_match_users`. */
  function NormaliseMatch(matchStr: string): (r: string)
    ensures r == [] || r[0] != '@'
    ensures |r| <= |Strip(matchStr)| && r == Strip(matchStr)[|Strip(matchStr)| - |r|..]
    ensures forall i :: 0 <= i < |Strip(matchStr)| - |r| ==> Strip(matchStr)[i] == '@'
  {
    DropAts(Strip(matchStr))
  }

  /** The `@` step of `get_match_users`: the leading run of '@' cut when there is one. */
  function DropAts(stripped: string): (r: string)
    ensures r == [] || r[0] != '@'
    ensures |r| <= |stripped| && r == stripped[|stripped| - |r|..]
    ensures forall i :: 0 <= i < |stripped| - |r| ==> stripped[i] == '@'
  {
    if |stripped| > 0 && stripped[0] == '@' then StripAts(stripped) else stripped
  }

  /** The normalised string never ends in whitespace. */
  lemma NormaliseNoTrailingSpace(matchStr: string)
    ensures var r := NormaliseMatch(matchStr); r == [] || !IsSpace(r[|r| - 1])
  {
    var stripped := Strip(matchStr);
    var r := NormaliseMatch(matchStr);
    if r != [] {
      SuffixLast(stripped, r);
    }
  }

  /** A non-empty suffix ends where the whole string does. */
  lemma SuffixLast(s: string, r: string)
    requires r != [] && |r| <= |s| && r == s[|s| - |r|..]
    ensures r[|r| - 1] == s[|s| - 1]
  {
  }

  /** A string with no surrounding whitespace and no leading '@' is searched for as it is. */
  lemma {:induction false} NormaliseKeepsCleanInput(matchStr: string)
    requires matchStr == [] || (!IsSpace(matchStr[0]) && !IsSpace(matchStr[|matchStr| - 1]) && matchStr[0] != '@')
    ensures NormaliseMatch(matchStr) == matchStr
  {
    assert StripLeading(matchStr) == matchStr;
    assert StripTrailing(matchStr) == matchStr;
  }
}
