/** The input validators of the console shell (main.cpp): trimming of
    spaces, the user-id and name formats, and the role menu. Character
    classes are ASCII (the C library's "C" locale). */
module Validation {
  import opened Records

  /** `std::isalpha` in the "C" locale. */
  predicate IsAsciiAlpha(c: char)
  {
    'a' <= c <= 'z' || 'A' <= c <= 'Z'
  }

  /** `std::isalnum` in the "C" locale. */
  predicate IsAsciiAlnum(c: char)
  {
    IsAsciiAlpha(c) || '0' <= c <= '9'
  }

  /** Every index in [lo, hi) of `s` holds a space. */
  predicate SpacesIn(s: string, lo: int, hi: int)
    requires 0 <= lo <= hi <= |s|
  {
    forall i | lo <= i < hi :: s[i] == ' '
  }

  predicate AllSpaces(s: string)
  {
    SpacesIn(s, 0, |s|)
  }

  /** `find_first_not_of(' ')`: the first index holding something other than
      a space, or None for `npos`. */
  function FirstNonSpace(s: string): (r: Option<nat>)
    ensures r.None? <==> AllSpaces(s)
    ensures r.Some? ==> r.value < |s| && s[r.value] != ' ' && SpacesIn(s, 0, r.value)
  {
    FirstNonSpaceFrom(s, 0)
  }

  function FirstNonSpaceFrom(s: string, j: nat): (r: Option<nat>)
    requires j <= |s|
    ensures r.None? <==> SpacesIn(s, j, |s|)
    ensures r.Some? ==> j <= r.value < |s| && s[r.value] != ' ' && SpacesIn(s, j, r.value)
    decreases |s| - j
  {
    if j == |s| then None
    else if s[j] != ' ' then Some(j)
    else FirstNonSpaceFrom(s, j + 1)
  }

  /** `find_last_not_of(' ')`: the last index holding something other than a
      space, or None for `npos`. */
  function LastNonSpace(s: string): (r: Option<nat>)
    ensures r.None? <==> AllSpaces(s)
    ensures r.Some? ==> r.value < |s| && s[r.value] != ' ' && SpacesIn(s, r.value + 1, |s|)
  {
    LastNonSpaceBelow(s, |s|)
  }

  function LastNonSpaceBelow(s: string, m: nat): (r: Option<nat>)
    requires m <= |s|
    ensures r.None? <==> SpacesIn(s, 0, m)
    ensures r.Some? ==> r.value < m && s[r.value] != ' ' && SpacesIn(s, r.value + 1, m)
  {
    if m == 0 then None
    else if s[m - 1] != ' ' then Some(m - 1)
    else LastNonSpaceBelow(s, m - 1)
  }

  /** `trim`: drops leading and trailing ' ' (and nothing else); an empty or
      all-space input gives "". */
  function Trim(s: string): (r: string)
    ensures |r| <= |s|
    ensures r == [] <==> AllSpaces(s)
    ensures r != [] ==> r[0] != ' ' && r[|r| - 1] != ' '
  {
    match FirstNonSpace(s)
    case None => ""
    case Some(first) =>
      var last := LastNonSpace(s).value;
      assert first <= last;
      s[first..last + 1]
  }

  /** The result of Trim is the slice of the input left after removing a
      run of spaces at each end: only spaces are removed, interior spaces
      and every other character (tabs included) are kept. */
  lemma TrimSpan(s: string) returns (lo: nat, hi: nat)
    ensures lo <= hi <= |s|
    ensures Trim(s) == s[lo..hi]
    ensures SpacesIn(s, 0, lo) && SpacesIn(s, hi, |s|)
    ensures lo < hi ==> s[lo] != ' ' && s[hi - 1] != ' '
    ensures lo == hi ==> hi == |s|
  {
    match FirstNonSpace(s)
    case None =>
      lo, hi := |s|, |s|;
    case Some(first) =>
      var last := LastNonSpace(s).value;
      lo, hi := first, last + 1;
  }

  /** A string that neither starts nor ends with a space is its own trim. */
  lemma TrimNoEdgeSpaces(s: string)
    requires s != [] ==> s[0] != ' ' && s[|s| - 1] != ' '
    ensures Trim(s) == s
  {
    if s != [] {
      assert FirstNonSpace(s) == Some(0);
      assert LastNonSpace(s) == Some(|s| - 1);
      assert s[0..|s|] == s;
    }
  }

  lemma TrimIdempotent(s: string)
    ensures Trim(Trim(s)) == Trim(s)
  {
    TrimNoEdgeSpaces(Trim(s));
  }

  /** Independent reference definition of trimming: peel spaces off the
      front, then off the back. */
  function StripLeft(s: string): string
  {
    if s != [] && s[0] == ' ' then StripLeft(s[1..]) else s
  }

  function StripRight(s: string): string
  {
    if s != [] && s[|s| - 1] == ' ' then StripRight(s[..|s| - 1]) else s
  }

  lemma {:induction false} StripLeftFrom(s: string, j: nat, k: nat)
    requires j <= k <= |s| && SpacesIn(s, j, k)
    requires k < |s| ==> s[k] != ' '
    ensures StripLeft(s[j..]) == s[k..]
    decreases k - j
  {
    if j < k {
      assert s[j..][0] == s[j];
      assert s[j..][1..] == s[j + 1..];
      StripLeftFrom(s, j + 1, k);
    }
  }

  lemma {:induction false} StripRightTo(s: string, k: nat, m: nat)
    requires k <= m <= |s| && SpacesIn(s, k, m)
    requires 0 < k ==> s[k - 1] != ' '
    ensures StripRight(s[..m]) == s[..k]
    decreases m - k
  {
    if k < m {
      assert s[..m][m - 1] == s[m - 1];
      assert s[..m][..m - 1] == s[..m - 1];
      StripRightTo(s, k, m - 1);
    }
  }

  /** Peeling spaces off both ends of a string leaves the span between its
      first and last non-space characters. */
  lemma StripOfSpan(s: string, lo: nat, hi: nat)
    requires lo < hi <= |s| && SpacesIn(s, 0, lo) && SpacesIn(s, hi, |s|)
    requires s[lo] != ' ' && s[hi - 1] != ' '
    ensures StripRight(StripLeft(s)) == s[lo..hi]
  {
    assert s[0..] == s;
    StripLeftFrom(s, 0, lo);
    var t := s[lo..];
    assert SpacesIn(t, hi - lo, |t|);
    assert t[..|t|] == t;
    StripRightTo(t, hi - lo, |t|);
    assert t[..hi - lo] == s[lo..hi];
  }

  /** Trim agrees with the reference definition on every input. */
  lemma TrimIsStrip(s: string)
    ensures Trim(s) == StripRight(StripLeft(s))
  {
    var lo, hi := TrimSpan(s);
    if lo < hi {
      StripOfSpan(s, lo, hi);
    } else {
      assert s[0..] == s;
      StripLeftFrom(s, 0, |s|);
    }
  }

  /** `isValidUserId`: 3 to 10 characters, all ASCII letters or digits. */
  predicate ValidUserId(id: string)
  {
    3 <= |id| <= 10 && forall i | 0 <= i < |id| :: IsAsciiAlnum(id[i])
  }

  /** `isValidName`: 2 to 50 characters, each an ASCII letter, a space, a
      period or a hyphen (so an apostrophe is rejected). */
  predicate NameChar(c: char)
  {
    IsAsciiAlpha(c) || c == ' ' || c == '.' || c == '-'
  }

  predicate ValidName(name: string)
  {
    2 <= |name| <= 50 && forall i | 0 <= i < |name| :: NameChar(name[i])
  }

  method IsValidUserId(id: string) returns (ok: bool)
    ensures ok <==> ValidUserId(id)
  {
    if |id| < 3 || |id| > 10 {
      return false;
    }
    var i := 0;
    while i < |id|
      invariant 0 <= i <= |id|
      invariant forall k | 0 <= k < i :: IsAsciiAlnum(id[k])
    {
      if !IsAsciiAlnum(id[i]) {
        return false;
      }
      i := i + 1;
    }
    return true;
  }

  method IsValidName(name: string) returns (ok: bool)
    ensures ok <==> ValidName(name)
  {
    if |name| < 2 || |name| > 50 {
      return false;
    }
    var i := 0;
    while i < |name|
      invariant 0 <= i <= |name|
      invariant forall k | 0 <= k < i :: NameChar(name[k])
    {
      var c := name[i];
      if !IsAsciiAlpha(c) && c != ' ' && c != '.' && c != '-' {
        return false;
      }
      i := i + 1;
    }
    return true;
  }

  /** A valid user id has no spaces, so trimming leaves it as it is; the
      shell's trim-then-validate order therefore accepts exactly the valid
      ids surrounded by spaces. */
  lemma ValidUserIdIsTrimmed(id: string)
    requires ValidUserId(id)
    ensures Trim(id) == id
  {
    assert IsAsciiAlnum(id[0]) && IsAsciiAlnum(id[|id| - 1]);
    TrimNoEdgeSpaces(id);
  }

  /** The role menu of `addUserInterface`: 1, 2 and 3 select a role, any other
      number is rejected (and re-prompted by the shell). */
  function RoleForChoice(choice: int): (r: Option<string>)
    ensures r.Some? <==> 1 <= choice <= 3
    ensures r.Some? ==> r.value in {"student", "staff", "faculty"}
  {
    match choice
    case 1 => Some("student")
    case 2 => Some("staff")
    case 3 => Some("faculty")
    case _ => None
  }
}
