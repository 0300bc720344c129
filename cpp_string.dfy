/** The parts of C++'s std::string that the telemetry handler relies on:
    find, find_first_of, find_last_of and substr, with std::string::npos
    represented as None and size_t arithmetic made explicit. */
module CppString {

  datatype Option<T> = None | Some(value: T)

  /** 2^64: size_t arithmetic wraps modulo this value. */
  const SizeModulus: int := 0x1_0000_0000_0000_0000

  /** `pat` occurs in `s` starting at index `i`. */
  predicate OccursAt(s: string, pat: string, i: int) {
    0 <= i && i + |pat| <= |s| && s[i..i + |pat|] == pat
  }

  /** `pat` occurs somewhere in `s`. */
  ghost predicate Occurs(s: string, pat: string) {
    exists i :: OccursAt(s, pat, i)
  }

  /** s.find(pat): the first index where `pat` occurs, or npos (None). */
  function Find(s: string, pat: string): (r: Option<nat>)
    ensures r.Some? ==> OccursAt(s, pat, r.value)
    ensures r.Some? ==> forall j :: 0 <= j < r.value ==> !OccursAt(s, pat, j)
    ensures r.None? <==> !Occurs(s, pat)
    decreases |s|
  {
    if |s| < |pat| then
      None
    else if s[..|pat|] == pat then
      Some(0)
    else
      assert !OccursAt(s, pat, 0);
      ShiftedOccurrences(s, pat);
      match Find(s[1..], pat)
      case None => None
      case Some(k) => Some(k + 1)
  }

  /** Occurrences in the tail of `s` are occurrences in `s`, one index later;
      an occurrence in `s` other than at 0 is one in the tail. */
  lemma ShiftedOccurrences(s: string, pat: string)
    requires |s| > 0
    ensures forall j :: j >= 0 ==> (OccursAt(s[1..], pat, j) <==> OccursAt(s, pat, j + 1))
    ensures forall i :: i > 0 && OccursAt(s, pat, i) ==> OccursAt(s[1..], pat, i - 1)
  {
    forall j | j >= 0
      ensures OccursAt(s[1..], pat, j) <==> OccursAt(s, pat, j + 1)
    {
      if j + |pat| <= |s| - 1 {
        assert s[1..][j..j + |pat|] == s[j + 1..j + 1 + |pat|];
      }
    }
    forall i | i > 0 && OccursAt(s, pat, i)
      ensures OccursAt(s[1..], pat, i - 1)
    {
      assert OccursAt(s[1..], pat, i - 1) <==> OccursAt(s, pat, i - 1 + 1);
    }
  }

  /** s.find_first_of(c) for a one-character set: the first index holding `c`. */
  function FindFirstOf(s: string, c: char): (r: Option<nat>)
    ensures r.Some? ==> r.value < |s| && s[r.value] == c
    ensures r.Some? ==> forall j :: 0 <= j < r.value ==> s[j] != c
    ensures r.None? <==> c !in s
  {
    if s == [] then
      None
    else if s[0] == c then
      Some(0)
    else
      match FindFirstOf(s[1..], c)
      case None => None
      case Some(k) => Some(k + 1)
  }

  /** s.find_last_of(c) for a one-character set: the last index holding `c`. */
  function FindLastOf(s: string, c: char): (r: Option<nat>)
    ensures r.Some? ==> r.value < |s| && s[r.value] == c
    ensures r.Some? ==> forall j :: r.value < j < |s| ==> s[j] != c
    ensures r.None? <==> c !in s
  {
    if s == [] then
      None
    else if s[|s| - 1] == c then
      Some(|s| - 1)
    else
      assert forall j :: 0 <= j < |s| - 1 ==> s[..|s| - 1][j] == s[j];
      FindLastOf(s[..|s| - 1], c)
  }

  /** s.substr(pos, count): at most `count` characters from `pos`, cut short at
      the end of the string. (pos > size() throws; callers here never do that.) */
  function Substr(s: string, pos: nat, count: nat): (r: string)
    requires pos <= |s|
    ensures |r| == if count < |s| - pos then count else |s| - pos
    ensures r == s[pos..pos + |r|]
  {
    if count < |s| - pos then s[pos..pos + count] else s[pos..]
  }

  /** `t` appears as a contiguous piece of `s`. */
  ghost predicate IsSubstring(t: string, s: string) {
    exists i, j :: 0 <= i <= j <= |s| && t == s[i..j]
  }

  /** An integer converted to size_t: arithmetic on size_t wraps modulo 2^64. */
  function ToSize(x: int): (r: nat)
    ensures r < SizeModulus
    ensures 0 <= x < SizeModulus ==> r == x
    ensures -SizeModulus <= x < 0 ==> r == x + SizeModulus
  {
    x % SizeModulus
  }
}
