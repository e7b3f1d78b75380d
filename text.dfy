/**
 * The few pieces of Python's string library that the contact book relies on:
 * `str.strip()`, `str.lower()`, the substring test `t in s`, `str.find` (behind
 * `split`) and the first field of `str.split(sep)`. Strings are sequences of characters.
 */
module Text {
  import opened Wrappers

  /** The characters Python's `str.isspace()` accepts, which is the set `str.strip()` removes. */
  predicate IsSpace(ch: char) {
    || ch == ' '
    || ('\t' <= ch <= '\r')                   // tab, line feed, vertical tab, form feed, carriage return
    || ('\U{1C}' <= ch <= '\U{1F}')           // file, group, record and unit separators
    || ch == '\U{85}' || ch == '\U{A0}' || ch == '\U{1680}'
    || ('\U{2000}' <= ch <= '\U{200A}')
    || ch == '\U{2028}' || ch == '\U{2029}' || ch == '\U{202F}' || ch == '\U{205F}' || ch == '\U{3000}'
  }

  /** A string made of whitespace only (the empty string included). */
  predicate Blank(s: string) {
    forall i :: 0 <= i < |s| ==> IsSpace(s[i])
  }

  /** How many whitespace characters `s` starts with: what `str.strip()` drops at the front. */
  function LeadingSpace(s: string): (n: nat)
    ensures n <= |s|
    ensures forall i :: 0 <= i < n ==> IsSpace(s[i])
    ensures n == |s| || !IsSpace(s[n])
  {
    if s != [] && IsSpace(s[0]) then 1 + LeadingSpace(s[1..]) else 0
  }

  /** How many whitespace characters `s` ends with: what `str.strip()` drops at the back. */
  function TrailingSpace(s: string): (n: nat)
    ensures n <= |s|
    ensures forall i :: |s| - n <= i < |s| ==> IsSpace(s[i])
    ensures n == |s| || !IsSpace(s[|s| - n - 1])
  {
    if s != [] && IsSpace(s[|s| - 1]) then 1 + TrailingSpace(s[..|s| - 1]) else 0
  }

  /**
   * Python's `s.strip()`: the input without its leading and trailing
   * whitespace, which is empty when the input is all whitespace.
   */
  function Strip(s: string): (r: string)
    ensures r == [] <==> Blank(s)
    ensures r == [] || (!IsSpace(r[0]) && !IsSpace(r[|r| - 1]))
    ensures var a := LeadingSpace(s);
      a + |r| <= |s| && r == s[a..a + |r|] && Blank(s[..a]) && Blank(s[a + |r|..])
  {
    var a := LeadingSpace(s);
    if a == |s| then
      []
    else
      var b := |s| - TrailingSpace(s);
      assert a < b by { assert !IsSpace(s[a]); }
      s[a..b]
  }

  /** ASCII case folding: 'A'..'Z' become 'a'..'z', every other character is kept. */
  function LowerChar(ch: char): char {
    if 'A' <= ch <= 'Z' then (ch as int - 'A' as int + 'a' as int) as char else ch
  }

  /** `s.lower()`, restricted to ASCII case folding. */
  function Lower(s: string): (r: string)
    ensures |r| == |s|
    ensures forall i :: 0 <= i < |r| ==> !('A' <= r[i] <= 'Z')
    ensures forall i :: 0 <= i < |r| && r[i] != s[i] ==>
      'A' <= s[i] <= 'Z' && r[i] as int == s[i] as int + 32
  {
    seq(|s|, i requires 0 <= i < |s| => LowerChar(s[i]))
  }

  /** `t` occurs in `s` starting at index `i`. */
  predicate OccursAt(s: string, t: string, i: int) {
    0 <= i && i + |t| <= |s| && s[i..i + |t|] == t
  }

  /** Python's `t in s` on strings: `t` is a substring of `s`. */
  predicate Contains(s: string, t: string)
    ensures t == [] ==> Contains(s, t)
    ensures Contains(s, t) ==> |t| <= |s|
  {
    assert OccursAt(s, t, 0) <== t == [];
    assert OccursAt(s, s, 0);
    exists i :: 0 <= i <= |s| - |t| && OccursAt(s, t, i)
  }

  /** The first index at or after `k` where `t` occurs in `s`. */
  function FindFrom(s: string, t: string, k: nat): (r: Option<nat>)
    requires k <= |s|
    ensures r.Some? ==> k <= r.value && OccursAt(s, t, r.value)
    ensures r.Some? ==> forall j :: k <= j < r.value ==> !OccursAt(s, t, j)
    ensures r.None? ==> forall j :: k <= j ==> !OccursAt(s, t, j)
    decreases |s| - k
  {
    if OccursAt(s, t, k) then Some(k)
    else if k == |s| then None
    else FindFrom(s, t, k + 1)
  }

  /** Python's `s.find(t)`: the first occurrence of `t` in `s`, if there is one. */
  function Find(s: string, t: string): (r: Option<nat>)
    ensures r.None? <==> !Contains(s, t)
    ensures r.Some? ==> OccursAt(s, t, r.value) && forall j :: 0 <= j < r.value ==> !OccursAt(s, t, j)
  {
    FindFrom(s, t, 0)
  }

  /** Python's `s.split(sep)[0]`: the text before the first `sep`, or all of `s` when there is none. */
  function SplitFirst(s: string, sep: string): (r: string)
    requires sep != []
    ensures |r| <= |s| && r == s[..|r|]
    ensures r == s <==> !Contains(s, sep)
    ensures Contains(s, sep) ==> OccursAt(s, sep, |r|)
    ensures forall j :: 0 <= j < |r| ==> !OccursAt(s, sep, j)
    ensures !Contains(r, sep)
  {
    match Find(s, sep)
    case None => s
    case Some(i) =>
      var r := s[..i];
      assert !Contains(r, sep) by {
        forall j | 0 <= j <= |r| - |sep| ensures !OccursAt(r, sep, j) {
          assert j < i;
          assert !OccursAt(s, sep, j);
          assert r[j..j + |sep|] == s[j..j + |sep|];
        }
      }
      r
  }
}
