/**
 * The few pieces of Python string behaviour the pipeline relies on, restricted
 * to ASCII: `str.lower`, `str.strip`, `str.split("\n")`, `sep.join(parts)`,
 * substring tests (`sub in s`) and the regex class `\d`.
 */
module Strings {

  /** `\d` on ASCII text. */
  predicate IsDigit(c: char) {
    '0' <= c <= '9'
  }

  /** True when some character of `s` is a digit: `re.search(r"\d", s)` succeeds. */
  predicate HasDigit(s: string) {
    exists i :: 0 <= i < |s| && IsDigit(s[i])
  }

  /** The ASCII characters for which Python's `str.isspace` holds. */
  predicate IsSpace(c: char) {
    c == ' ' || c == '\t' || c == '\n' || c == '\r' || c == '\U{0B}' || c == '\U{0C}'
    || ('\U{1C}' <= c <= '\U{1F}')
  }

  function LowerChar(c: char): char {
    if 'A' <= c <= 'Z' then (c as int + 32) as char else c
  }

  /** An ASCII upper-case letter. */
  predicate IsUpper(c: char) {
    'A' <= c <= 'Z'
  }

  /**
   * `s.lower()` on ASCII: no upper-case letter is left, each upper-case letter
   * becomes its lower-case partner 32 code points on, and every other
   * character is kept in its place.
   */
  function Lower(s: string): (r: string)
    ensures |r| == |s|
    ensures forall i :: 0 <= i < |r| ==> !IsUpper(r[i])
    ensures forall i :: 0 <= i < |s| && IsUpper(s[i]) ==> r[i] as int == s[i] as int + 32
    ensures forall i :: 0 <= i < |s| && !IsUpper(s[i]) ==> r[i] == s[i]
  {
    seq(|s|, i requires 0 <= i < |s| => LowerChar(s[i]))
  }

  /** `sub in s`: `sub` occurs in `s` as a contiguous piece. */
  predicate Contains(s: string, sub: string) {
    exists i :: 0 <= i <= |s| && sub <= s[i..]
  }

  /** Number of whitespace characters at the front of `s`. */
  function LeadingSpace(s: string): (k: nat)
    ensures k <= |s|
    ensures forall i :: 0 <= i < k ==> IsSpace(s[i])
    ensures k == |s| || !IsSpace(s[k])
  {
    if |s| > 0 && IsSpace(s[0]) then 1 + LeadingSpace(s[1..]) else 0
  }

  /** Number of whitespace characters at the back of `s`. */
  function TrailingSpace(s: string): (k: nat)
    ensures k <= |s|
    ensures forall i :: |s| - k <= i < |s| ==> IsSpace(s[i])
    ensures k == |s| || !IsSpace(s[|s| - 1 - k])
  {
    if |s| > 0 && IsSpace(s[|s| - 1]) then 1 + TrailingSpace(s[..|s| - 1]) else 0
  }

  /** Neither end of `s` is whitespace. */
  predicate IsTrimmed(s: string) {
    s == [] || (!IsSpace(s[0]) && !IsSpace(s[|s| - 1]))
  }

  /** `s.strip()`: the part of `s` left after the whitespace at both ends is removed. */
  function Strip(s: string): (r: string)
    ensures IsTrimmed(r)
  {
    var a := LeadingSpace(s);
    var t := s[a..];
    t[..|t| - TrailingSpace(t)]
  }

  /**
   * The stripped string is a piece of `s` with only whitespace before it and
   * only whitespace after it.
   */
  lemma StripRemovesSpace(s: string)
    ensures exists i :: 0 <= i <= |s| - |Strip(s)| && Strip(s) <= s[i..]
                        && (forall k :: 0 <= k < i ==> IsSpace(s[k]))
                        && (forall k :: i + |Strip(s)| <= k < |s| ==> IsSpace(s[k]))
  {
    var a := LeadingSpace(s);
    var t := s[a..];
    var r := Strip(s);
    assert r <= s[a..];
    assert forall k :: a + |r| <= k < |s| ==> s[k] == t[k - a];
  }

  /** Concatenation regroups freely. */
  lemma AppendAssoc<T>(x: seq<T>, y: seq<T>, z: seq<T>)
    ensures (x + y) + z == x + (y + z)
  {
  }

  /** `sep.join(parts)`. */
  function Join(parts: seq<string>, sep: string): string {
    if parts == [] then ""
    else if |parts| == 1 then parts[0]
    else parts[0] + sep + Join(parts[1..], sep)
  }

  /**
   * `s.split("\n")`: the pieces between line breaks, always at least one.
   * Joining them back with "\n" gives `s`, and no piece holds a line break.
   */
  function SplitLines(s: string): (r: seq<string>)
    ensures |r| > 0
    ensures Join(r, "\n") == s
    ensures forall i :: 0 <= i < |r| ==> '\n' !in r[i]
  {
    if s == [] then [""]
    else
      var rest := SplitLines(s[1..]);
      if s[0] == '\n' then
        assert s == "\n" + s[1..];
        [""] + rest
      else
        var r := [[s[0]] + rest[0]] + rest[1..];
        assert r[1..] == rest[1..];
        assert s == [s[0]] + s[1..];
        r
  }

  /** The split is the only way to cut `s` at its line breaks into one or more pieces. */
  lemma {:induction false} SplitLinesUnique(s: string, parts: seq<string>)
    requires |parts| > 0
    requires Join(parts, "\n") == s
    requires forall i :: 0 <= i < |parts| ==> '\n' !in parts[i]
    ensures parts == SplitLines(s)
    decreases |s|, |parts[0]|
  {
    if parts[0] == [] {
      if |parts| == 1 {
        assert s == [];
      } else {
        assert s == "\n" + Join(parts[1..], "\n");
        assert s[1..] == Join(parts[1..], "\n");
        SplitLinesUnique(s[1..], parts[1..]);
      }
    } else {
      var p0 := parts[0];
      var shorter := [p0[1..]] + parts[1..];
      assert shorter[1..] == parts[1..];
      assert p0 == [p0[0]] + p0[1..];
      if |parts| == 1 {
        assert s == p0;
      } else {
        assert s == p0 + "\n" + Join(parts[1..], "\n");
      }
      assert s[0] == p0[0] && s[0] != '\n';
      assert Join(shorter, "\n") == s[1..];
      assert '\n' !in shorter[0];
      SplitLinesUnique(s[1..], shorter);
      assert parts == [[s[0]] + shorter[0]] + shorter[1..];
    }
  }
}
