/**
 * `extract_numbers`: `re.findall(r"\(?-?\d[\d,\.]*\)?", line)` written out
 * as a scanner, then each match loses its commas and, when it holds both an
 * opening and a closing parenthesis, is rewritten as a leading minus.
 */
module NumberParser {
  import opened Strings
  import opened Options

  // ---------------------------------------------------------------------
  // The pattern, one part at a time
  // ---------------------------------------------------------------------

  /** A character of the `[\d,\.]` class. */
  predicate IsBodyChar(c: char) {
    IsDigit(c) || c == ',' || c == '.'
  }

  /**
   * The parts of the pattern, in order: the optional '(', the optional '-',
   * the first digit, the `[\d,\.]*` run and the optional ')'. A stage stands
   * for the rest of the pattern from that part on.
   */
  datatype Stage = Open | Sign | First | Run | Close

  function Rank(stage: Stage): nat {
    match stage
    case Open => 4
    case Sign => 3
    case First => 2
    case Run => 1
    case Close => 0
  }

  /** The stages from which the rest of the pattern still needs a digit. */
  predicate NeedsDigit(stage: Stage) {
    stage.Open? || stage.Sign? || stage.First?
  }

  /** `t` is in the language of the rest of the pattern from `stage` on. */
  predicate Accepts(t: string, stage: Stage)
    decreases |t|, Rank(stage)
  {
    match stage
    case Open => Accepts(t, Sign) || (|t| > 0 && t[0] == '(' && Accepts(t[1..], Sign))
    case Sign => Accepts(t, First) || (|t| > 0 && t[0] == '-' && Accepts(t[1..], First))
    case First => |t| > 0 && IsDigit(t[0]) && Accepts(t[1..], Run)
    case Run => Accepts(t, Close) || (|t| > 0 && IsBodyChar(t[0]) && Accepts(t[1..], Run))
    case Close => t == "" || t == ")"
  }

  /** `t` is in the language of the whole pattern `\(?-?\d[\d,\.]*\)?`. */
  predicate IsMatch(t: string) {
    Accepts(t, Open)
  }

  // ---------------------------------------------------------------------
  // One match attempt at a position
  // ---------------------------------------------------------------------

  /**
   * Where the attempt of the rest of the pattern from `stage`, started at
   * `q`, ends; `None` when it fails. Every optional part and every repetition
   * is taken whenever the next character allows it.
   */
  function MatchEnd(s: string, q: nat, stage: Stage): (r: Option<nat>)
    requires q <= |s|
    ensures r.Some? ==> q <= r.value <= |s|
    ensures r.Some? && NeedsDigit(stage) ==> q < r.value
    ensures !NeedsDigit(stage) ==> r.Some?
    decreases |s| - q, Rank(stage)
  {
    match stage
    case Open => if q < |s| && s[q] == '(' then MatchEnd(s, q + 1, Sign) else MatchEnd(s, q, Sign)
    case Sign => if q < |s| && s[q] == '-' then MatchEnd(s, q + 1, First) else MatchEnd(s, q, First)
    case First => if q < |s| && IsDigit(s[q]) then MatchEnd(s, q + 1, Run) else None
    case Run => if q < |s| && IsBodyChar(s[q]) then MatchEnd(s, q + 1, Run) else MatchEnd(s, q, Close)
    case Close => Some(if q < |s| && s[q] == ')' then q + 1 else q)
  }

  /** The length of the match `re.findall` takes at `p`, 0 when none starts there. */
  function MatchLength(s: string, p: nat): (n: nat)
    requires p <= |s|
    ensures p + n <= |s|
  {
    match MatchEnd(s, p, Open)
    case Some(e) => e - p
    case None => 0
  }

  /** The first character of `s[i..j]` and what follows it. */
  lemma SliceFront(s: string, i: nat, j: nat)
    requires i < j <= |s|
    ensures s[i..j][0] == s[i] && s[i..j][1..] == s[i + 1..j]
  {
  }

  /** What the attempt from `stage` at `q` takes is in the language of the rest of the pattern. */
  lemma {:induction false} MatchEndSound(s: string, q: nat, stage: Stage)
    requires q <= |s|
    requires MatchEnd(s, q, stage).Some?
    ensures Accepts(s[q..MatchEnd(s, q, stage).value], stage)
    decreases |s| - q, Rank(stage)
  {
    var e := MatchEnd(s, q, stage).value;
    match stage
    case Open =>
      if q < |s| && s[q] == '(' {
        MatchEndSound(s, q + 1, Sign);
        SliceFront(s, q, e);
      } else {
        MatchEndSound(s, q, Sign);
      }
    case Sign =>
      if q < |s| && s[q] == '-' {
        MatchEndSound(s, q + 1, First);
        SliceFront(s, q, e);
      } else {
        MatchEndSound(s, q, First);
      }
    case First =>
      MatchEndSound(s, q + 1, Run);
      SliceFront(s, q, e);
    case Run =>
      if q < |s| && IsBodyChar(s[q]) {
        MatchEndSound(s, q + 1, Run);
        SliceFront(s, q, e);
      } else {
        MatchEndSound(s, q, Close);
      }
    case Close =>
      if q < |s| && s[q] == ')' {
        assert s[q..e] == [s[q]];
      } else {
        assert s[q..e] == [];
      }
  }

  /**
   * Every piece of `s` starting at `q` in the language of the rest of the
   * pattern from `stage` ends at or before where the attempt ends: taking
   * every optional part and repetition never loses a longer match.
   */
  lemma {:induction false} MatchEndLongest(s: string, q: nat, k: nat, stage: Stage)
    requires q <= k <= |s|
    requires Accepts(s[q..k], stage)
    ensures MatchEnd(s, q, stage).Some? && k <= MatchEnd(s, q, stage).value
    decreases |s| - q, Rank(stage)
  {
    var t := s[q..k];
    if q < k {
      SliceFront(s, q, k);
    }
    match stage
    case Open =>
      if q < |s| && s[q] == '(' {
        if Accepts(t, Sign) {
          MatchEndLongest(s, q, k, Sign);
          assert false;
        }
        MatchEndLongest(s, q + 1, k, Sign);
      } else {
        MatchEndLongest(s, q, k, Sign);
      }
    case Sign =>
      if q < |s| && s[q] == '-' {
        MatchEndLongest(s, q + 1, k, First);
      } else {
        MatchEndLongest(s, q, k, First);
      }
    case First =>
      MatchEndLongest(s, q + 1, k, Run);
    case Run =>
      if q < |s| && IsBodyChar(s[q]) {
        if q < k {
          MatchEndLongest(s, q + 1, k, Run);
        }
      } else {
        MatchEndLongest(s, q, k, Close);
      }
    case Close =>
  }

  /**
   * `MatchLength(s, p)` is the length of the longest piece of `s` starting at
   * `p` that matches the pattern, and 0 when there is none. For this pattern
   * that is the match Python's backtracking matcher picks: each optional part
   * is taken when present, because what follows it cannot start with the
   * same character, and the run is never given back, because the optional
   * ')' after it always succeeds.
   */
  lemma MatchLengthIsLongestMatch(s: string, p: nat)
    requires p <= |s|
    ensures MatchLength(s, p) > 0 ==> IsMatch(s[p..p + MatchLength(s, p)])
    ensures forall k :: p + MatchLength(s, p) < k <= |s| ==> !IsMatch(s[p..k])
    ensures MatchLength(s, p) == 0 ==> forall k :: p <= k <= |s| ==> !IsMatch(s[p..k])
  {
    if MatchEnd(s, p, Open).Some? {
      MatchEndSound(s, p, Open);
    }
    forall k | p <= k <= |s| && IsMatch(s[p..k])
      ensures MatchLength(s, p) > 0 && k <= p + MatchLength(s, p)
    {
      MatchEndLongest(s, p, k, Open);
    }
  }

  // ---------------------------------------------------------------------
  // The scan of a whole line
  // ---------------------------------------------------------------------

  /** A matched piece of text: `line[start..end]`. */
  datatype Span = Span(start: nat, end: nat)

  /** No match of the pattern starts at any position in `[lo, hi)`. */
  predicate NoMatchIn(s: string, lo: nat, hi: nat)
    requires hi <= |s|
  {
    forall q :: lo <= q < hi ==> MatchLength(s, q) == 0
  }

  /**
   * `r` is what `re.findall` matches when it scans `s` from `p`: the first
   * span starts at the first position at or after `p` where a match starts,
   * covers the longest match there, and the other spans are the scan from its
   * end; when no match starts at or after `p`, there are no spans.
   */
  ghost predicate IsScan(s: string, p: nat, r: seq<Span>)
    requires p <= |s|
    decreases |r|
  {
    if r == [] then NoMatchIn(s, p, |s|)
    else
      && p <= r[0].start < r[0].end <= |s|
      && NoMatchIn(s, p, r[0].start)
      && r[0].end == r[0].start + MatchLength(s, r[0].start)
      && IsScan(s, r[0].end, r[1..])
  }

  /** The spans `re.findall` matches when it scans `s` from `p`. */
  function Spans(s: string, p: nat): seq<Span>
    requires p <= |s|
    decreases |s| - p
  {
    if p == |s| then []
    else
      var n := MatchLength(s, p);
      if n > 0 then [Span(p, p + n)] + Spans(s, p + n) else Spans(s, p + 1)
  }

  /** Every span is a piece of `s`. */
  predicate Within(s: string, spans: seq<Span>) {
    forall i :: 0 <= i < |spans| ==> spans[i].start <= spans[i].end <= |s|
  }

  /** The spans of the scan from `p` lie within `s[p..]` and none is empty. */
  lemma {:induction false} SpansWithin(s: string, p: nat)
    requires p <= |s|
    ensures Within(s, Spans(s, p))
    ensures forall i :: 0 <= i < |Spans(s, p)| ==> p <= Spans(s, p)[i].start < Spans(s, p)[i].end
    decreases |s| - p
  {
    if p < |s| {
      var n := MatchLength(s, p);
      if n > 0 {
        SpansWithin(s, p + n);
        var rest := Spans(s, p + n);
        assert forall i :: 1 <= i < |Spans(s, p)| ==> Spans(s, p)[i] == rest[i - 1];
      } else {
        SpansWithin(s, p + 1);
      }
    }
  }

  /** Where a match starts at `p`, the scan takes it and goes on from its end. */
  lemma SpansTake(s: string, p: nat)
    requires p < |s| && MatchLength(s, p) > 0
    ensures Spans(s, p) == [Span(p, p + MatchLength(s, p))] + Spans(s, p + MatchLength(s, p))
  {
  }

  /** Where no match starts at `p`, the scan goes on from `p + 1`. */
  lemma SpansSkip(s: string, p: nat)
    requires p < |s| && MatchLength(s, p) == 0
    ensures Spans(s, p) == Spans(s, p + 1)
  {
  }

  /** The scan `Spans` computes is the leftmost-longest scan `IsScan` describes. */
  lemma {:induction false} SpansIsScan(s: string, p: nat)
    requires p <= |s|
    ensures IsScan(s, p, Spans(s, p))
    decreases |s| - p
  {
    if p < |s| {
      var n := MatchLength(s, p);
      if n > 0 {
        var rest := Spans(s, p + n);
        SpansIsScan(s, p + n);
        SpansTake(s, p);
        assert Spans(s, p)[1..] == rest;
      } else {
        SpansIsScan(s, p + 1);
        SpansSkip(s, p);
      }
    }
  }

  /**
   * The spans of a scan lie within `s[p..]`, each covers the longest match at
   * its start, and each ends at or before the next one starts.
   */
  lemma {:induction false} ScanInOrder(s: string, p: nat, r: seq<Span>)
    requires p <= |s|
    requires IsScan(s, p, r)
    ensures forall i :: 0 <= i < |r| ==> p <= r[i].start < r[i].end <= |s|
    ensures forall i :: 0 <= i < |r| ==> r[i].end == r[i].start + MatchLength(s, r[i].start)
    ensures forall i, j :: 0 <= i < j < |r| ==> r[i].end <= r[j].start
    decreases |r|
  {
    if r != [] {
      var rest := r[1..];
      ScanInOrder(s, r[0].end, rest);
      assert forall i :: 1 <= i < |r| ==> r[i] == rest[i - 1];
    }
  }

  /** The text of each span, in order. */
  function Texts(s: string, spans: seq<Span>): (r: seq<string>)
    requires Within(s, spans)
    ensures |r| == |spans|
  {
    if spans == [] then []
    else [s[spans[0].start..spans[0].end]] + Texts(s, spans[1..])
  }

  /** Text `i` is the piece of `s` that span `i` covers. */
  lemma {:induction false} TextsAt(s: string, spans: seq<Span>, i: nat)
    requires Within(s, spans)
    requires i < |spans|
    ensures Texts(s, spans)[i] == s[spans[i].start..spans[i].end]
  {
    if i > 0 {
      TextsAt(s, spans[1..], i - 1);
    }
  }

  /** The strings the scan of `s` from `p` matches, in order. */
  function Found(s: string, p: nat): seq<string>
    requires p <= |s|
  {
    SpansWithin(s, p);
    Texts(s, Spans(s, p))
  }

  /** Where a match starts at `p`, the scan keeps its text and goes on from its end. */
  lemma FoundTake(s: string, p: nat)
    requires p < |s| && MatchLength(s, p) > 0
    ensures Found(s, p) == [s[p..p + MatchLength(s, p)]] + Found(s, p + MatchLength(s, p))
  {
    var n := MatchLength(s, p);
    SpansWithin(s, p);
    SpansWithin(s, p + n);
    assert Spans(s, p)[1..] == Spans(s, p + n);
  }

  /** Where no match starts at `p`, the scan goes on from `p + 1`. */
  lemma FoundSkip(s: string, p: nat)
    requires p < |s| && MatchLength(s, p) == 0
    ensures Found(s, p) == Found(s, p + 1)
  {
  }

  /** What `re.findall(pattern, line)` returns. */
  function FindAll(line: string): seq<string> {
    Found(line, 0)
  }

  /**
   * Each string `re.findall` returns is a match of the pattern and is the
   * piece of the line covered by the corresponding span of the scan; the
   * spans are the leftmost-longest scan of the line, so the matches come in
   * left-to-right order and do not overlap.
   */
  lemma FindAllAreMatches(line: string)
    ensures IsScan(line, 0, Spans(line, 0))
    ensures Within(line, Spans(line, 0))
    ensures |FindAll(line)| == |Spans(line, 0)|
    ensures forall i :: 0 <= i < |FindAll(line)| ==>
              var sp := Spans(line, 0)[i];
              FindAll(line)[i] == line[sp.start..sp.end] && IsMatch(FindAll(line)[i])
    ensures forall i, j :: 0 <= i < j < |FindAll(line)| ==> Spans(line, 0)[i].end <= Spans(line, 0)[j].start
  {
    var spans := Spans(line, 0);
    SpansIsScan(line, 0);
    ScanInOrder(line, 0, spans);
    forall i | 0 <= i < |FindAll(line)|
      ensures FindAll(line)[i] == line[spans[i].start..spans[i].end] && IsMatch(FindAll(line)[i])
    {
      TextsAt(line, spans, i);
      MatchLengthIsLongestMatch(line, spans[i].start);
    }
  }

  // ---------------------------------------------------------------------
  // Cleaning a match
  // ---------------------------------------------------------------------

  /** `s` with every occurrence of `c` removed: `s.replace(c, "")`. */
  function Remove(s: string, c: char): (r: string)
  {
    if s == [] then []
    else (if s[0] == c then [] else [s[0]]) + Remove(s[1..], c)
  }

  /** `Remove` keeps exactly the characters other than `c`. */
  lemma {:induction false} RemoveKeeps(s: string, c: char, x: char)
    ensures x in Remove(s, c) <==> x in s && x != c
  {
    if s != [] {
      RemoveKeeps(s[1..], c, x);
      assert x in s <==> x == s[0] || x in s[1..];
    }
  }

  /** `Remove` works piece by piece. */
  lemma {:induction false} RemoveAppend(a: string, b: string, c: char)
    ensures Remove(a + b, c) == Remove(a, c) + Remove(b, c)
  {
    if a != [] {
      assert (a + b)[1..] == a[1..] + b;
      RemoveAppend(a[1..], b, c);
    } else {
      assert a + b == b;
    }
  }

  /** Removing a character that is not there changes nothing. */
  lemma {:induction false} RemoveAbsent(s: string, c: char)
    requires c !in s
    ensures Remove(s, c) == s
  {
    if s != [] {
      RemoveAbsent(s[1..], c);
    }
  }

  /** The rewriting of one match in the loop of `extract_numbers`. */
  function Clean(token: string): string {
    var t := Remove(token, ',');
    if '(' in t && ')' in t then "-" + Remove(Remove(t, '('), ')') else t
  }

  /** A digit after the first character is a digit of the whole string. */
  lemma HasDigitTail(t: string)
    requires |t| > 0 && HasDigit(t[1..])
    ensures HasDigit(t)
  {
    var i :| 0 <= i < |t[1..]| && IsDigit(t[1..][i]);
    assert t[i + 1] == t[1..][i];
  }

  /**
   * What the rest of the pattern from `stage` accepts has a '(' only at its
   * very start and only from `Open`, a ')' only at its very end, and a digit
   * whenever the stage still needs one.
   */
  lemma {:induction false} AcceptsShape(t: string, stage: Stage)
    requires Accepts(t, stage)
    ensures !stage.Open? ==> '(' !in t
    ensures |t| > 0 ==> '(' !in t[1..] && ')' !in t[..|t| - 1]
    ensures NeedsDigit(stage) ==> HasDigit(t)
    decreases |t|, Rank(stage)
  {
    match stage
    case Open =>
      if Accepts(t, Sign) {
        AcceptsShape(t, Sign);
      } else {
        AcceptsShape(t[1..], Sign);
        TailShape(t);
        HasDigitTail(t);
      }
    case Sign =>
      if Accepts(t, First) {
        AcceptsShape(t, First);
      } else {
        AcceptsShape(t[1..], First);
        TailShape(t);
        HasDigitTail(t);
      }
    case First =>
      AcceptsShape(t[1..], Run);
      TailShape(t);
    case Run =>
      if Accepts(t, Close) {
        AcceptsShape(t, Close);
      } else {
        AcceptsShape(t[1..], Run);
        TailShape(t);
      }
    case Close =>
  }

  /** How '(' and ')' in `t` relate to those in `t[1..]`. */
  lemma TailShape(t: string)
    requires |t| > 0
    ensures '(' in t <==> t[0] == '(' || '(' in t[1..]
    ensures |t| > 1 ==> (')' in t[..|t| - 1] <==> t[0] == ')' || ')' in t[1..][..|t| - 2])
    ensures |t| == 1 ==> ')' !in t[..|t| - 1]
  {
    assert t == [t[0]] + t[1..];
    if |t| > 1 {
      assert t[..|t| - 1] == [t[0]] + t[1..][..|t| - 2];
    }
  }

  /** In a match, '(' can only come first and ')' only last, and there is a digit. */
  lemma MatchParens(m: string)
    requires IsMatch(m)
    ensures |m| > 0
    ensures forall i :: 0 < i < |m| ==> m[i] != '('
    ensures forall i :: 0 <= i < |m| - 1 ==> m[i] != ')'
    ensures HasDigit(m)
  {
    AcceptsShape(m, Open);
    forall i | 0 < i < |m|
      ensures m[i] != '('
    {
      assert m[i] == m[1..][i - 1];
    }
    forall i | 0 <= i < |m| - 1
      ensures m[i] != ')'
    {
      assert m[i] == m[..|m| - 1][i];
    }
  }

  /** Removing a character from a string between two single characters. */
  lemma RemoveWrapped(a: char, x: string, b: char, c: char)
    ensures Remove([a] + x + [b], c)
         == (if a == c then [] else [a]) + Remove(x, c) + (if b == c then [] else [b])
  {
    RemoveAppend([a] + x, [b], c);
    RemoveAppend([a], x, c);
    assert Remove([a], c) == (if a == c then [] else [a]) + Remove([], c);
    assert Remove([b], c) == (if b == c then [] else [b]) + Remove([], c);
  }

  /** A string of at least two characters is its first character, its middle and its last character. */
  lemma Bracketed(m: string)
    requires |m| >= 2
    ensures m == [m[0]] + m[1..|m| - 1] + [m[|m| - 1]]
  {
  }

  /** A match between '(' and ')' becomes '-' followed by what lies between them, without commas. */
  lemma CleanParenthesized(m: string)
    requires IsMatch(m)
    requires |m| >= 2 && m[0] == '(' && m[|m| - 1] == ')'
    ensures Clean(m) == "-" + Remove(m[1..|m| - 1], ',')
  {
    var mid := m[1..|m| - 1];
    assert '(' !in mid && ')' !in mid by {
      MatchParens(m);
      forall i | 0 <= i < |mid|
        ensures mid[i] != '(' && mid[i] != ')'
      {
        assert mid[i] == m[i + 1];
      }
    }
    var rm := Remove(mid, ',');
    var t := Remove(m, ',');
    assert t == ['('] + rm + [')'] by {
      Bracketed(m);
      RemoveWrapped('(', mid, ')', ',');
    }
    assert '(' in t && ')' in t by {
      assert t[0] == '(' && t[|t| - 1] == ')';
    }
    assert '(' !in rm && ')' !in rm by {
      RemoveKeeps(mid, ',', '(');
      RemoveKeeps(mid, ',', ')');
    }
    assert Remove(t, '(') == rm + [')'] by {
      RemoveWrapped('(', rm, ')', '(');
      RemoveAbsent(rm, '(');
    }
    assert Remove(rm + [')'], ')') == rm by {
      RemoveAppend(rm, [')'], ')');
      RemoveAbsent(rm, ')');
      assert Remove([')'], ')') == [] + Remove([], ')');
    }
  }

  /** Any other match, including one with a single parenthesis, only loses its commas. */
  lemma CleanUnparenthesized(m: string)
    requires IsMatch(m)
    requires !(|m| >= 2 && m[0] == '(' && m[|m| - 1] == ')')
    ensures Clean(m) == Remove(m, ',')
  {
    MatchParens(m);
    var t := Remove(m, ',');
    RemoveKeeps(m, ',', '(');
    RemoveKeeps(m, ',', ')');
  }

  /**
   * How a match is rewritten: a match that opens with '(' and closes with ')'
   * becomes '-' followed by what lies between them, without commas; any other
   * match, including one with a single parenthesis, only loses its commas.
   */
  lemma CleanMatch(m: string)
    requires IsMatch(m)
    ensures |m| > 0
    ensures |m| >= 2 && m[0] == '(' && m[|m| - 1] == ')' ==>
              Clean(m) == "-" + Remove(m[1..|m| - 1], ',')
    ensures !(|m| >= 2 && m[0] == '(' && m[|m| - 1] == ')') ==> Clean(m) == Remove(m, ',')
  {
    MatchParens(m);
    if |m| >= 2 && m[0] == '(' && m[|m| - 1] == ')' {
      CleanParenthesized(m);
    } else {
      CleanUnparenthesized(m);
    }
  }

  /** A string holding a digit character has a digit. */
  lemma HasDigitOf(t: string, x: char)
    requires x in t && IsDigit(x)
    ensures HasDigit(t)
  {
    var k :| 0 <= k < |t| && t[k] == x;
  }

  /** A cleaned match holds no comma and still holds a digit. */
  lemma CleanedToken(m: string)
    requires IsMatch(m)
    ensures ',' !in Clean(m)
    ensures HasDigit(Clean(m))
  {
    assert HasDigit(m) by {
      MatchParens(m);
    }
    var d :| 0 <= d < |m| && IsDigit(m[d]);
    if |m| >= 2 && m[0] == '(' && m[|m| - 1] == ')' {
      var mid := m[1..|m| - 1];
      var r := Remove(mid, ',');
      assert Clean(m) == ['-'] + r by {
        CleanParenthesized(m);
      }
      assert m[d] in r by {
        assert mid[d - 1] == m[d];
        RemoveKeeps(mid, ',', m[d]);
      }
      RemoveKeeps(mid, ',', ',');
      HasDigitOf(['-'] + r, m[d]);
    } else {
      assert Clean(m) == Remove(m, ',') by {
        CleanUnparenthesized(m);
      }
      RemoveKeeps(m, ',', m[d]);
      RemoveKeeps(m, ',', ',');
      HasDigitOf(Remove(m, ','), m[d]);
    }
  }

  /**
   * A negative number in parentheses gets a second minus: the match "(-5)"
   * becomes "--5".
   */
  lemma ParenthesizedNegative(m: string)
    requires IsMatch(m)
    requires |m| >= 3 && m[0] == '(' && m[1] == '-' && m[|m| - 1] == ')'
    ensures Clean(m) == "--" + Remove(m[2..|m| - 1], ',')
  {
    CleanParenthesized(m);
    assert m[1..|m| - 1] == ['-'] + m[2..|m| - 1];
    RemoveAppend(['-'], m[2..|m| - 1], ',');
    assert Remove(['-'], ',') == ['-'] + Remove([], ',');
  }

  /** The sign rewriting on short examples: a single parenthesis is kept as it is. */
  lemma CleanExamples()
    ensures Clean("(5)") == "-5"
    ensures Clean("(5") == "(5"
    ensures Clean("5)") == "5)"
  {
    assert "(5)"[0] == '(' && "(5)"[2] == ')';
  }

  // ---------------------------------------------------------------------
  // extract_numbers
  // ---------------------------------------------------------------------

  /** What `extract_numbers(line)` returns. */
  function Numbers(line: string): seq<string> {
    var found := FindAll(line);
    seq(|found|, i requires 0 <= i < |found| => Clean(found[i]))
  }

  /**
   * The numbers of a line come one per match, in the order of the matches;
   * none holds a comma and each holds a digit, so a line without a digit has
   * no numbers.
   */
  lemma NumbersProperties(line: string)
    ensures |Numbers(line)| == |FindAll(line)|
    ensures forall i :: 0 <= i < |Numbers(line)| ==> Numbers(line)[i] == Clean(FindAll(line)[i])
    ensures forall i :: 0 <= i < |Numbers(line)| ==> ',' !in Numbers(line)[i] && HasDigit(Numbers(line)[i])
    ensures !HasDigit(line) ==> Numbers(line) == []
  {
    var found := FindAll(line);
    FindAllAreMatches(line);
    forall i | 0 <= i < |found|
      ensures ',' !in Clean(found[i]) && HasDigit(Clean(found[i]))
    {
      CleanedToken(found[i]);
    }
    if |found| > 0 {
      var sp := Spans(line, 0)[0];
      var m := found[0];
      assert m == line[sp.start..sp.end];
      MatchParens(m);
      var d :| 0 <= d < |m| && IsDigit(m[d]);
      assert line[sp.start + d] == m[d];
    }
  }

  /** One attempt of the pattern at `p`, part by part: the length of the match there, 0 if none. */
  method MatchAt(line: string, p: nat) returns (n: nat)
    requires p <= |line|
    ensures n == MatchLength(line, p)
  {
    var q := p;
    if q < |line| && line[q] == '(' {
      q := q + 1;
    }
    assert MatchEnd(line, p, Open) == MatchEnd(line, q, Sign);
    ghost var afterParen := q;
    if q < |line| && line[q] == '-' {
      q := q + 1;
    }
    assert MatchEnd(line, afterParen, Sign) == MatchEnd(line, q, First);
    if q < |line| && IsDigit(line[q]) {
      q := q + 1;
      ghost var first := q;
      while q < |line| && IsBodyChar(line[q])
        invariant first <= q <= |line|
        invariant MatchEnd(line, q, Run) == MatchEnd(line, first, Run)
        decreases |line| - q
      {
        q := q + 1;
      }
      if q < |line| && line[q] == ')' {
        q := q + 1;
      }
      n := q - p;
    } else {
      n := 0;
    }
  }

  /** `re.findall`: scan from the left, take the match at the current position or move one character on. */
  method FindAllMatches(line: string) returns (matches: seq<string>)
    ensures matches == FindAll(line)
  {
    matches := [];
    var p := 0;
    assert [] + Found(line, 0) == Found(line, 0);
    while p < |line|
      invariant p <= |line|
      invariant matches + Found(line, p) == FindAll(line)
      decreases |line| - p
    {
      var n := MatchAt(line, p);
      if n > 0 {
        var token := line[p..p + n];
        FoundTake(line, p);
        assert (matches + [token]) + Found(line, p + n) == matches + ([token] + Found(line, p + n));
        matches := matches + [token];
        p := p + n;
      } else {
        FoundSkip(line, p);
        p := p + 1;
      }
    }
    assert matches + [] == matches;
  }

  /** `extract_numbers`: find the matches, then clean each one in turn. */
  method ExtractNumbers(line: string) returns (numbers: seq<string>)
    ensures numbers == Numbers(line)
  {
    var found := FindAllMatches(line);
    numbers := [];
    for i := 0 to |found|
      invariant |numbers| == i
      invariant forall j :: 0 <= j < i ==> numbers[j] == Clean(found[j])
    {
      var num := Remove(found[i], ',');
      if '(' in num && ')' in num {
        num := "-" + Remove(Remove(num, '('), ')');
      }
      assert num == Clean(found[i]);
      numbers := numbers + [num];
    }
  }
}
