/**
 * `get_income_statement_lines`: split the document text into lines, strip
 * each one, and keep a stripped line when it holds a digit and its lower-case
 * form mentions one of the financial terms.
 */
module LineFilter {
  import opened Strings

  /** The nine terms of which a candidate line must mention at least one. */
  const FinancialTerms: seq<string> := [
    "revenue", "sales", "cost", "gross",
    "operating income", "operating expenses",
    "net income", "earnings per share", "eps"
  ]

  predicate MentionsTerm(lower: string) {
    exists k :: 0 <= k < |FinancialTerms| && Contains(lower, FinancialTerms[k])
  }

  /** The test applied to an already stripped line. */
  predicate IsCandidate(clean: string) {
    HasDigit(clean) && MentionsTerm(Lower(clean))
  }

  /**
   * The lines of `lines`, stripped, whose stripped form passes `keep`, in
   * their order. The filter uses `IsCandidate`; its lemmas hold for any test.
   */
  function Candidates(lines: seq<string>, keep: string -> bool): seq<string> {
    if lines == [] then []
    else
      var clean := Strip(lines[|lines| - 1]);
      Candidates(lines[..|lines| - 1], keep) + if keep(clean) then [clean] else []
  }

  /** The lines `get_income_statement_lines(text)` returns. */
  function IncomeStatementLines(text: string): seq<string> {
    Candidates(SplitLines(text), IsCandidate)
  }

  /** The filter loop over the lines of `text`. */
  method GetIncomeStatementLines(text: string) returns (extracted: seq<string>)
    ensures extracted == IncomeStatementLines(text)
  {
    var lines := SplitLines(text);
    extracted := [];
    for i := 0 to |lines|
      invariant extracted == Candidates(lines[..i], IsCandidate)
    {
      assert lines[..i + 1][..i] == lines[..i];
      var clean := Strip(lines[i]);
      var lower := Lower(clean);
      if HasDigit(clean) && MentionsTerm(lower) {
        extracted := extracted + [clean];
      }
    }
    assert lines[..|lines|] == lines;
  }

  /** Filtering two runs of lines gives the kept lines of the first run, then those of the second. */
  lemma {:induction false} CandidatesAppend(a: seq<string>, b: seq<string>, keep: string -> bool)
    ensures Candidates(a + b, keep) == Candidates(a, keep) + Candidates(b, keep)
    decreases |b|
  {
    if b == [] {
      assert a + b == a;
    } else {
      var b' := b[..|b| - 1];
      assert (a + b)[..|a + b| - 1] == a + b';
      assert (a + b)[|a + b| - 1] == b[|b| - 1];
      CandidatesAppend(a, b', keep);
    }
  }

  /** Every kept line passes the test and is the stripped form of some input line. */
  lemma {:induction false} CandidatesSound(lines: seq<string>, keep: string -> bool, clean: string)
    requires clean in Candidates(lines, keep)
    ensures keep(clean)
    ensures exists i :: 0 <= i < |lines| && Strip(lines[i]) == clean
  {
    var init := lines[..|lines| - 1];
    if clean in Candidates(init, keep) {
      CandidatesSound(init, keep, clean);
      var i :| 0 <= i < |init| && Strip(init[i]) == clean;
      assert lines[i] == init[i];
    } else {
      assert Strip(lines[|lines| - 1]) == clean;
    }
  }

  /** Every input line whose stripped form passes the test is kept, stripped. */
  lemma {:induction false} CandidatesComplete(lines: seq<string>, keep: string -> bool, i: nat)
    requires i < |lines|
    requires keep(Strip(lines[i]))
    ensures Strip(lines[i]) in Candidates(lines, keep)
  {
    var init := lines[..|lines| - 1];
    if i < |init| {
      assert init[i] == lines[i];
      CandidatesComplete(init, keep, i);
      assert Candidates(init, keep) <= Candidates(lines, keep);
    } else {
      assert Candidates(lines, keep) == Candidates(init, keep) + [Strip(lines[i])];
    }
  }

  /**
   * A string is kept exactly when it passes the test and is the stripped
   * form of some input line.
   */
  lemma CandidatesExactly(lines: seq<string>, keep: string -> bool, clean: string)
    ensures clean in Candidates(lines, keep)
        <==> keep(clean) && exists i :: 0 <= i < |lines| && Strip(lines[i]) == clean
  {
    if clean in Candidates(lines, keep) {
      CandidatesSound(lines, keep, clean);
    }
    if keep(clean) && exists i :: 0 <= i < |lines| && Strip(lines[i]) == clean {
      var i :| 0 <= i < |lines| && Strip(lines[i]) == clean;
      CandidatesComplete(lines, keep, i);
    }
  }

  /** Every line `get_income_statement_lines` returns is a stripped line of the text that passes both tests. */
  lemma IncomeStatementLinesSound(text: string, clean: string)
    requires clean in IncomeStatementLines(text)
    ensures IsCandidate(clean)
    ensures exists i :: 0 <= i < |SplitLines(text)| && Strip(SplitLines(text)[i]) == clean
  {
    CandidatesSound(SplitLines(text), IsCandidate, clean);
  }

  /** Every line of the text whose stripped form passes both tests is returned, stripped. */
  lemma IncomeStatementLinesComplete(text: string, i: nat)
    ensures i < |SplitLines(text)| && IsCandidate(Strip(SplitLines(text)[i]))
            ==> Strip(SplitLines(text)[i]) in IncomeStatementLines(text)
  {
    if i < |SplitLines(text)| && IsCandidate(Strip(SplitLines(text)[i])) {
      CandidatesComplete(SplitLines(text), IsCandidate, i);
    }
  }

  /** Every kept line has whitespace at neither end, holds a digit and mentions a term. */
  lemma CandidatesAreTrimmed(text: string, clean: string)
    requires clean in IncomeStatementLines(text)
    ensures IsTrimmed(clean) && HasDigit(clean) && MentionsTerm(Lower(clean))
  {
    IncomeStatementLinesSound(text, clean);
  }

  /** A line without a digit is never kept, whatever terms it mentions. */
  lemma NoDigitNoCandidate(text: string, line: string)
    requires line in SplitLines(text)
    requires !HasDigit(line)
    ensures Strip(line) !in IncomeStatementLines(text)
  {
    var clean := Strip(line);
    if clean in IncomeStatementLines(text) {
      IncomeStatementLinesSound(text, clean);
      StripRemovesSpace(line);
      assert false;
    }
  }
}
