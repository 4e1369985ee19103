# Income-statement extraction pipeline, in Dafny

This project models the text-to-rows pipeline of `main.py`, a small web
service. The service takes a financial PDF and returns a CSV of
income-statement line items. The model covers everything between the page
texts the PDF library extracts and the rows handed to the CSV writer, in five
parts:

- **Page text** (`page_text.dfy`, module `PageText`). The page loop of
  `extract_text_from_pdf`. It reads at most the first 40 pages. A page
  without text, or with empty text, adds nothing. Any other page adds its
  text and a line break. The pages are an input sequence of optional
  strings; `ExtractText` is the loop and `DocumentText` is its specification.
- **Candidate lines** (`line_filter.dfy`, module `LineFilter`). The loop of
  `get_income_statement_lines`. The text is split at line breaks and each
  line is stripped. A stripped line is kept when it holds a digit and its
  lower-case form mentions one of nine financial terms. The filter
  `Candidates` works for any test and is used with `IsCandidate`.
- **Numbers** (`number_parser.dfy`, module `NumberParser`). The body of
  `extract_numbers`, in three layers:
  - The regular expression `\(?-?\d[\d,\.]*\)?` is written as a language of
    five stages, `Accepts`/`IsMatch`.
  - A greedy matcher, `MatchEnd`/`MatchLength`, is proved to return the
    longest match at each position. For this pattern, that is the match
    Python's backtracking engine returns.
  - `re.findall` becomes the leftmost, non-overlapping scan `Spans`/`FindAll`.
    `Clean` does the comma removal and the parenthesis rewriting.
  - `MatchAt`, `FindAllMatches` and `ExtractNumbers` are the index-advancing
    loops, each proved equal to its specification function.
- **Labels** (`label_normalizer.dfy`, module `LabelNormalizer`).
  `normalize_label` is kept as its if/elif chain (`Chain`). It is proved
  equal to a first-match reading of an ordered rule table (`Rules`,
  `FirstMatch`), and the table's properties are proved once for any table.
- **Rows** (`extraction.dfy`, module `Extraction`). The row loop and the
  fallback of `extract_financials`:
  - `BuildRows` is the loop. `ExtractFinancials` chains the page loop, the
    filter, the row loop and the fallback, and is proved equal to `Pipeline`.
  - `SplitValues` reads a "Values Found" cell back into its numbers.

`strings.dfy` (module `Strings`) holds the pieces of Python string behaviour
used throughout, on ASCII text: `lower`, `strip`, `split("\n")`, `join`,
substring tests and `\d`. `option.dfy` holds the `Option` type.

## Model

| member | source | states |
|---|---|---|
| PageText.Contribution | main.py:28-30 | a page adds nothing when it has no text or empty text, and otherwise its text followed by a line break |
| PageText.Concat | main.py:24-31 | the text of a run of pages is the contributions of its pages, in page order |
| PageText.DocumentText | main.py:23-31 | the text `extract_text_from_pdf` returns is the text of the pages read |
| PageText.ReadPages | main.py:27 | at most 40 pages are read; they are a prefix of the pages, and all of them when there are 40 or fewer |
| PageText.ExtractText | main.py:23-31 | the page loop returns the concatenation, page by page, of the contributions of the first 40 pages |
| PageText.ConcatAppend | main.py:27-30 | the text of two runs of pages is the text of the first run followed by the text of the second |
| PageText.BlankPageContributesNothing | main.py:28-30 | a page without text, or with empty text, leaves the text of a run of pages as if the page were absent |
| PageText.PageContributes | main.py:27-30 | a page with text among the first 40 contributes exactly its text and a line break, after all earlier pages and before all later ones |
| PageText.LaterPagesIgnored | main.py:27 | pages after the 40th never change the document text |
| Strings.IsDigit | main.py:52 | the regex class `\d` on ASCII text, also used at main.py:62: exactly the characters `0` to `9` |
| Strings.HasDigit | main.py:52 | `re.search(r"\d", s)` succeeds: some character of the string is a digit |
| Strings.IsSpace | main.py:48 | the characters `strip()` removes: those for which ASCII `str.isspace` holds, namely space, tab, line feed, carriage return, vertical tab, form feed and `\x1c` to `\x1f` |
| Strings.Lower | main.py:49 | `lower()` on ASCII: the result has the same length and no upper-case letter; each upper-case letter becomes its lower-case partner, and every other character stays in place |
| Strings.Contains | main.py:80-93 | `sub in s`: the piece occurs at some position of the string |
| Strings.Join | main.py:122 | `sep.join(parts)`: the parts in order with the separator between neighbours, and the empty string for no parts |
| Strings.Strip | main.py:48 | the stripped line has whitespace at neither end |
| Strings.StripRemovesSpace | main.py:48 | the stripped line is a piece of the line with only whitespace before it and only whitespace after it |
| Strings.SplitLines | main.py:38 | the split gives at least one piece, no piece holds a line break, and joining the pieces with line breaks gives back the text |
| Strings.SplitLinesUnique | main.py:38 | any non-empty list of line-break-free pieces that joins back to the text is the split |
| LineFilter.MentionsTerm | main.py:41-52 | the lower-case line contains one of the nine financial terms |
| LineFilter.IsCandidate | main.py:52 | a stripped line holds a digit and its lower-case form mentions a term |
| LineFilter.Candidates | main.py:47-53 | the stripped form of each line that passes the test, in the order of the lines |
| LineFilter.IncomeStatementLines | main.py:37-55 | `get_income_statement_lines` is that filter, with `IsCandidate` as the test, over the split text |
| LineFilter.GetIncomeStatementLines | main.py:37-55 | the filter loop returns the stripped lines of the text that pass both tests, in their order |
| LineFilter.CandidatesAppend | main.py:47-53 | filtering two runs of lines gives the kept lines of the first run followed by those of the second, so the order is kept |
| LineFilter.CandidatesSound | main.py:47-53 | every kept string passes the test and is the stripped form of some input line |
| LineFilter.CandidatesComplete | main.py:47-53 | every input line whose stripped form passes the test is kept, stripped |
| LineFilter.CandidatesExactly | main.py:47-53 | a string is kept if and only if it passes the test and is the stripped form of some input line |
| LineFilter.IncomeStatementLinesSound | main.py:37-55 | every returned line holds a digit, mentions a term, and is a stripped line of the text |
| LineFilter.IncomeStatementLinesComplete | main.py:37-55 | every line of the text whose stripped form holds a digit and mentions a term is returned, stripped |
| LineFilter.CandidatesAreTrimmed | main.py:48-53 | every returned line has whitespace at neither end, holds a digit and mentions one of the nine terms |
| LineFilter.NoDigitNoCandidate | main.py:52 | a line without a digit is never returned, whatever terms it mentions |
| NumberParser.Accepts | main.py:62 | the language of the pattern from each stage on: an optional `(`, an optional `-`, a digit, a run of digits, commas and dots, and an optional `)` at the very end |
| NumberParser.IsMatch | main.py:62 | a string matches `\(?-?\d[\d,\.]*\)?` as a whole |
| NumberParser.MatchEnd | main.py:62 | the greedy matcher ends inside the line, consumes at least one character when a digit is still needed, and never fails once the digit has been read |
| NumberParser.MatchLength | main.py:62 | the match at a position never runs past the end of the line |
| NumberParser.MatchEndSound | main.py:62 | the piece the greedy matcher consumes is accepted by the pattern from that stage |
| NumberParser.MatchEndLongest | main.py:62 | any piece accepted from a stage is consumed by the matcher, which goes at least as far |
| NumberParser.MatchLengthIsLongestMatch | main.py:62 | the match at a position is the longest piece there that matches the pattern; no longer piece matches, and a length of 0 means no piece matches |
| NumberParser.Spans | main.py:62 | the findall scan: take the match at the current position and go on from its end, or move one character on where no match starts |
| NumberParser.FindAll | main.py:62 | `re.findall` on a line is the text of each span of the scan from position 0, in order |
| NumberParser.SpansWithin | main.py:62 | every span of the scan lies inside the line, is non-empty and starts at or after the scan's start |
| NumberParser.IsScan | main.py:62 | the leftmost, longest, non-overlapping scan: no match starts before the first span, each span is the longest match at its start, the rest is the scan from its end, and there are no spans when no match starts after the scan's start |
| NumberParser.SpansIsScan | main.py:62 | the spans are a leftmost, longest, non-overlapping scan: no match starts in a gap, and each span is the longest match at its start |
| NumberParser.ScanInOrder | main.py:62 | the spans are in the line, each is the longest match at its start, and they appear in left-to-right order without overlap |
| NumberParser.TextsAt | main.py:62 | the i-th text of the scan is the piece of the line under the i-th span |
| NumberParser.FindAllAreMatches | main.py:62 | `re.findall` returns one token per span of a leftmost scan; each token is the piece of the line under its span and matches the pattern, and the spans run left to right |
| NumberParser.Clean | main.py:66-68 | commas are removed; then, when both `(` and `)` remain, they are removed and a minus sign is put in front |
| NumberParser.Numbers | main.py:61-71 | `extract_numbers` is the cleaned form of each token of `re.findall`, in order |
| NumberParser.Remove | main.py:66-68 | `s.replace(c, "")`: every copy of `c` removed and the other characters kept in their order |
| NumberParser.RemoveKeeps | main.py:66 | removing a character keeps every other character and drops every copy of that one |
| NumberParser.RemoveAppend | main.py:66 | removing a character from two joined pieces removes it from each piece |
| NumberParser.RemoveAbsent | main.py:66 | removing a character that does not occur changes nothing |
| NumberParser.AcceptsShape | main.py:62 | a piece accepted from a stage has `(` at most at its front, `)` at most at its end, and a digit when the stage still needs one |
| NumberParser.MatchParens | main.py:62 | a match is non-empty, holds a digit, has `(` only at its front and `)` only at its end |
| NumberParser.CleanParenthesized | main.py:66-68 | a match with both parentheses becomes a minus followed by the inside with its commas removed |
| NumberParser.CleanUnparenthesized | main.py:66-67 | a match without both parentheses only loses its commas, so a single parenthesis is kept |
| NumberParser.CleanMatch | main.py:66-68 | both cases of the rewriting of a match, in one statement |
| NumberParser.CleanedToken | main.py:65-69 | every cleaned token holds no comma and holds a digit |
| NumberParser.ParenthesizedNegative | main.py:67-68 | a match of the form `(-…)` becomes two minus signs followed by the digits, so `(-5)` gives `--5` |
| NumberParser.CleanExamples | main.py:66-68 | `(5)` gives `-5`, while `(5` and `5)` keep their single parenthesis |
| NumberParser.NumbersProperties | main.py:61-71 | there is one number per match, in order, each the cleaned match; none holds a comma, each holds a digit, and a line without a digit yields none |
| NumberParser.MatchAt | main.py:62 | the matching loop at one position returns the length of the longest match there |
| NumberParser.FindAllMatches | main.py:62 | the scanning loop returns exactly the tokens of `re.findall` |
| NumberParser.ExtractNumbers | main.py:61-71 | the loop of `extract_numbers` returns the cleaned tokens, in order |
| LabelNormalizer.NormalizeLabel | main.py:77-95 | the label is the chain applied to the lower-case line |
| LabelNormalizer.Chain | main.py:80-95 | the seven phrase tests in their order, each returning its label, with UNKNOWN when none succeeds |
| LabelNormalizer.Rules | main.py:80-93 | the seven (phrases, label) pairs of the chain, in its order |
| LabelNormalizer.Fires | main.py:80-93 | a rule fires on the lower-case line when one of its phrases occurs in it |
| LabelNormalizer.FirstMatch | main.py:80-95 | the label of the first rule that fires on the lower-case line, UNKNOWN when none does |
| LabelNormalizer.LaterRules | main.py:86-95 | the last four rules of the table, read in order, give the last four branches of the chain |
| LabelNormalizer.ChainIsFirstMatch | main.py:80-95 | the if/elif chain is the first-match reading of the seven-rule table |
| LabelNormalizer.NormalizeLabelIsFirstMatch | main.py:77-95 | `normalize_label` lower-cases the line and returns the label of the first rule that fires |
| LabelNormalizer.FirstMatchIsFirst | main.py:80-95 | for any table: no rule fires and the result is UNKNOWN, or the result is the label of a rule that fires with no earlier rule firing |
| LabelNormalizer.FirstFiringRuleWins | main.py:80-95 | for any table, a rule that fires with no earlier rule firing decides the label |
| LabelNormalizer.NormalizeLabelByPriority | main.py:77-95 | the label is UNKNOWN if and only if no rule fires on the lower-case line; otherwise it is the label of the first rule that fires |
| LabelNormalizer.NormalizeLabelClosed | main.py:80-95 | the label is always one of the eight strings |
| LabelNormalizer.RuleLabelsDistinct | main.py:80-93 | the seven rules have pairwise different labels, none of them UNKNOWN |
| LabelNormalizer.NetSalesWins | main.py:80-81 | the "total net sales" test is redundant with "net sales", and any line mentioning "net sales" is Revenue whatever else it mentions |
| LabelNormalizer.NormalizeLabelIgnoresCase | main.py:78 | a line and its lower-case form get the same label |
| LabelNormalizer.NetSalesExample | main.py:80-91 | "Net sales and net income both rose" is labelled Revenue |
| LabelNormalizer.StepsExample | main.py:92-93 | "Steps 12" is labelled EPS, because "eps" occurs inside "steps" |
| Extraction.Qualifies | main.py:114-118 | a line is kept when its label is not UNKNOWN and at least one number was found |
| Extraction.RowOf | main.py:119-123 | the row of a line is the line, its label, and its numbers joined with ", " |
| Extraction.Rows | main.py:113-124 | the rows of the qualifying lines, one per line, in the order of the lines |
| Extraction.Table | main.py:127-135 | the rows, or the single INFO row with the fixed message and empty values when there are none |
| Extraction.Pipeline | main.py:106-135 | the endpoint's table is built from the candidate lines of the text of the pages read |
| Extraction.SplitValues | main.py:122 | reading a "Values Found" cell back: the pieces between the ", " separators |
| Extraction.BuildRows | main.py:113-124 | the row loop returns one row per qualifying line, in order |
| Extraction.ExtractFinancials | main.py:106-135 | the endpoint's table is the rows of the candidate lines of the first 40 pages, or the INFO row alone when there are none |
| Extraction.SplitValuesJoin | main.py:122 | a cell joined with ", " from one or more comma-free pieces splits back into exactly those pieces |
| Extraction.JoinHasDigit | main.py:122 | a joined cell whose first piece holds a digit holds a digit |
| Extraction.RowsAppend | main.py:113-124 | the rows of two runs of lines are the rows of the first run followed by those of the second |
| Extraction.RowsOfOne | main.py:118-124 | a single line yields its row when its label is known and it has numbers, and nothing otherwise |
| Extraction.RowsAround | main.py:113-124 | each line's rows sit after the rows of the lines before it and before the rows of the lines after it |
| Extraction.RowsSound | main.py:118-124 | every row is the row of some qualifying line |
| Extraction.RowsComplete | main.py:118-124 | every qualifying line has its row among the rows |
| Extraction.RowsEmpty | main.py:118-130 | there are no rows if and only if no line qualifies |
| Extraction.RowOfQualifying | main.py:114-123 | a qualifying line's row keeps the raw line and has a known label other than UNKNOWN and INFO; its "Values Found" cell holds a digit and splits back into exactly the line's numbers |
| Extraction.TableShape | main.py:127-135 | the table is never empty; it is the INFO row alone if and only if no line qualifies, and otherwise it holds no INFO row |
| Extraction.TableRowsSound | main.py:118-135 | every row of the table other than the INFO row is the row of a qualifying line among the input lines |
| Extraction.RowsComeFromCandidates | main.py:106-135 | every row of the endpoint's table other than the INFO row is the row of a qualifying candidate line of the document |
| Extraction.PipelineIgnoresLaterPages | main.py:27 | pages after the 40th never change the endpoint's table |

## Left out

- The FastAPI application, the CORS middleware, the endpoint decorator, the
  asynchronous `file.read()` and the `StreamingResponse` (main.py:9-18,
  101-103, 141-145) are transport. They are not modelled.
- `pdfplumber.open` and `page.extract_text()` (main.py:25, 28) are calls
  into a PDF library. The model takes their results as an input sequence of
  optional page texts. A malformed document makes the library raise an
  error; `main.py` has no error path of its own for that, so the model has
  none either.
- The pandas `DataFrame` and `to_csv` (main.py:127, 137-138) are library
  behaviour: CSV quoting, the header line and escaping. The model stops at
  the sequence of row records. `df.empty` is modelled as "no rows", which is
  what it means for a frame built from a list of three-column records.
- Python's Unicode semantics for `str.lower`, `str.strip` and the regex
  class `\d` are not modelled. The model works on ASCII: `A`–`Z` lower-case,
  the ASCII whitespace characters and the digits `0`–`9`. Non-ASCII
  characters are treated as ordinary characters.
- NumberParser.MatchLength: is proved to be the longest match at its
  position. It is not proved against a model of Python's backtracking
  engine. For this pattern the two agree, for two reasons:
  - Suppose the engine takes a `(` or `-` and the attempt then fails. Then
    leaving it out fails too, because `\d` would face that same non-digit
    character.
  - The `[\d,\.]*` run is never given back, because the `\)?` after it
    always succeeds.
