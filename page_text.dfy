/**
 * The page loop of `extract_text_from_pdf`: the text the PDF library extracted
 * from each page (absent when a page yields none) is concatenated, page by
 * page, for the first `PageLimit` pages only.
 */
module PageText {
  import opened Options
  import opened Strings

  /** Only this many pages are ever read. */
  const PageLimit: nat := 40

  /** What one page adds to the document text: nothing for a page without text, else its text and a line break. */
  function Contribution(page: Option<string>): string {
    match page
    case Some(t) => if t != "" then t + "\n" else ""
    case None => ""
  }

  /** The pages, in order, each contributing its text. */
  function Concat(pages: seq<Option<string>>): string {
    if pages == [] then ""
    else Concat(pages[..|pages| - 1]) + Contribution(pages[|pages| - 1])
  }

  /** The pages that are read: at most the first `PageLimit`. */
  function ReadPages(pages: seq<Option<string>>): (r: seq<Option<string>>)
    ensures |r| <= PageLimit
    ensures r <= pages
    ensures |pages| <= PageLimit ==> r == pages
  {
    if |pages| <= PageLimit then pages else pages[..PageLimit]
  }

  /** The document text `extract_text_from_pdf` returns. */
  function DocumentText(pages: seq<Option<string>>): string {
    Concat(ReadPages(pages))
  }

  /** The page loop itself: `text += page_text + "\n"` for each of the first 40 pages that has text. */
  method ExtractText(pages: seq<Option<string>>) returns (text: string)
    ensures text == DocumentText(pages)
  {
    var read := if |pages| < PageLimit then |pages| else PageLimit;
    text := "";
    for i := 0 to read
      invariant text == Concat(pages[..i])
    {
      assert Concat(pages[..i + 1]) == text + Contribution(pages[i]) by {
        assert pages[..i + 1][..i] == pages[..i];
      }
      match pages[i]
      case Some(pageText) =>
        if pageText != "" {
          text := text + (pageText + "\n");
        }
      case None =>
    }
    assert pages[..read] == ReadPages(pages);
  }

  /** Concatenating the pages of two runs of pages gives the text of both runs, in order. */
  lemma {:induction false} ConcatAppend(a: seq<Option<string>>, b: seq<Option<string>>)
    ensures Concat(a + b) == Concat(a) + Concat(b)
    decreases |b|
  {
    if b == [] {
      assert a + b == a;
    } else {
      var b', last := b[..|b| - 1], b[|b| - 1];
      assert Concat(a + b) == Concat(a + b') + Contribution(last) by {
        assert (a + b)[..|a + b| - 1] == a + b';
        assert (a + b)[|a + b| - 1] == last;
      }
      ConcatAppend(a, b');
      assert Concat(b) == Concat(b') + Contribution(last);
      AppendAssoc(Concat(a), Concat(b'), Contribution(last));
    }
  }

  /** A page without text, or with empty text, leaves the text of a run of pages as if it were not there. */
  lemma BlankPageContributesNothing(before: seq<Option<string>>, after: seq<Option<string>>, page: Option<string>)
    requires page == None || page == Some("")
    ensures Concat(before + [page] + after) == Concat(before + after)
  {
    assert Concat(before + [page]) == Concat(before) by {
      assert (before + [page])[..|before|] == before;
    }
    ConcatAppend(before + [page], after);
    ConcatAppend(before, after);
  }

  /**
   * Each page among the first `PageLimit` that has text contributes exactly
   * that text followed by a line break, after everything the earlier pages
   * contributed and before everything the later pages contributed.
   */
  lemma PageContributes(pages: seq<Option<string>>, i: nat, t: string)
    requires i < |pages| && i < PageLimit
    requires pages[i] == Some(t) && t != ""
    ensures DocumentText(pages)
         == Concat(pages[..i]) + t + "\n" + Concat(ReadPages(pages)[i + 1..])
  {
    var r := ReadPages(pages);
    var upTo := r[..i + 1];
    assert Concat(upTo) == Concat(pages[..i]) + (t + "\n") by {
      assert upTo[..i] == pages[..i];
    }
    assert Concat(r) == Concat(upTo) + Concat(r[i + 1..]) by {
      assert upTo + r[i + 1..] == r;
      ConcatAppend(upTo, r[i + 1..]);
    }
    assert Concat(pages[..i]) + t + "\n" == Concat(upTo) by {
      AppendAssoc(Concat(pages[..i]), t, "\n");
    }
  }

  /** Pages after the first `PageLimit` never reach the document text. */
  lemma {:induction false} LaterPagesIgnored(pages: seq<Option<string>>, extra: seq<Option<string>>)
    requires |pages| >= PageLimit
    ensures DocumentText(pages + extra) == DocumentText(pages)
  {
    assert (pages + extra)[..PageLimit] == pages[..PageLimit];
    assert ReadPages(pages + extra) == ReadPages(pages);
  }
}
