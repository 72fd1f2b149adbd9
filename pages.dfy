/**
 * The page handling of `preprocess_file` and `extract_text_from_page`
 * (app/endpoints/processing.py): a page whose two half-page columns have
 * nearly the same number of lines is read column by column, any other page
 * as a whole, and the pages' texts are joined with a blank line.
 *
 * The three texts pdfplumber extracts from a page (left half, right half,
 * whole page) are inputs, with a missing text already read as "".
 */
module Pages {
  import opened PyStr

  /** Line counts closer than this mean the page has two columns. */
  const ColumnTolerance: int := 10

  /** What pdfplumber extracts from one page. */
  datatype Page = Page(left: string, right: string, whole: string)

  /** `len(text.split('\n'))`. */
  function LineCount(text: string): (n: nat)
    ensures n == Occurrences(text, '\n') + 1
  {
    SplitCount(text, '\n');
    |Split(text, '\n')|
  }

  function Abs(x: int): nat {
    if x < 0 then -x else x
  }

  /** The page's two columns have close enough line counts to be read one after the other. */
  predicate TwoColumns(p: Page) {
    Abs(LineCount(p.left) - LineCount(p.right)) < ColumnTolerance
  }

  /**
   * `extract_text_from_page`, once the three texts are extracted. The
   * decision depends only on how many newlines the two columns hold: the
   * columns are kept when those counts differ by less than ten, and the
   * whole-page text is taken otherwise.
   */
  function PageText(p: Page): (t: string)
    ensures Abs(Occurrences(p.left, '\n') - Occurrences(p.right, '\n')) < 10 ==> t == p.left + "\n\n" + p.right
    ensures Abs(Occurrences(p.left, '\n') - Occurrences(p.right, '\n')) >= 10 ==> t == p.whole
  {
    if TwoColumns(p) then p.left + "\n\n" + p.right else p.whole
  }

  /**
   * The text of the whole document: the page texts joined with a blank line.
   * No pages give the empty text, and the text starts with the first page's.
   */
  function DocumentText(pages: seq<Page>): (t: string)
    ensures pages == [] ==> t == ""
    ensures pages != [] ==> |PageText(pages[0])| <= |t| && t[..|PageText(pages[0])|] == PageText(pages[0])
  {
    Join(PageTexts(pages), "\n\n")
  }

  /** The text of each page, in page order. */
  function PageTexts(pages: seq<Page>): (ts: seq<string>)
    ensures |ts| == |pages| && forall i :: 0 <= i < |pages| ==> ts[i] == PageText(pages[i])
  {
    seq(|pages|, i requires 0 <= i < |pages| => PageText(pages[i]))
  }

  lemma PageTextsAppend(pages: seq<Page>, p: Page)
    ensures PageTexts(pages + [p]) == PageTexts(pages) + [PageText(p)]
  {
  }

  /** At the tolerance's edge: nine more lines on one side still reads two columns, ten more does not. */
  lemma ToleranceEdge(p: Page)
    ensures LineCount(p.left) == LineCount(p.right) + 9 ==> PageText(p) == p.left + "\n\n" + p.right
    ensures LineCount(p.left) == LineCount(p.right) + 10 ==> PageText(p) == p.whole
  {
  }

  /** An empty column counts as one line, so two empty columns give a lone blank line. */
  lemma EmptyColumns(whole: string)
    ensures LineCount("") == 1
    ensures PageText(Page("", "", whole)) == "\n\n"
  {
  }

  /** A two-column page's text holds the left column, a blank line and the right column, in that order. */
  lemma TwoColumnLayout(p: Page)
    requires TwoColumns(p)
    ensures PageText(p)[..|p.left|] == p.left
    ensures PageText(p)[|p.left|..|p.left| + 2] == "\n\n"
    ensures PageText(p)[|p.left| + 2..] == p.right
    ensures Occurrences(PageText(p), '\n') == Occurrences(p.left, '\n') + Occurrences(p.right, '\n') + 2
  {
    var t := PageText(p);
    assert t == p.left + "\n\n" + p.right;
    assert multiset(t) == multiset(p.left) + multiset("\n\n") + multiset(p.right);
  }

  /** Each further page adds a blank line and its own text at the end. */
  lemma DocumentAppend(pages: seq<Page>, p: Page)
    ensures pages == [] ==> DocumentText(pages + [p]) == PageText(p)
    ensures pages != [] ==> DocumentText(pages + [p]) == DocumentText(pages) + "\n\n" + PageText(p)
  {
    PageTextsAppend(pages, p);
    if pages != [] {
      JoinAppend(PageTexts(pages), PageText(p), "\n\n");
    }
  }
}
