/**
 * Cell text aggregation of the table extraction demo: walk the OCR engine's
 * words line by line and concatenate the text of every word whose box majorly
 * overlaps a region; a table's cells are the intersections of its row and
 * column rectangles. The engine's result iterator is modelled as the page it
 * walks: a sequence of text lines, each a non-empty sequence of words.
 */
module TableExtraction {
  import opened Rectangles

  datatype Option<+T> = None | Some(value: T)

  /** One recognised word: its UTF-8 text (None when the engine yields no
      text for it) and its bounding box. */
  datatype Word = Word(text: Option<string>, box: Rect)

  /** A text line: the words between two line starts, in reading order. The
      iterator never stands on a line without words. */
  type Line = s: seq<Word> | |s| > 0 witness [Word(None, Rect(0, 0, 0, 0))]

  // ---------------------------------------------------------------------
  // Specification: filter the words of the page, then concatenate

  /** All words of the page in document order. */
  function Flat(lines: seq<Line>): seq<Word> {
    if lines == [] then [] else lines[0] + Flat(lines[1..])
  }

  /** A word contributes to `region` when it has text and its box majorly
      overlaps the region. */
  predicate Picks(region: Rect, w: Word) {
    w.text.Some? && MajorOverlap(region, w.box)
  }

  /** The texts of the words that contribute to `region`, in order. A region
      that is not well-formed selects nothing. */
  function Selected(region: Rect, ws: seq<Word>): (texts: seq<string>)
    ensures !WellFormed(region) ==> texts == []
  {
    if ws == [] then []
    else (if Picks(region, ws[0]) then [ws[0].text.value] else []) + Selected(region, ws[1..])
  }

  /** Concatenation without separator. */
  function Concat(ss: seq<string>): string {
    if ss == [] then "" else ss[0] + Concat(ss[1..])
  }

  /** The text of `region`: empty for a null iterator, otherwise the texts of
      the contributing words of the page, joined without separator. A region
      that is not well-formed collects nothing from any page; this covers
      every region of zero area, in particular the `NoOverlap` sentinel of an
      empty row and column intersection. */
  function RegionText(region: Rect, page: Option<seq<Line>>): (t: string)
    ensures !WellFormed(region) ==> t == ""
  {
    match page
    case None => ""
    case Some(lines) => Concat(Selected(region, Flat(lines)))
  }

  // ---------------------------------------------------------------------
  // Properties of the specification

  lemma {:induction false} FlatAppend(a: seq<Line>, b: seq<Line>)
    ensures Flat(a + b) == Flat(a) + Flat(b)
  {
    if a == [] {
      assert a + b == b;
    } else {
      assert (a + b)[1..] == a[1..] + b;
      FlatAppend(a[1..], b);
    }
  }

  /** The words of the first l + 1 lines are those of the first l lines
      followed by line l. */
  lemma FlatSnoc(lines: seq<Line>, l: nat)
    requires l < |lines|
    ensures Flat(lines[..l + 1]) == Flat(lines[..l]) + lines[l]
  {
    assert lines[..l + 1] == lines[..l] + [lines[l]];
    FlatAppend(lines[..l], [lines[l]]);
    assert Flat([lines[l]]) == lines[l] + Flat([]);
  }

  lemma {:induction false} SelectedAppend(region: Rect, a: seq<Word>, b: seq<Word>)
    ensures Selected(region, a + b) == Selected(region, a) + Selected(region, b)
  {
    if a == [] {
      assert a + b == b;
    } else {
      assert (a + b)[1..] == a[1..] + b;
      SelectedAppend(region, a[1..], b);
    }
  }

  lemma {:induction false} ConcatAppend(s: seq<string>, t: seq<string>)
    ensures Concat(s + t) == Concat(s) + Concat(t)
  {
    if s == [] {
      assert s + t == t;
    } else {
      assert (s + t)[1..] == s[1..] + t;
      ConcatAppend(s[1..], t);
    }
  }

  /** Visiting one more word appends its text if it contributes, and nothing
      otherwise. */
  lemma TextStep(region: Rect, done: seq<Word>, w: Word)
    ensures Concat(Selected(region, done + [w]))
         == Concat(Selected(region, done)) + (if Picks(region, w) then w.text.value else "")
  {
    SelectedAppend(region, done, [w]);
    ConcatAppend(Selected(region, done), Selected(region, [w]));
    assert Selected(region, [w]) == (if Picks(region, w) then [w.text.value] else []) + Selected(region, []);
  }

  /** A text is selected exactly when some word of the stream carries it and
      majorly overlaps the region. */
  lemma {:induction false} SelectedMembers(region: Rect, ws: seq<Word>, t: string)
    ensures t in Selected(region, ws)
        <==> exists i :: 0 <= i < |ws| && ws[i].text == Some(t) && MajorOverlap(region, ws[i].box)
  {
    if ws != [] {
      SelectedMembers(region, ws[1..], t);
      if t in Selected(region, ws[1..]) {
        var i :| 0 <= i < |ws[1..]| && ws[1..][i].text == Some(t) && MajorOverlap(region, ws[1..][i].box);
        assert ws[i + 1] == ws[1..][i];
      }
      if exists i :: 0 <= i < |ws| && ws[i].text == Some(t) && MajorOverlap(region, ws[i].box) {
        var i :| 0 <= i < |ws| && ws[i].text == Some(t) && MajorOverlap(region, ws[i].box);
        if i > 0 {
          assert ws[1..][i - 1] == ws[i];
        }
      }
    }
  }

  /** A word without text contributes nothing and does not disturb the words
      after it. */
  lemma TextlessWordSkipped(region: Rect, before: seq<Word>, box: Rect, after: seq<Word>)
    ensures Selected(region, before + [Word(None, box)] + after) == Selected(region, before + after)
  {
    SelectedAppend(region, before + [Word(None, box)], after);
    SelectedAppend(region, before, [Word(None, box)]);
    SelectedAppend(region, before, after);
    assert Selected(region, [Word(None, box)]) == [] + Selected(region, []);
  }

  /** A word fully inside the region is picked, one outside it is not. */
  lemma TotalNotPage()
    ensures RegionText(Rect(0, 0, 100, 20),
                       Some([[Word(Some("Total"), Rect(10, 5, 40, 15)),
                              Word(Some("Page"), Rect(200, 5, 240, 15))]])) == "Total"
  {
    var region := Rect(0, 0, 100, 20);
    var total := Word(Some("Total"), Rect(10, 5, 40, 15));
    var pageWord := Word(Some("Page"), Rect(200, 5, 240, 15));
    var line: Line := [total, pageWord];
    InsideIsMajor(region, total.box);
    TouchingIsNotMajor(region, pageWord.box);
    assert Flat([line]) == line + Flat([]);
    assert line[1..] == [pageWord];
    assert Selected(region, [pageWord]) == [] + Selected(region, []);
    assert Selected(region, line) == ["Total"] + Selected(region, [pageWord]);
    assert Concat(["Total"]) == "Total" + Concat([]);
  }

  // ---------------------------------------------------------------------
  // The iterator walk

  /** The nested walk over text lines and their words. Inside a line the
      iterator advances word by word; after the last word of a line it
      advances to the next line. A word without text skips the end-of-line
      test, so after such a word the word-level advance carries on into the
      next line; every word is still visited once, in document order. */
  method GetTextInRegion(region: Rect, page: Option<seq<Line>>) returns (text: string)
    ensures text == RegionText(region, page)
  {
    text := "";
    if page.None? {
      return;  // null iterator
    }
    var lines := page.value;
    if lines == [] {
      // The iterator stands on no word: no text, and both advances fail.
      return;
    }
    var l, w := 0, 0;
    ghost var done: seq<Word> := [];
    while true
      invariant 0 <= l < |lines| && w == 0
      invariant done == Flat(lines[..l])
      invariant text == Concat(Selected(region, done))
      decreases |lines| - l
    {
      ghost var start := l;
      while true
        invariant start <= l < |lines| && 0 <= w < |lines[l]|
        invariant done == Flat(lines[..l]) + lines[l][..w]
        invariant text == Concat(Selected(region, done))
        decreases |lines| - l, |lines[l]| - w
      {
        var word := lines[l][w];
        TextStep(region, done, word);
        assert lines[l][..w + 1] == lines[l][..w] + [word];
        done := done + [word];
        if word.text.Some? {
          if MajorOverlap(region, word.box) {
            text := text + word.text.value;
          }
          if w == |lines[l]| - 1 {
            // the last word of its text line
            FlatSnoc(lines, l);
            break;
          }
        }
        // advance by one word, crossing into the next line if need be
        if w + 1 < |lines[l]| {
          w := w + 1;
        } else if l + 1 < |lines| {
          FlatSnoc(lines, l);
          l, w := l + 1, 0;
        } else {
          FlatSnoc(lines, l);
          break;
        }
      }
      assert done == Flat(lines[..l + 1]);
      // advance to the start of the next text line
      if l + 1 < |lines| {
        l, w := l + 1, 0;
      } else {
        assert lines[..l + 1] == lines;
        break;
      }
    }
  }

  // ---------------------------------------------------------------------
  // Table cells

  /** The text of the cell at row `r` and column `c`: the words of the
      intersection of that row and that column. A row and a column that do
      not overlap give an empty cell. */
  function CellText(rows: seq<Rect>, cols: seq<Rect>, r: nat, c: nat, page: Option<seq<Line>>): (t: string)
    requires r < |rows| && c < |cols|
    ensures Intersection(rows[r], cols[c]) == NoOverlap ==> t == ""
  {
    RegionText(Intersection(rows[r], cols[c]), page)
  }

  /** The cell texts of one table, column by column and, within a column, row
      by row: `cells[c][r]` is the text of row `r` and column `c`. */
  method ExtractCells(rows: seq<Rect>, cols: seq<Rect>, page: Option<seq<Line>>)
    returns (cells: seq<seq<string>>)
    ensures |cells| == |cols|
    ensures forall c :: 0 <= c < |cols| ==> |cells[c]| == |rows|
    ensures forall c, r :: 0 <= c < |cols| && 0 <= r < |rows| ==>
      cells[c][r] == CellText(rows, cols, r, c, page)
  {
    cells := [];
    for c := 0 to |cols|
      invariant |cells| == c
      invariant forall i :: 0 <= i < c ==> |cells[i]| == |rows|
      invariant forall i, r :: 0 <= i < c && 0 <= r < |rows| ==>
        cells[i][r] == CellText(rows, cols, r, i, page)
    {
      var column: seq<string> := [];
      for r := 0 to |rows|
        invariant |column| == r
        invariant forall j :: 0 <= j < r ==> column[j] == CellText(rows, cols, j, c, page)
      {
        var t := GetTextInRegion(Intersection(rows[r], cols[c]), page);
        column := column + [t];
      }
      cells := cells + [column];
    }
  }
}
