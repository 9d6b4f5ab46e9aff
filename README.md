# Table cell text extraction — a verified Dafny model

This project models the self-contained logic of the table extraction demo in
`Tesseract/tableExtractionDemo.cpp`:

- **`Rectangle`**, an integer axis-aligned rectangle `(xl, yt, xr, yb)`. It
  gives width, height and area as absolute differences, `intersection` with
  the `(0, 0, 0, 0)` sentinel for an empty overlap, `majorOverlap` (the
  intersection covers more than half of the smaller area) and the strict
  interior test `contains`. This is module `Rectangles` in `rectangles.dfy`. It
  is written as a datatype with pure functions because every method of the
  class is a `const` single-expression computation. The two C++ constructors
  (from four ints or from a tuple) are the datatype constructor `Rect`.
- **`getTextInRegion`**, which walks the OCR result iterator line by line and
  word by word. It appends the text of every word whose box majorly overlaps the
  region. This is module `TableExtraction` in `table_extraction.dfy`:
  - The iterator is modelled as the page it walks: `None` for a null iterator,
    or a sequence of text lines, each a non-empty sequence of words.
  - A word's text is an `Option<string>`, since the engine may yield no text.
  - `GetTextInRegion` is an imperative method with the source's two nested
    loops, its `break` at the end of a line and its `continue` for textless
    words. It is proved equal to the specification `RegionText`: filter the
    words of the page in document order, then concatenate their texts without
    a separator.
- **The cell loop of `main`**: each cell's region is `row.intersection(col)`.
  `ExtractCells` returns the texts that `main` prints, indexed column first.

Notes on the source's behaviour:

- The cell loop in `main` has the columns as the outer loop and the rows as
  the inner one (lines 219-224), so cells come out column by column.
- A word without text reaches `continue` (line 90) before the end-of-line test
  (line 99). The `do`/`while` then advances with `Next(RIL_WORD)` (line 101),
  which carries the walk into the next line. The model keeps this path and
  proves that every word is still visited once, in order.
- `intersection` commutes field for field for all inputs, degenerate and
  inverted ones included, because each coordinate is a symmetric `min` or
  `max` (lines 47-50).

## Model

| member | source | states |
|---|---|---|
| `Rectangles.Width` | Tesseract/tableExtractionDemo.cpp:41 | never negative, whatever the order of the x coordinates; zero exactly when left equals right; the signed difference when ordered |
| `Rectangles.Height` | Tesseract/tableExtractionDemo.cpp:42 | never negative, whatever the order of the y coordinates; zero exactly when top equals bottom |
| `Rectangles.Area` | Tesseract/tableExtractionDemo.cpp:43 | never negative; zero exactly when the rectangle is flat in x or in y |
| `Rectangles.InvertedSameDimensions` | Tesseract/tableExtractionDemo.cpp:41-43 | an inverted rectangle (corners swapped) has the same width, height and area |
| `Rectangles.Intersection` | Tesseract/tableExtractionDemo.cpp:45-55 | the result is the sentinel `(0,0,0,0)` or a well-formed rectangle inside the bounds of both inputs; a non-sentinel result implies both inputs are well-formed |
| `Rectangles.IntersectionCommutes` | Tesseract/tableExtractionDemo.cpp:47-50 | `a.intersection(b) == b.intersection(a)` field for field, for all inputs |
| `Rectangles.IntersectionSelf` | Tesseract/tableExtractionDemo.cpp:45-55 | `a.intersection(a)` is `a` when `a` is well-formed and the sentinel otherwise |
| `Rectangles.IntersectionAssociates` | Tesseract/tableExtractionDemo.cpp:45-55 | nested intersections do not depend on the grouping |
| `Rectangles.IntersectionIsLargest` | Tesseract/tableExtractionDemo.cpp:45-55 | every well-formed rectangle inside both inputs lies inside their intersection, which is then not the sentinel |
| `Rectangles.WithinAreaBound` | Tesseract/tableExtractionDemo.cpp:43 | a well-formed rectangle inside another has no larger area |
| `Rectangles.IntersectionAreaBound` | Tesseract/tableExtractionDemo.cpp:45-55 | the intersection's area is at most the area of each input |
| `Rectangles.ContainsIntersection` | Tesseract/tableExtractionDemo.cpp:45-55 | a point is strictly inside the intersection exactly when it is strictly inside both inputs |
| `Rectangles.Contains` | Tesseract/tableExtractionDemo.cpp:64-67 | strict interior test; a rectangle with `xl >= xr` or `yt >= yb` contains no point |
| `Rectangles.ContainsIsStrict` | Tesseract/tableExtractionDemo.cpp:64-67 | points on any of the four edges are outside |
| `Rectangles.MajorOverlapSymmetric` | Tesseract/tableExtractionDemo.cpp:56-62 | `a.majorOverlap(b)` exactly when `b.majorOverlap(a)` |
| `Rectangles.MajorOverlap` | Tesseract/tableExtractionDemo.cpp:56-62 | `2 * area(a ∩ b) > min(area a, area b)`, the exact rational form of the `0.5f` threshold; it holds only with an intersection of positive area and two well-formed rectangles, so degenerate or inverted rectangles majorly overlap nothing |
| `Rectangles.TouchingIsNotMajor` | Tesseract/tableExtractionDemo.cpp:51-62 | rectangles that are apart or share only an edge or a corner never majorly overlap |
| `Rectangles.InsideIsMajor` | Tesseract/tableExtractionDemo.cpp:56-62 | a well-formed rectangle inside another majorly overlaps it, in both argument orders |
| `Rectangles.QuarterIsNotMajor` | Tesseract/tableExtractionDemo.cpp:45-62 | `(0,0,10,10)` and `(5,5,15,15)` intersect in `(5,5,10,10)` and do not majorly overlap |
| `Rectangles.InnerSquareIsMajor` | Tesseract/tableExtractionDemo.cpp:45-62 | `(1,1,9,9)` is its own intersection with `(0,0,10,10)` and majorly overlaps it |
| `TableExtraction.FlatAppend` | Tesseract/tableExtractionDemo.cpp:81-102 | the words of two consecutive runs of lines are the words of the first followed by those of the second, so the walk line by line visits the page's words in document order |
| `TableExtraction.Selected` | Tesseract/tableExtractionDemo.cpp:89-97 | the filter of the contributing words' texts selects nothing for a region that is not well-formed |
| `TableExtraction.SelectedAppend` | Tesseract/tableExtractionDemo.cpp:89-97 | the texts selected from two consecutive word runs are those of the first run followed by those of the second |
| `TableExtraction.SelectedMembers` | Tesseract/tableExtractionDemo.cpp:89-97 | a text is collected exactly when some word carries it and its box majorly overlaps the region |
| `TableExtraction.TextStep` | Tesseract/tableExtractionDemo.cpp:96-97 | visiting one more word appends its text when it contributes and nothing otherwise |
| `TableExtraction.TextlessWordSkipped` | Tesseract/tableExtractionDemo.cpp:85-90 | a word without text contributes nothing and leaves the words after it unaffected |
| `TableExtraction.RegionText` | Tesseract/tableExtractionDemo.cpp:72-106 | any region that is not well-formed, in particular every zero-area region such as the `(0,0,0,0)` sentinel, yields `""` on every page |
| `TableExtraction.TotalNotPage` | Tesseract/tableExtractionDemo.cpp:72-106 | of "Total" inside the region and "Page" outside it, only "Total" is returned |
| `TableExtraction.GetTextInRegion` | Tesseract/tableExtractionDemo.cpp:72-106 | the line-by-line, word-by-word walk returns `""` for a null iterator and otherwise the in-order concatenation, with no separator, of the texts of all words with text whose box majorly overlaps the region |
| `TableExtraction.CellText` | Tesseract/tableExtractionDemo.cpp:226 | the text of a cell is the region text of `row ∩ column`; a row and a column that do not overlap give `""` |
| `TableExtraction.ExtractCells` | Tesseract/tableExtractionDemo.cpp:219-228 | one text per column and row, `cells[c][r]` being the region text of `row r ∩ column c`, columns outermost |

## Left out

- Integer width: coordinates and areas are unbounded integers. The C++ `int`
  arithmetic in `width`, `height` and `area` can overflow for extreme
  coordinates, and the model does not capture that.
- The threshold `0.5f` of `majorOverlap` is a float. The model uses the exact
  test `2 * intersection area > min(area, other area)`. It differs only where
  the float conversion of an area above 2^24 rounds.
- The tesseract result iterator (`GetIterator`, `Next`, `IsAtFinalElement`,
  `GetUTF8Text`, `BoundingBox`) is foreign code. It is replaced by the page it
  walks: a word-level advance moves to the next word, crossing line ends; a
  line-level advance moves to the first word of the next line. An empty page
  yields `""`, because the iterator then stands on no word.
- Memory handling (`unique_ptr`, `delete[]`) has no counterpart.
- `Rectangle::print` (line 69) is output only.
- Command-line parsing (`CmdArguments`, lines 108-152), the default data path
  and language, engine set-up, image loading, the key-press pause, printing
  the OCR text and block boxes, and the exit on failed initialisation
  (lines 154-208, 229-236) are I/O and foreign library calls.
- The loop over the detected tables (line 209) and the table bounding box are
  engine queries. `ExtractCells` takes one table's row and column rectangles as
  parameters and returns the cell texts instead of printing them.
- `Tesseract/tess.cpp` is not part of this model: it only parses arguments and
  prints table, row and column boxes obtained from the engine.
