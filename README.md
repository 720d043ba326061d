# PDF outline extraction

A model of `extract_outline` in `solution.py`. The function reads a PDF and
returns a title plus a flat outline of headings. Each heading has a level
(`H1`, `H2` or `H3`), its text and its page number. Everything is decided
from character font sizes:

- the largest size on page 1 is the title size;
- the title is the first line of page 1 whose first character has that size;
- the three largest other sizes in the whole document become `H1` to `H3`;
- a line is a heading when its stripped text is non-empty, has at most
  fifteen words, does not end in `.`, and its first character has one of
  those sizes.

The PDF itself is given to the model as values. A `Page` has its number,
the size of every character on it, and its text lines. A `Line` has its
text and the sizes of its characters in order.

Modules:

- `Text`: Python's `str.strip()`, `str.split()` and `str.endswith`, over
  Python's whitespace set.
- `FontSizes`: the maximum, `sorted(set, reverse=True)`, the heading sizes
  and the size-to-level map.
- `Sequences`: `FilterMap`, the shape of a loop that appends only some of
  what it visits.
- `Outline`: the document data, the specification function `Extract`, and
  the loops as methods proved against it.
  - `FindTitle` is the title loop.
  - `BuildOutline` is the nested outline loop.
  - `ExtractOutline` is the whole function.

The returned dictionaries `{"title", "outline"}` and
`{"level", "text", "page"}` are the datatypes `Extraction` and `Entry`.

The character histogram (`Counter`) is only asked whether it is empty and
which sizes it holds. It is therefore modelled as the sequence of all
character sizes (`AllSizes`).

The level map takes the three largest distinct sizes by value, as the code
does (`sorted(..., reverse=True)` then `[:3]`). It does not take the three
most frequent sizes, although the `Counter` might suggest so.

When page 1 has no characters but a later page does, `title_size` is never
assigned, yet line 35 reads it. Python then raises `NameError` (as its
subclass `UnboundLocalError` from Python 3.12 on, where comprehensions are
inlined). The model returns `Err(NameError("title_size"))` there. The intended
behaviour is below under Findings.

## Model

| member | source | states |
|---|---|---|
| Text.LStripDropsLeadingSpace | solution.py:31 | the left half of `strip()` removes exactly the leading whitespace: the result is a suffix, only whitespace was removed, and it does not start with whitespace |
| Text.RStripDropsTrailingSpace | solution.py:31 | the right half of `strip()` removes exactly the trailing whitespace: the result is a prefix, only whitespace was removed, and it does not end with whitespace |
| Text.StripTrimsWhitespace | solution.py:41 | `strip()` gives a slice of its input with only whitespace outside it; the result neither starts nor ends with whitespace, and is empty exactly when the input is all whitespace (the `not line_text` test) |
| Text.StripIdempotent | solution.py:41 | stripping the stripped line text changes nothing, so the emitted text is already stripped |
| Text.Split | solution.py:46 | `split()` yields non-empty words without whitespace |
| Text.SplitCountsWordStarts | solution.py:46 | the word count `len(split())` is the number of places where a word begins, so runs of whitespace separate words and whitespace at either end adds none |
| FontSizes.MaxOf | solution.py:27 | `max` of the first page's sizes is one of them and at least every one of them |
| FontSizes.SortDistinctDesc | solution.py:18 | the sorted sizes are strictly descending and hold exactly the sizes of the histogram |
| FontSizes.DescendingUnique | solution.py:18 | a strictly descending list is determined by its elements, so the sorted size list is the only possible one |
| FontSizes.HeadingSizes | solution.py:35 | the heading sizes are at most three, strictly descending, and are sizes of the document other than the title size; they are the largest such sizes: any such size above a kept one is kept, and with fewer than three kept every such size is kept |
| FontSizes.LevelLabel | solution.py:36 | level `i` is named `H` followed by digit `i+1`, one of `H1`, `H2`, `H3` |
| FontSizes.LevelMap | solution.py:36 | the level map has exactly the heading sizes as keys, one entry per size, and the i-th size maps to `H{i+1}` |
| FontSizes.LevelMapOrdered | solution.py:35-36 | at most three levels, the title size is never a key, and a larger size gets a smaller level number, so no two sizes share a level |
| Outline.AllSizes | solution.py:13-14 | the document's histogram is empty exactly when no page has a character |
| Outline.TitleIsFirstMatch | solution.py:29-32 | the title is the stripped text of the FIRST line whose first character has the title size |
| Outline.NoTitleLine | solution.py:21-32 | when no line starts with the title size the title stays "" |
| Outline.FindTitle | solution.py:29-32 | the title loop with `break` returns the title of the first matching line, or "" |
| Outline.EntryFor | solution.py:41-55 | a line gives an entry exactly when its stripped text is a heading text and its first character's size has a level; the entry is that level, the stripped text and the page number |
| Outline.EmittedAreHeadings | solution.py:41-55 | every emitted entry has non-empty, stripped text of at most fifteen words not ending in `.`, and a level from the level map |
| Outline.BuildOutline | solution.py:38-55 | the nested loop over pages and lines, with its `continue`s, emits exactly what the line classifier selects from all lines in reading order |
| Outline.StreamIsReadingOrder | solution.py:39-40 | lines are visited page after page and top to bottom within a page |
| Outline.ExtractOutline | solution.py:13-57 | the whole extraction, step by step, gives the specification result `Extract` |
| Outline.EmptyDocument | solution.py:14-15 | a document without characters (or without pages) gives title "" and an empty outline |
| Outline.FailsExactlyOnBlankFirstPage | solution.py:22-35 | the extraction fails exactly when page 1 has no characters and a later page has some, and the failure is reading `title_size` |
| Outline.TitleIsFirstLineInLargestSize | solution.py:22-32 | when page 1 has characters the extraction succeeds, and its title is the stripped text of the first page-1 line starting in page 1's largest size, or "" when there is none |
| Outline.DocumentLevelsBounded | solution.py:35-36 | at most three levels, all `H1` to `H3`, and every key is a document size other than the title size |
| Outline.DocumentLevelsAreLargestNonTitleSizes | solution.py:18-35 | the level keys are the largest non-title sizes of the document: a non-title size above a key is a key, and with fewer than three keys every non-title size is one |
| Outline.DocumentLevelsOrdered | solution.py:18-36 | of two sizes with levels, the larger gets the smaller level number |
| Outline.OkEntriesAreEmitted | solution.py:13-55 | a successful extraction's outline is what the level map selects from the lines in reading order (nothing at all for a document without characters) |
| Outline.NothingEmittedWithoutSizes | solution.py:14-15 | without any character size no line is a heading |
| Outline.OutlineSelectsLinesInOrder | solution.py:38-55 | entry k comes from the line at stream position ix[k], positions strictly increase, and every qualifying line gives exactly one entry |
| Outline.TitleSizeIsNeverAHeading | solution.py:27-35 | a line starting with the title size is never an outline entry |
| Outline.ExtractIntended | solution.py:21-36 | the corrected extraction agrees with the one as written wherever that one succeeds, and gives title "" when page 1 is blank |
| Outline.IntendedBlankFirstPage | solution.py:21-36 | with page 1 blank, the corrected extraction emits what the level map selects, and the level map holds the largest sizes of the whole document with none held back |
| Outline.BlankFirstPageFails | solution.py:22-35 | a concrete two-page document with a blank page 1 makes the extraction as written fail, while the corrected one lists the heading of page 2 |
| Text.IsSpace | solution.py:41 | definition: Python's `str.isspace()` set, which `strip()` and `split()` use; no contract of its own, used by the `Text` lemma rows below |
| Text.LStrip | solution.py:41 | `lstrip()`, never longer than its input; what it removes is stated by LStripDropsLeadingSpace |
| Text.RStrip | solution.py:41 | `rstrip()`, never longer than its input; what it removes is stated by RStripDropsTrailingSpace |
| Text.Strip | solution.py:41 | `strip()`, never longer than its input; its meaning is stated by StripTrimsWhitespace and StripIdempotent |
| Text.WordPrefix | solution.py:46 | the first word of a string for `split()`: a prefix without whitespace, followed by whitespace or the end |
| Text.EndsWith | solution.py:46 | definition of `endswith('.')` for one character: the string is non-empty and its last character is that one; no contract of its own, used by IsHeadingText and EntryFor |
| FontSizes.Insert | solution.py:18 | one step of the sort: the list stays strictly descending and gains exactly the inserted size |
| FontSizes.Without | solution.py:35 | the filter `s != title_size`: the list stays strictly descending and holds exactly the sizes other than the excluded one |
| Outline.TitleSize | solution.py:22-27 | definition: the largest size of page 1 when page 1 has characters, else none; its properties are in TitleIsFirstLineInLargestSize, FailsExactlyOnBlankFirstPage and TitleSizeIsNeverAHeading |
| Outline.StartsWithSize | solution.py:30 | definition of the test `line['chars'] and line['chars'][0]['size'] == title_size`; used by the title rows |
| Outline.TitleOf | solution.py:29-32 | definition of the title search; its properties are in TitleIsFirstMatch and NoTitleLine, and FindTitle computes it |
| Outline.DocumentLevels | solution.py:18-36 | definition of `size_to_level` for a document; its properties are in DocumentLevelsBounded, DocumentLevelsAreLargestNonTitleSizes, DocumentLevelsOrdered and NoSizesNoLevels |
| Outline.IsHeadingText | solution.py:41-47 | definition of the text filter: non-empty, stripped, at most fifteen words, not ending in `.`; used by EntryFor and EmittedAreHeadings |
| Outline.PageStream | solution.py:40 | the lines of one page in order, each with that page's number |
| Outline.Stream | solution.py:39-40 | definition of the reading order over all pages; its properties are in StreamIsReadingOrder |
| Outline.Emitted | solution.py:38-55 | definition of the outline list as the classifier's selection from the stream; its properties are in EmittedAreHeadings and OutlineSelectsLinesInOrder, and BuildOutline computes it |
| Outline.Extract | solution.py:13-57 | definition of `extract_outline` as written; its properties are in EmptyDocument, FailsExactlyOnBlankFirstPage, TitleIsFirstLineInLargestSize, OkEntriesAreEmitted and OutlineSelectsLinesInOrder, and ExtractOutline computes it |
| Outline.NoSizesNoLevels | solution.py:14-15 | a document without character sizes has an empty level map |

## Left out

- Opening the PDF with pdfplumber, `page.chars` and `extract_text_lines()` (solution.py:11,13,25,29,40): these are external I/O. The model receives their results as `Page` and `Line` values.
- `process_pdfs` (solution.py:59-74) and the `__main__` entry point (solution.py:76-77): they do file system I/O, JSON writing and printing.
- The counts of the `Counter` histograms: the code never reads them, only emptiness and keys.
- Font sizes are floating-point numbers in pdfplumber. The model uses `int` because sizes are only compared for equality and order.
- The line's text is taken as given. How pdfplumber groups characters into lines, and how the line's `chars` relate to its `text`, is not modelled.

## Findings

| source | as written | input that shows it | evidently intended | confidence | as-written member | corrected member |
|---|---|---|---|---|---|---|
| solution.py:22-35 | `title_size` is assigned only when page 1 has characters, but line 35 reads it unconditionally, so a document whose first page is blank raises `NameError` | two pages: page 1 without characters, page 2 with the line "Aim" in size 12 | title "" with the outline built from all sizes, none excluded, here `[H1 "Aim" page 2]` | high, not executed | Outline.BlankFirstPageFails | Outline.ExtractIntended |
