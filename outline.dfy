/** `extract_outline`: a document title and a flat list of levelled
    headings, read off the font sizes of the characters. The PDF is given
    as values: for each page its number, the sizes of all its characters
    and its text lines, each line with its text and the sizes of its own
    characters in order. */
module Outline {
  import opened Wrappers
  import opened Sequences
  import opened Text
  import opened FontSizes

  /** One text line: its text and the size of each of its characters. */
  datatype Line = Line(text: string, sizes: seq<int>)

  /** One page: its page number, the size of every character on it, and
      its text lines top to bottom. */
  datatype Page = Page(number: int, sizes: seq<int>, lines: seq<Line>)

  /** An outline entry `{"level", "text", "page"}`. */
  datatype Entry = Entry(level: string, text: string, page: int)

  /** The result `{"title", "outline"}`. */
  datatype Extraction = Extraction(title: string, entries: seq<Entry>)

  /** Reading a variable that was never assigned: `NameError`, raised as
      its subclass `UnboundLocalError` from Python 3.12 on. */
  datatype Error = NameError(name: string)

  datatype Result = Ok(value: Extraction) | Err(error: Error)

  /** A line with more words than this is not a heading. */
  const MaxHeadingWords: nat := 15

  // ---------------------------------------------------------------------
  // Size histogram and title size

  /** The size of every character of the document, page after page. The
      histogram built from it is only ever asked whether it is empty and
      which sizes it holds, so the counts are not kept. */
  function AllSizes(doc: seq<Page>): (sizes: seq<int>)
    ensures sizes == [] <==> forall p :: 0 <= p < |doc| ==> doc[p].sizes == []
  {
    if doc == [] then []
    else AllSizes(doc[..|doc| - 1]) + doc[|doc| - 1].sizes
  }

  /** The title size: the largest size on the first page, when that page
      has characters at all. */
  function TitleSize(doc: seq<Page>): Option<int> {
    if doc != [] && doc[0].sizes != [] then Some(MaxOf(doc[0].sizes)) else None
  }

  /** The size-to-level map of a document: its distinct sizes largest first,
      without the title size, at most three of them, as `H1`, `H2`, `H3`. */
  function DocumentLevels(doc: seq<Page>): map<int, string> {
    LevelMap(HeadingSizes(SortDistinctDesc(AllSizes(doc)), TitleSize(doc)))
  }

  // ---------------------------------------------------------------------
  // Title

  /** The line has characters and the first one has size `size`. */
  predicate StartsWithSize(line: Line, size: int) {
    line.sizes != [] && line.sizes[0] == size
  }

  /** The stripped text of the first line that starts with `size`, or "". */
  function TitleOf(lines: seq<Line>, size: int): string {
    if lines == [] then ""
    else if StartsWithSize(lines[0], size) then Strip(lines[0].text)
    else TitleOf(lines[1..], size)
  }

  /** `TitleOf` is the stripped text of the FIRST line that starts with
      the size... */
  lemma {:induction false} TitleIsFirstMatch(lines: seq<Line>, size: int, i: nat)
    requires i < |lines| && StartsWithSize(lines[i], size)
    requires forall j :: 0 <= j < i ==> !StartsWithSize(lines[j], size)
    ensures TitleOf(lines, size) == Strip(lines[i].text)
  {
    if i > 0 {
      assert !StartsWithSize(lines[0], size);
      assert lines[1..][i - 1] == lines[i];
      forall j | 0 <= j < i - 1 ensures !StartsWithSize(lines[1..][j], size) {
        assert lines[1..][j] == lines[j + 1];
      }
      TitleIsFirstMatch(lines[1..], size, i - 1);
    }
  }

  /** ... and "" when no line does. */
  lemma {:induction false} NoTitleLine(lines: seq<Line>, size: int)
    requires forall i :: 0 <= i < |lines| ==> !StartsWithSize(lines[i], size)
    ensures TitleOf(lines, size) == ""
  {
    if lines != [] {
      assert !StartsWithSize(lines[0], size);
      forall j | 0 <= j < |lines| - 1 ensures !StartsWithSize(lines[1..][j], size) {
        assert lines[1..][j] == lines[j + 1];
      }
      NoTitleLine(lines[1..], size);
    }
  }

  /** The title search over the first page's lines: stop at the first line
      whose first character has the title size. */
  method FindTitle(lines: seq<Line>, titleSize: int) returns (title: string)
    ensures title == TitleOf(lines, titleSize)
  {
    title := "";
    for i := 0 to |lines|
      invariant TitleOf(lines[i..], titleSize) == TitleOf(lines, titleSize)
      invariant title == ""
    {
      var line := lines[i];
      if line.sizes != [] && line.sizes[0] == titleSize {
        title := Strip(line.text);
        break;
      }
      assert lines[i..][1..] == lines[i + 1..];
    }
  }

  // ---------------------------------------------------------------------
  // Line filter and emission

  /** What an emitted heading's text looks like: non-empty, already
      stripped, at most fifteen words, not ending in a full stop. */
  predicate IsHeadingText(text: string) {
    && text != []
    && Strip(text) == text
    && |Split(text)| <= MaxHeadingWords
    && !EndsWith(text, '.')
  }

  /** What the loop body does with one line of page `page`: skip it when
      its stripped text is empty or it has no characters, skip it as noise
      when it has too many words or ends in '.', and otherwise emit it when
      the size of its first character has a level. */
  function EntryFor(page: int, line: Line, levels: map<int, string>): (e: Option<Entry>)
    ensures e.Some? <==> IsHeadingText(Strip(line.text)) && line.sizes != [] && line.sizes[0] in levels
    ensures e.Some? ==> e.value == Entry(levels[line.sizes[0]], Strip(line.text), page)
  {
    var text := Strip(line.text);
    StripIdempotent(line.text);
    if text == [] || line.sizes == [] then None
    else if |Split(text)| > MaxHeadingWords || EndsWith(text, '.') then None
    else if line.sizes[0] in levels then Some(Entry(levels[line.sizes[0]], text, page))
    else None
  }

  /** A line together with the number of the page it is on. */
  datatype Located = Located(page: int, line: Line)

  function PageStream(p: Page): (s: seq<Located>)
    ensures |s| == |p.lines|
    ensures forall i :: 0 <= i < |s| ==> s[i] == Located(p.number, p.lines[i])
  {
    seq(|p.lines|, i requires 0 <= i < |p.lines| => Located(p.number, p.lines[i]))
  }

  /** Every line of the document in reading order: page after page, and
      top to bottom within a page. */
  function Stream(doc: seq<Page>): seq<Located> {
    if doc == [] then []
    else Stream(doc[..|doc| - 1]) + PageStream(doc[|doc| - 1])
  }

  /** The classifier of the outline loop as a function of a located line. */
  function Classify(levels: map<int, string>): Located -> Option<Entry> {
    (loc: Located) => EntryFor(loc.page, loc.line, levels)
  }

  /** The entries emitted for a run of lines, in the same order. */
  function Emitted(s: seq<Located>, levels: map<int, string>): seq<Entry> {
    FilterMap(s, Classify(levels))
  }

  /** Every emitted entry has heading text and a level from the map. */
  lemma EmittedAreHeadings(s: seq<Located>, levels: map<int, string>)
    ensures forall k :: 0 <= k < |Emitted(s, levels)| ==>
              IsHeadingText(Emitted(s, levels)[k].text) && Emitted(s, levels)[k].level in levels.Values
  {
    var ix := FilterMapSelects(s, Classify(levels));
    forall k | 0 <= k < |Emitted(s, levels)|
      ensures IsHeadingText(Emitted(s, levels)[k].text) && Emitted(s, levels)[k].level in levels.Values
    {
      var loc := s[ix[k]];
      assert EntryFor(loc.page, loc.line, levels) == Some(Emitted(s, levels)[k]);
    }
  }

  /** One more page adds its lines at the end. */
  lemma StreamAppend(doc: seq<Page>, p: nat)
    requires p < |doc|
    ensures Stream(doc[..p + 1]) == Stream(doc[..p]) + PageStream(doc[p])
  {
    assert doc[..p + 1][..p] == doc[..p];
  }

  /** The nested loop over pages and lines that appends each qualifying
      line to the outline. */
  method BuildOutline(doc: seq<Page>, levels: map<int, string>) returns (outline: seq<Entry>)
    ensures outline == Emitted(Stream(doc), levels)
  {
    outline := [];
    for p := 0 to |doc|
      invariant outline == Emitted(Stream(doc[..p]), levels)
    {
      var page := doc[p];
      ghost var before := Stream(doc[..p]);
      AppendBounds(before, PageStream(page));
      for i := 0 to |page.lines|
        invariant outline == Emitted(before + PageStream(page)[..i], levels)
      {
        var line := page.lines[i];
        AppendNext(before, PageStream(page), i);
        FilterMapSnoc(before + PageStream(page)[..i], Located(page.number, line), Classify(levels));
        var lineText := Strip(line.text);
        if lineText == [] || line.sizes == [] {
          continue;
        }
        if |Split(lineText)| > MaxHeadingWords || EndsWith(lineText, '.') {
          continue;
        }
        var lineSize := line.sizes[0];
        if lineSize in levels {
          outline := outline + [Entry(levels[lineSize], lineText, page.number)];
        }
      }
      StreamAppend(doc, p);
    }
    assert doc[..|doc|] == doc;
  }

  // ---------------------------------------------------------------------
  // The whole extraction

  /** The title and the entries emitted under the document's level map. */
  function Assemble(doc: seq<Page>, title: string): Extraction {
    Extraction(title, Emitted(Stream(doc), DocumentLevels(doc)))
  }

  /** `extract_outline` as written. A document without characters gives an
      empty result. When the first page has no characters but another page
      does, the title size is never assigned and computing the level map
      reads it anyway: that is the `NameError`. */
  function Extract(doc: seq<Page>): Result {
    if AllSizes(doc) == [] then Ok(Extraction("", []))
    else if doc[0].sizes == [] then Err(NameError("title_size"))
    else Ok(Assemble(doc, TitleOf(doc[0].lines, MaxOf(doc[0].sizes))))
  }

  /** The extraction step by step, in the order of the source. */
  method ExtractOutline(doc: seq<Page>) returns (r: Result)
    ensures r == Extract(doc)
  {
    var fontSizes := AllSizes(doc);
    if fontSizes == [] {
      return Ok(Extraction("", []));
    }
    var sortedSizes := SortDistinctDesc(fontSizes);
    var title := "";
    var titleSize: Option<int> := None;
    if doc != [] {
      var firstPage := doc[0];
      if firstPage.sizes != [] {
        var size := MaxOf(firstPage.sizes);
        titleSize := Some(size);
        title := FindTitle(firstPage.lines, size);
      }
    }
    if titleSize.None? {
      return Err(NameError("title_size"));
    }
    var levels := LevelMap(HeadingSizes(sortedSizes, titleSize));
    var entries := BuildOutline(doc, levels);
    r := Ok(Extraction(title, entries));
  }

  // ---------------------------------------------------------------------
  // Properties of the extraction

  /** A document with no character anywhere, including one with no pages,
      gives the title "" and no entries. */
  lemma EmptyDocument(doc: seq<Page>)
    requires forall p :: 0 <= p < |doc| ==> doc[p].sizes == []
    ensures Extract(doc) == Ok(Extraction("", []))
  {
  }

  /** The extraction fails exactly when the first page has no characters
      and some later page has, and the failure is reading `title_size`. */
  lemma FailsExactlyOnBlankFirstPage(doc: seq<Page>)
    ensures Extract(doc).Err? <==>
              doc != [] && doc[0].sizes == [] && exists p :: 0 < p < |doc| && doc[p].sizes != []
    ensures Extract(doc).Err? ==> Extract(doc).error == NameError("title_size")
  {
    if doc != [] && doc[0].sizes == [] && AllSizes(doc) != [] {
      var p :| 0 <= p < |doc| && doc[p].sizes != [];
      assert p > 0;
    }
  }

  /** When the first page has characters, the title is the stripped text
      of the first line of that page whose first character has the
      largest size `ts` found on the page, or "" when there is none. */
  lemma {:induction false} TitleIsFirstLineInLargestSize(doc: seq<Page>, ts: int)
    requires doc != [] && ts in doc[0].sizes
    requires forall x :: x in doc[0].sizes ==> x <= ts
    ensures TitleSize(doc) == Some(ts)
    ensures Extract(doc).Ok?
    ensures (forall i :: 0 <= i < |doc[0].lines| ==> !StartsWithSize(doc[0].lines[i], ts))
              ==> Extract(doc).value.title == ""
    ensures forall i :: 0 <= i < |doc[0].lines| && StartsWithSize(doc[0].lines[i], ts)
                        && (forall j :: 0 <= j < i ==> !StartsWithSize(doc[0].lines[j], ts))
                        ==> Extract(doc).value.title == Strip(doc[0].lines[i].text)
  {
    var m := MaxOf(doc[0].sizes);
    assert m == ts by {
      assert m <= ts;
      assert ts <= m;
    }
    assert AllSizes(doc) != [] by {
      assert doc[0].sizes != [];
    }
    var lines := doc[0].lines;
    if forall i :: 0 <= i < |lines| ==> !StartsWithSize(lines[i], ts) {
      NoTitleLine(lines, ts);
    }
    forall i | 0 <= i < |lines| && StartsWithSize(lines[i], ts)
               && (forall j :: 0 <= j < i ==> !StartsWithSize(lines[j], ts))
      ensures Extract(doc).value.title == Strip(lines[i].text)
    {
      TitleIsFirstMatch(lines, ts, i);
    }
  }

  /** The level map has at most three entries, all `H1`..`H3`, and its
      keys are sizes of the document other than the title size. */
  lemma DocumentLevelsBounded(doc: seq<Page>)
    ensures |DocumentLevels(doc)| <= MaxLevels
    ensures forall k :: k in DocumentLevels(doc) ==>
              k in AllSizes(doc) && Some(k) != TitleSize(doc) && DocumentLevels(doc)[k] in {"H1", "H2", "H3"}
  {
    var sorted := SortDistinctDesc(AllSizes(doc));
    var hs := HeadingSizes(sorted, TitleSize(doc));
    var levels := LevelMap(hs);
    forall k | k in levels ensures k in AllSizes(doc) && Some(k) != TitleSize(doc) && levels[k] in {"H1", "H2", "H3"} {
      var i :| 0 <= i < |hs| && hs[i] == k;
      assert k in sorted;
    }
  }

  /** The keys of the level map are the largest sizes of the document
      other than the title size: any other size above a key is a key too,
      and when there are fewer than three keys every other size is one. */
  lemma DocumentLevelsAreLargestNonTitleSizes(doc: seq<Page>)
    ensures forall y, k :: y in AllSizes(doc) && Some(y) != TitleSize(doc) && k in DocumentLevels(doc) && y > k
              ==> y in DocumentLevels(doc)
    ensures |DocumentLevels(doc)| < MaxLevels ==>
              forall y :: y in AllSizes(doc) && Some(y) != TitleSize(doc) ==> y in DocumentLevels(doc)
  {
    var sorted := SortDistinctDesc(AllSizes(doc));
    var hs := HeadingSizes(sorted, TitleSize(doc));
    var levels := LevelMap(hs);
    forall y, k | y in AllSizes(doc) && Some(y) != TitleSize(doc) && k in levels && y > k ensures y in levels {
      assert y in sorted;
      assert k in hs;
    }
    if |levels| < MaxLevels {
      forall y | y in AllSizes(doc) && Some(y) != TitleSize(doc) ensures y in levels {
        assert y in sorted;
      }
    }
  }

  /** A larger size gets a smaller level number (the digit after `H`). */
  lemma DocumentLevelsOrdered(doc: seq<Page>, a: int, b: int)
    requires a in DocumentLevels(doc) && b in DocumentLevels(doc) && a > b
    ensures |DocumentLevels(doc)[a]| == |DocumentLevels(doc)[b]| == 2
    ensures DocumentLevels(doc)[a][1] < DocumentLevels(doc)[b][1]
  {
    var sorted := SortDistinctDesc(AllSizes(doc));
    var hs := HeadingSizes(sorted, TitleSize(doc));
    LevelMapOrdered(sorted, TitleSize(doc));
    var i :| 0 <= i < |hs| && hs[i] == a;
    var j :| 0 <= j < |hs| && hs[j] == b;
  }

  /** Reading order: line `i` of page `p` sits in the line stream right
      after all lines of the earlier pages, so pages come in order and
      lines keep their order within a page. */
  lemma {:induction false} StreamIsReadingOrder(doc: seq<Page>, p: nat, i: nat)
    requires p < |doc| && i < |doc[p].lines|
    ensures |Stream(doc[..p])| + i < |Stream(doc[..p + 1])| <= |Stream(doc)|
    ensures Stream(doc)[|Stream(doc[..p])| + i] == Located(doc[p].number, doc[p].lines[i])
  {
    assert doc[..p + 1][..p] == doc[..p];
    StreamPrefix(doc, p + 1);
  }

  lemma {:induction false} StreamPrefix(doc: seq<Page>, q: nat)
    requires q <= |doc|
    ensures |Stream(doc[..q])| <= |Stream(doc)|
    ensures Stream(doc[..q]) == Stream(doc)[..|Stream(doc[..q])|]
    decreases |doc| - q
  {
    if q == |doc| {
      assert doc[..q] == doc;
    } else {
      StreamPrefix(doc, q + 1);
      assert doc[..q + 1][..q] == doc[..q];
    }
  }

  /** A successful extraction emits what the level map selects from the
      line stream; with no character sizes at all nothing is selected. */
  lemma OkEntriesAreEmitted(doc: seq<Page>)
    requires Extract(doc).Ok?
    ensures Extract(doc).value.entries == Emitted(Stream(doc), DocumentLevels(doc))
  {
    if AllSizes(doc) == [] {
      NothingEmittedWithoutSizes(doc);
    }
  }

  /** A document without character sizes has no level map, so none of its
      lines is emitted. */
  lemma NothingEmittedWithoutSizes(doc: seq<Page>)
    requires AllSizes(doc) == []
    ensures Emitted(Stream(doc), DocumentLevels(doc)) == []
  {
    var s := Stream(doc);
    NoSizesNoLevels(doc);
    forall j | 0 <= j < |s| ensures Classify(DocumentLevels(doc))(s[j]).None? {
      assert EntryFor(s[j].page, s[j].line, map[]).None?;
    }
    FilterMapNone(s, Classify(DocumentLevels(doc)));
  }

  /** Each entry of a successful extraction comes from a line of the
      document, in reading order: the k-th entry is what the line at
      position `ix[k]` of the stream gives (its stripped text, the level of
      its first character's size, its page number), the positions strictly
      increase, and every line that qualifies gives exactly one entry. */
  lemma OutlineSelectsLinesInOrder(doc: seq<Page>) returns (ix: seq<nat>)
    requires Extract(doc).Ok?
    ensures |ix| == |Extract(doc).value.entries|
    ensures forall k :: 0 <= k < |ix| ==>
              && ix[k] < |Stream(doc)|
              && EntryFor(Stream(doc)[ix[k]].page, Stream(doc)[ix[k]].line, DocumentLevels(doc))
                 == Some(Extract(doc).value.entries[k])
    ensures forall k, m :: 0 <= k < m < |ix| ==> ix[k] < ix[m]
    ensures forall j :: 0 <= j < |Stream(doc)| ==>
              (EntryFor(Stream(doc)[j].page, Stream(doc)[j].line, DocumentLevels(doc)).Some? <==> j in ix)
  {
    OkEntriesAreEmitted(doc);
    ix := FilterMapSelects(Stream(doc), Classify(DocumentLevels(doc)));
  }

  /** Without any character size there is no level to give. */
  lemma NoSizesNoLevels(doc: seq<Page>)
    requires AllSizes(doc) == []
    ensures DocumentLevels(doc) == map[]
  {
    DocumentLevelsBounded(doc);
  }

  /** A line that starts with the title size is never an entry. */
  lemma TitleSizeIsNeverAHeading(doc: seq<Page>, line: Line, page: int)
    requires doc != [] && doc[0].sizes != []
    requires StartsWithSize(line, MaxOf(doc[0].sizes))
    ensures EntryFor(page, line, DocumentLevels(doc)).None?
  {
    DocumentLevelsBounded(doc);
  }

  // ---------------------------------------------------------------------
  // The blank first page

  /** The extraction as evidently intended: when the first page has no
      characters the title stays "" and no size is held back from the
      levels, instead of reading the unassigned `title_size`. Wherever the
      extraction as written succeeds, both agree. */
  function ExtractIntended(doc: seq<Page>): (o: Extraction)
    ensures Extract(doc).Ok? ==> Extract(doc).value == o
    ensures doc != [] && doc[0].sizes == [] ==> o.title == ""
  {
    if AllSizes(doc) == [] then Extraction("", [])
    else if doc[0].sizes == [] then Assemble(doc, "")
    else Assemble(doc, TitleOf(doc[0].lines, MaxOf(doc[0].sizes)))
  }

  /** The intended extraction never fails; it emits what the level map
      selects from the line stream, and with a blank first page the level
      map holds the largest sizes of the whole document, none held back. */
  lemma IntendedBlankFirstPage(doc: seq<Page>)
    requires doc != [] && doc[0].sizes == []
    ensures ExtractIntended(doc).entries == Emitted(Stream(doc), DocumentLevels(doc))
    ensures forall y, k :: y in AllSizes(doc) && k in DocumentLevels(doc) && y > k ==> y in DocumentLevels(doc)
    ensures |DocumentLevels(doc)| < MaxLevels ==> forall y :: y in AllSizes(doc) ==> y in DocumentLevels(doc)
  {
    if AllSizes(doc) == [] {
      NothingEmittedWithoutSizes(doc);
    }
    assert TitleSize(doc) == None;
    DocumentLevelsAreLargestNonTitleSizes(doc);
  }

  /** A two-page document whose first page is blank: the extraction as
      written fails with `NameError`, the intended one lists the heading of
      page 2. */
  lemma BlankFirstPageFails()
    ensures var doc := [Page(1, [], []), Page(2, [12], [Line("Aim", [12])])];
      && Extract(doc) == Err(NameError("title_size"))
      && ExtractIntended(doc) == Extraction("", [Entry("H1", "Aim", 2)])
  {
    var line := Line("Aim", [12]);
    var doc := [Page(1, [], []), Page(2, [12], [line])];
    var levels := map[12 := "H1"];
    BlankFirstPageShape(doc, line);
    AimIsHeading(line, levels);
    assert Emitted([Located(2, line)], levels) == [Entry("H1", "Aim", 2)] by {
      FilterMapSnoc([], Located(2, line), Classify(levels));
    }
  }

  /** The sizes, level map and line stream of the two-page document. */
  lemma BlankFirstPageShape(doc: seq<Page>, line: Line)
    requires line.sizes == [12]
    requires doc == [Page(1, [], []), Page(2, [12], [line])]
    ensures AllSizes(doc) == [12]
    ensures DocumentLevels(doc) == map[12 := "H1"]
    ensures Stream(doc) == [Located(2, line)]
  {
    assert doc[..1] == [Page(1, [], [])];
    assert AllSizes(doc[..1]) == [];
    assert Stream(doc[..1]) == [];
    assert SortDistinctDesc([12]) == [12];
    assert HeadingSizes([12], None) == [12];
  }

  /** The line "Aim" in the one size that has a level is a heading. */
  lemma AimIsHeading(line: Line, levels: map<int, string>)
    requires line == Line("Aim", [12]) && levels == map[12 := "H1"]
    ensures EntryFor(2, line, levels) == Some(Entry("H1", "Aim", 2))
  {
    assert Strip("Aim") == "Aim";
    assert |Split("Aim")| == 1 by {
      SplitCountsWordStarts("Aim");
    }
  }
}
