/** The chunk loop of `chunk_pdf`: for every clause entry of the outline,
    gather the text of its pages, cut the clause out, clean it, split it into
    chunks and give each chunk its metadata. */
module Chunking {
  import opened Text
  import opened Toc
  import opened Sections
  import opened Splitting

  /** VOLUME_CLASSES: the building classes each volume of the code covers. */
  const VolumeClasses: map<int, seq<int>> := map[1 := [2, 3, 4, 5, 6, 7, 8, 9], 2 := [1, 10]]

  /** The two volumes split the building classes 1 to 10 between them: every
      class is covered by exactly one volume, and no other class appears. */
  lemma VolumeClassesPartition()
    ensures forall c :: 1 <= c <= 10 ==> (c in VolumeClasses[1] <==> c !in VolumeClasses[2])
    ensures forall c :: c in VolumeClasses[1] || c in VolumeClasses[2] ==> 1 <= c <= 10
  {
  }

  /** One chunk record as `chunk_pdf` builds it. */
  datatype Chunk = Chunk(content: string, volume: int, part: Option<string>, section: Option<string>,
                         title: string, applicableClasses: seq<int>, stateSpecific: bool)

  function Contents(chunks: seq<Chunk>): (r: seq<string>)
    ensures |r| == |chunks| && forall j :: 0 <= j < |chunks| ==> r[j] == chunks[j].content
  {
    if chunks == [] then [] else [chunks[0].content] + Contents(chunks[1..])
  }

  lemma ContentsAppend(a: seq<Chunk>, b: seq<Chunk>)
    ensures Contents(a + b) == Contents(a) + Contents(b)
  {
  }

  // ------------------------------------------------------------- part titles

  function DigitChar(d: nat): char
    requires d < 10
  {
    ('0' as int + d) as char
  }

  /** `str(n)` for a natural number: its decimal digits, with no leading zero. */
  function Decimal(n: nat): (s: string)
    ensures s != [] && AllDigits(s)
    ensures s[0] == '0' <==> n == 0
    decreases n
  {
    if n < 10 then [DigitChar(n)] else Decimal(n / 10) + [DigitChar(n % 10)]
  }

  /** `int(s)` for a string of decimal digits. */
  function ParseDecimal(s: string): nat
    requires AllDigits(s)
    decreases |s|
  {
    if s == [] then 0 else 10 * ParseDecimal(s[..|s| - 1]) + (s[|s| - 1] as int - '0' as int)
  }

  /** Reading back the decimal form of a number gives the number. */
  lemma {:induction false} DecimalRoundTrip(n: nat)
    ensures ParseDecimal(Decimal(n)) == n
    decreases n
  {
    if n >= 10 {
      DecimalRoundTrip(n / 10);
      var s := Decimal(n);
      assert s[..|s| - 1] == Decimal(n / 10);
    }
  }

  lemma DecimalInjective(a: nat, b: nat)
    requires Decimal(a) == Decimal(b)
    ensures a == b
  {
    DecimalRoundTrip(a);
    DecimalRoundTrip(b);
  }

  /** `f"{title} (part {k})"`. */
  function PartTitle(title: string, k: nat): string {
    title + " (part " + Decimal(k) + ")"
  }

  /** The title of sub-chunk `i` (from 0) of a section split into `n` pieces:
      the section title when there is one piece, otherwise the title
      numbered from 1. */
  function ChunkTitle(title: string, i: nat, n: nat): string {
    if n == 1 then title else PartTitle(title, i + 1)
  }

  /** Different part numbers give different titles. */
  lemma PartTitlesDistinct(title: string, k1: nat, k2: nat)
    requires k1 != k2
    ensures PartTitle(title, k1) != PartTitle(title, k2)
  {
    if PartTitle(title, k1) == PartTitle(title, k2) {
      var t := PartTitle(title, k1);
      var d1, d2 := Decimal(k1), Decimal(k2);
      assert |d1| == |d2|;
      assert t[|title| + 7..|t| - 1] == d1;
      assert PartTitle(title, k2)[|title| + 7..|t| - 1] == d2;
      DecimalInjective(k1, k2);
    }
  }

  /** The sub-chunks of one section all have different titles. */
  lemma ChunkTitlesDistinct(title: string, n: nat, i: nat, j: nat)
    requires i < n && j < n && i != j
    ensures ChunkTitle(title, i, n) != ChunkTitle(title, j, n)
  {
    PartTitlesDistinct(title, i + 1, j + 1);
  }

  // -------------------------------------------------------------- page text

  /** The cleaned text of page `pg` (from 0). A negative index from
      `-|pages|` on counts from the last page; any other index outside the
      document reads as empty. */
  function PageText(pages: seq<string>, pg: int): string {
    if 0 <= pg < |pages| then pages[pg]
    else if -|pages| <= pg < 0 then pages[|pages| + pg]
    else ""
  }

  /** The non-empty page texts of pages `lo` up to (not including) `hi`, in order. */
  function PagesRead(pages: seq<string>, lo: int, hi: int): seq<string>
    decreases hi - lo
  {
    if hi <= lo then []
    else PagesRead(pages, lo, hi - 1) + (if PageText(pages, hi - 1) != [] then [PageText(pages, hi - 1)] else [])
  }

  function Min(a: int, b: int): int {
    if a <= b then a else b
  }

  /** The text `chunk_pdf` reads for pages `startPage` up to `endPage`
      (1-based, inclusive, cut at the last page). */
  function PageRangeText(pages: seq<string>, startPage: int, endPage: int): string {
    Join("\n", PagesRead(pages, startPage - 1, Min(endPage, |pages|)))
  }

  /** The page loop of `chunk_pdf`: the non-empty cleaned texts of pages
      `startPage - 1` up to `min(endPage, total pages)`, joined by newlines. */
  method JoinPageTexts(pages: seq<string>, startPage: int, endPage: int) returns (fullText: string)
    ensures fullText == PageRangeText(pages, startPage, endPage)
  {
    var pageTexts: seq<string> := [];
    var pg := startPage - 1;
    var stop := Min(endPage, |pages|);
    while pg < stop
      invariant startPage - 1 <= pg
      invariant pg <= stop || pg == startPage - 1
      invariant pageTexts == PagesRead(pages, startPage - 1, pg)
      decreases stop - pg
    {
      var cleaned := PageText(pages, pg);
      if cleaned != [] {
        pageTexts := pageTexts + [cleaned];
      }
      pg := pg + 1;
    }
    fullText := Join("\n", pageTexts);
  }

  /** The joined page text is blank exactly when every page in the range is. */
  lemma {:induction false} PageTextBlank(pages: seq<string>, lo: int, hi: int)
    ensures AllSpace(Join("\n", PagesRead(pages, lo, hi))) <==> forall pg :: lo <= pg < hi ==> AllSpace(PageText(pages, pg))
    decreases hi - lo
  {
    var xs := PagesRead(pages, lo, hi);
    NonWsOfSeparators();
    JoinContent("\n", xs);
    NonWsEmptyIffAllSpace(Join("\n", xs));
    PagesReadContent(pages, lo, hi);
  }

  lemma {:induction false} PagesReadContent(pages: seq<string>, lo: int, hi: int)
    ensures Content(PagesRead(pages, lo, hi)) == [] <==> forall pg :: lo <= pg < hi ==> AllSpace(PageText(pages, pg))
    decreases hi - lo
  {
    if hi > lo {
      PagesReadContent(pages, lo, hi - 1);
      PagesReadStep(pages, lo, hi);
      NonWsEmptyIffAllSpace(PageText(pages, hi - 1));
    } else {
      assert Concat([]) == [];
    }
  }

  lemma PagesReadStep(pages: seq<string>, lo: int, hi: int)
    requires lo < hi
    ensures Content(PagesRead(pages, lo, hi)) == Content(PagesRead(pages, lo, hi - 1)) + NonWs(PageText(pages, hi - 1))
  {
    var prev := PagesRead(pages, lo, hi - 1);
    var p := PageText(pages, hi - 1);
    if p != [] {
      ContentSnoc(prev, p);
    } else {
      assert PagesRead(pages, lo, hi) == prev;
    }
  }

  // --------------------------------------------------------- one clause entry

  /** The page where entry `k`'s range stops: the next clause's page, or the
      content boundary for the last clause. */
  function SectionEndPage(entries: seq<ClauseEntry>, k: nat, contentEnd: int): int
    requires k < |entries|
  {
    if k + 1 < |entries| then entries[k + 1].page else contentEnd
  }

  /** The section id of the next clause entry, if there is one. */
  function NextSectionId(entries: seq<ClauseEntry>, k: nat): Option<string>
    requires k < |entries|
  {
    if k + 1 < |entries| then ExtractSectionId(entries[k + 1].title) else None
  }

  /** The text of the pages of clause entry `k`. */
  function SectionFullText(pages: seq<string>, entries: seq<ClauseEntry>, k: nat, contentEnd: int): string
    requires k < |entries|
  {
    PageRangeText(pages, entries[k].page, SectionEndPage(entries, k, contentEnd))
  }

  /** The cleaned content of clause entry `k`, or None when `chunk_pdf` skips
      it because its pages or its cut-out text are blank. */
  function SectionContent(pages: seq<string>, entries: seq<ClauseEntry>, k: nat, contentEnd: int): (r: Option<string>)
    requires k < |entries|
    ensures r.Some? ==> !AllSpace(r.value) && HairSpace !in r.value && NoBreakSpace !in r.value
  {
    var full := SectionFullText(pages, entries, k, contentEnd);
    if AllSpace(full) then None
    else
      var id := ExtractSectionId(entries[k].title);
      var content := if id.Some? then ExtractSectionText(full, id.value, NextSectionId(entries, k)) else full;
      if AllSpace(content) then None
      else
        NonWsEmptyIffAllSpace(content);
        NonWsEmptyIffAllSpace(CleanContent(content));
        Some(CleanContent(content))
  }

  /** The non-whitespace characters entry `k` contributes to the chunks. */
  function SectionNonWs(pages: seq<string>, entries: seq<ClauseEntry>, k: nat, contentEnd: int): string
    requires k < |entries|
  {
    match SectionContent(pages, entries, k, contentEnd)
    case None => []
    case Some(c) => NonWs(c)
  }

  /** A clause entry whose pages are all blank gives no chunk. */
  lemma BlankPagesSkipped(pages: seq<string>, entries: seq<ClauseEntry>, k: nat, contentEnd: int)
    requires k < |entries|
    requires forall pg :: entries[k].page - 1 <= pg < Min(SectionEndPage(entries, k, contentEnd), |pages|) ==>
               AllSpace(PageText(pages, pg))
    ensures SectionContent(pages, entries, k, contentEnd).None?
  {
    PageTextBlank(pages, entries[k].page - 1, Min(SectionEndPage(entries, k, contentEnd), |pages|));
  }

  /** When the entry's title carries no section id, its whole page text is
      its content, cleaned. */
  lemma NoIdTakesAllPages(pages: seq<string>, entries: seq<ClauseEntry>, k: nat, contentEnd: int)
    requires k < |entries| && ExtractSectionId(entries[k].title).None?
    requires !AllSpace(SectionFullText(pages, entries, k, contentEnd))
    ensures SectionContent(pages, entries, k, contentEnd) == Some(CleanContent(SectionFullText(pages, entries, k, contentEnd)))
  {
  }

  /** The metadata every chunk of clause entry `e` carries. */
  predicate FromEntry(c: Chunk, toc: seq<TocEntry>, e: ClauseEntry, volume: int)
    requires volume in VolumeClasses
  {
    c.volume == volume && c.applicableClasses == VolumeClasses[volume] && !c.stateSpecific
    && c.section == ExtractSectionId(e.title)
    && e.tocIndex <= |toc| && c.part == GetPartFromToc(toc, e.tocIndex)
  }

  /** Lines of the chunk loop that turn clause entry `k` into its cleaned
      content: gather its pages, skip it when they are blank, cut out the
      clause by its section id, skip it when that is blank, clean it. */
  method CutSection(pages: seq<string>, entries: seq<ClauseEntry>, k: nat, contentEnd: int)
    returns (content: Option<string>)
    requires k < |entries|
    ensures content == SectionContent(pages, entries, k, contentEnd)
  {
    var entry := entries[k];
    var sectionId := ExtractSectionId(entry.title);
    var endPage := if k + 1 < |entries| then entries[k + 1].page else contentEnd;
    assert endPage == SectionEndPage(entries, k, contentEnd);
    var fullText := JoinPageTexts(pages, entry.page, endPage);
    assert fullText == SectionFullText(pages, entries, k, contentEnd);
    if Strip(fullText) == [] {
      assert AllSpace(fullText) by { StripEmptyIffBlank(fullText); }
      return None;
    }
    assert !AllSpace(fullText) by { StripEmptyIffBlank(fullText); }
    var nextSectionId: Option<string> := None;
    if k + 1 < |entries| {
      nextSectionId := ExtractSectionId(entries[k + 1].title);
    }
    assert nextSectionId == NextSectionId(entries, k);
    var text := if sectionId.Some? then ExtractSectionText(fullText, sectionId.value, nextSectionId) else fullText;
    if Strip(text) == [] {
      assert AllSpace(text) by { StripEmptyIffBlank(text); }
      return None;
    }
    assert !AllSpace(text) by { StripEmptyIffBlank(text); }
    return Some(CleanContent(text));
  }

  /** The inner loop of `chunk_pdf`: one chunk record per piece, titled by
      its position. */
  method TitleSubChunks(subChunks: seq<string>, toc: seq<TocEntry>, entry: ClauseEntry, volume: int)
    returns (sectionChunks: seq<Chunk>)
    requires entry.tocIndex <= |toc| && volume in VolumeClasses
    ensures Contents(sectionChunks) == subChunks
    ensures forall j :: 0 <= j < |sectionChunks| ==> FromEntry(sectionChunks[j], toc, entry, volume)
    ensures forall j :: 0 <= j < |sectionChunks| ==>
              sectionChunks[j].title == ChunkTitle(entry.title, j, |sectionChunks|)
    ensures forall i, j :: 0 <= i < j < |sectionChunks| ==> sectionChunks[i].title != sectionChunks[j].title
  {
    var sectionId := ExtractSectionId(entry.title);
    var part := GetPartFromToc(toc, entry.tocIndex);
    sectionChunks := [];
    var i := 0;
    while i < |subChunks|
      invariant 0 <= i <= |subChunks| && |sectionChunks| == i
      invariant forall j :: 0 <= j < i ==>
                  sectionChunks[j] == Chunk(subChunks[j], volume, part, sectionId, ChunkTitle(entry.title, j, |subChunks|),
                                            VolumeClasses[volume], false)
    {
      var chunkTitle := if |subChunks| == 1 then entry.title else PartTitle(entry.title, i + 1);
      sectionChunks := sectionChunks + [Chunk(subChunks[i], volume, part, sectionId, chunkTitle,
                                              VolumeClasses[volume], false)];
      i := i + 1;
    }
    TitlesDistinct(sectionChunks, entry.title);
  }

  lemma TitlesDistinct(chunks: seq<Chunk>, title: string)
    requires forall j :: 0 <= j < |chunks| ==> chunks[j].title == ChunkTitle(title, j, |chunks|)
    ensures forall i, j :: 0 <= i < j < |chunks| ==> chunks[i].title != chunks[j].title
  {
    forall a, b | 0 <= a < b < |chunks|
      ensures chunks[a].title != chunks[b].title
    {
      ChunkTitlesDistinct(title, |chunks|, a, b);
    }
  }

  /** Chunks that all come from entry `e` and have different titles. */
  predicate EntryChunks(chunks: seq<Chunk>, toc: seq<TocEntry>, e: ClauseEntry, volume: int)
    requires volume in VolumeClasses
  {
    && (forall j :: 0 <= j < |chunks| ==> FromEntry(chunks[j], toc, e, volume))
    && (forall i, j :: 0 <= i < j < |chunks| ==> chunks[i].title != chunks[j].title)
  }

  /** Chunk `j` of a section split into `|chunks|` pieces is titled as
      `chunk_pdf` titles it. */
  predicate PartTitles(chunks: seq<Chunk>, title: string) {
    forall j :: 0 <= j < |chunks| ==> chunks[j].title == ChunkTitle(title, j, |chunks|)
  }

  /** What the chunk loop adds for clause entry `k`. The chunks carry the
      entry's metadata and are titled by position (the title alone for one
      chunk, "(part i)" from 1 otherwise), so the titles are all different;
      every chunk's content is bounded as `split_long_chunk` bounds its
      pieces; together the chunks hold exactly the content of the clause; a
      skipped clause gives no chunk, any other at least one, and a clause
      within the limit exactly one chunk holding its cleaned content. */
  predicate SectionChunks(sc: seq<Chunk>, toc: seq<TocEntry>, pages: seq<string>, entries: seq<ClauseEntry>,
                          k: nat, contentEnd: int, volume: int)
    requires k < |entries| && volume in VolumeClasses
  {
    && EntryChunks(sc, toc, entries[k], volume)
    && PartTitles(sc, entries[k].title)
    && (forall j :: 0 <= j < |sc| ==> FinalPiece(sc[j].content))
    && Content(Contents(sc)) == SectionNonWs(pages, entries, k, contentEnd)
    && match SectionContent(pages, entries, k, contentEnd)
       case None => sc == []
       case Some(c) => sc != [] && (|c| <= MaxChunkChars ==> |sc| == 1 && sc[0].content == c)
  }

  /** The body of the chunk loop for clause entry `k`: the chunks it adds. */
  method ChunkSection(toc: seq<TocEntry>, pages: seq<string>, entries: seq<ClauseEntry>, k: nat,
                      contentEnd: int, volume: int) returns (sectionChunks: seq<Chunk>)
    requires k < |entries| && entries[k].tocIndex <= |toc| && volume in VolumeClasses
    ensures SectionChunks(sectionChunks, toc, pages, entries, k, contentEnd, volume)
  {
    var content := CutSection(pages, entries, k, contentEnd);
    if content.None? {
      assert Concat([]) == [];
      return [];
    }
    var subChunks := SplitLongChunk(content.value);
    sectionChunks := TitleSubChunks(subChunks, toc, entries[k], volume);
  }

  // ---------------------------------------------------------- the whole outline

  /** The non-whitespace characters of the first `n` clause entries' contents, in order. */
  function AllContent(pages: seq<string>, entries: seq<ClauseEntry>, n: nat, contentEnd: int): string
    requires n <= |entries|
  {
    if n == 0 then [] else AllContent(pages, entries, n - 1, contentEnd) + SectionNonWs(pages, entries, n - 1, contentEnd)
  }

  /** The clause entries `chunk_pdf` chunks. */
  function ClauseEntries(toc: seq<TocEntry>): seq<ClauseEntry> {
    SelectClauses(toc, |toc|)
  }

  lemma ChunkContentStep(chunks: seq<Chunk>, sectionChunks: seq<Chunk>, pages: seq<string>,
                         entries: seq<ClauseEntry>, k: nat, contentEnd: int)
    requires k < |entries|
    requires Content(Contents(chunks)) == AllContent(pages, entries, k, contentEnd)
    requires Content(Contents(sectionChunks)) == SectionNonWs(pages, entries, k, contentEnd)
    ensures Content(Contents(chunks + sectionChunks)) == AllContent(pages, entries, k + 1, contentEnd)
  {
    ContentsAppend(chunks, sectionChunks);
    ContentAppend(Contents(chunks), Contents(sectionChunks));
  }

  lemma ClauseEntriesInOutline(toc: seq<TocEntry>)
    ensures forall k :: 0 <= k < |ClauseEntries(toc)| ==> ClauseEntries(toc)[k].tocIndex < |toc|
  {
    SelectClausesSpec(toc, |toc|);
  }

  /** `sections[i]` are the chunks of clause entry `i`, for every `i`. */
  predicate AllSectionChunks(sections: seq<seq<Chunk>>, toc: seq<TocEntry>, pages: seq<string>,
                             entries: seq<ClauseEntry>, contentEnd: int, volume: int)
    requires |sections| <= |entries| && volume in VolumeClasses
  {
    forall i :: 0 <= i < |sections| ==> SectionChunks(sections[i], toc, pages, entries, i, contentEnd, volume)
  }

  /** What the chunk loop of `chunk_pdf` keeps after `k` clause entries: the
      chunks are those of entries 0 to k - 1, in order, entry by entry
      (`sections[i]` are the chunks of entry `i`, with all ChunkSection
      guarantees); every chunk is bounded and carries the metadata of a
      clause entry; and the chunks hold the content of those entries. */
  predicate ChunkLoopState(toc: seq<TocEntry>, pages: seq<string>, entries: seq<ClauseEntry>, contentEnd: int,
                           volume: int, k: nat, chunks: seq<Chunk>, sections: seq<seq<Chunk>>)
    requires volume in VolumeClasses
  {
    && k <= |entries| && |sections| == k && chunks == Flatten(sections)
    && AllSectionChunks(sections, toc, pages, entries, contentEnd, volume)
    && (forall j :: 0 <= j < |chunks| ==>
          FinalPiece(chunks[j].content) && exists i :: 0 <= i < k && FromEntry(chunks[j], toc, entries[i], volume))
    && Content(Contents(chunks)) == AllContent(pages, entries, k, contentEnd)
  }

  /** Before the first clause entry the loop state holds with no chunks. */
  lemma ChunkLoopStart(toc: seq<TocEntry>, pages: seq<string>, entries: seq<ClauseEntry>, contentEnd: int, volume: int)
    requires volume in VolumeClasses
    ensures ChunkLoopState(toc, pages, entries, contentEnd, volume, 0, [], [])
  {
    assert Contents([]) == [];
    assert Concat([]) == [];
  }

  /** Appending the chunks of entry `k` moves the loop state from `k` to `k + 1`. */
  lemma ChunkLoopStep(toc: seq<TocEntry>, pages: seq<string>, entries: seq<ClauseEntry>, contentEnd: int,
                      volume: int, k: nat, chunks: seq<Chunk>, sections: seq<seq<Chunk>>, sectionChunks: seq<Chunk>)
    requires volume in VolumeClasses && k < |entries|
    requires ChunkLoopState(toc, pages, entries, contentEnd, volume, k, chunks, sections)
    requires SectionChunks(sectionChunks, toc, pages, entries, k, contentEnd, volume)
    ensures ChunkLoopState(toc, pages, entries, contentEnd, volume, k + 1,
                           chunks + sectionChunks, sections + [sectionChunks])
  {
    FlattenSnoc(sections, sectionChunks);
    SectionsStep(toc, pages, entries, contentEnd, volume, k, sections, sectionChunks);
    ChunksStep(toc, entries, volume, k, chunks, sectionChunks);
    ChunkContentStep(chunks, sectionChunks, pages, entries, k, contentEnd);
  }

  /** Appending the chunks of entry `k` keeps every entry's chunks with the ChunkSection guarantees. */
  lemma SectionsStep(toc: seq<TocEntry>, pages: seq<string>, entries: seq<ClauseEntry>, contentEnd: int,
                     volume: int, k: nat, sections: seq<seq<Chunk>>, sectionChunks: seq<Chunk>)
    requires volume in VolumeClasses && k < |entries| && |sections| == k
    requires AllSectionChunks(sections, toc, pages, entries, contentEnd, volume)
    requires SectionChunks(sectionChunks, toc, pages, entries, k, contentEnd, volume)
    ensures AllSectionChunks(sections + [sectionChunks], toc, pages, entries, contentEnd, volume)
  {
    var ss := sections + [sectionChunks];
    forall i | 0 <= i < k + 1
      ensures SectionChunks(ss[i], toc, pages, entries, i, contentEnd, volume)
    {
      if i < k {
        assert ss[i] == sections[i];
      } else {
        assert ss[i] == sectionChunks;
      }
    }
  }

  /** Appending the chunks of entry `k` keeps every chunk bounded and from a clause entry. */
  lemma ChunksStep(toc: seq<TocEntry>, entries: seq<ClauseEntry>, volume: int, k: nat,
                   chunks: seq<Chunk>, sectionChunks: seq<Chunk>)
    requires volume in VolumeClasses && k < |entries|
    requires forall j :: 0 <= j < |chunks| ==>
               FinalPiece(chunks[j].content) && exists i :: 0 <= i < k && FromEntry(chunks[j], toc, entries[i], volume)
    requires forall j :: 0 <= j < |sectionChunks| ==>
               FinalPiece(sectionChunks[j].content) && FromEntry(sectionChunks[j], toc, entries[k], volume)
    ensures var cs := chunks + sectionChunks;
            forall j :: 0 <= j < |cs| ==>
              FinalPiece(cs[j].content) && exists i :: 0 <= i < k + 1 && FromEntry(cs[j], toc, entries[i], volume)
  {
    var cs := chunks + sectionChunks;
    var n := |chunks|;
    forall j | 0 <= j < |cs|
      ensures FinalPiece(cs[j].content) && exists i :: 0 <= i < k + 1 && FromEntry(cs[j], toc, entries[i], volume)
    {
      if j < n {
        assert cs[j] == chunks[j];
      } else {
        assert cs[j] == sectionChunks[j - n];
        assert FromEntry(cs[j], toc, entries[k], volume);
      }
    }
  }

  /** `chunk_pdf` without the PDF access: the outline and the cleaned page
      texts are given. The chunks are those of the selected clause entries,
      entry by entry in outline order (`sections`), each with the guarantees
      of ChunkSection; every chunk is bounded and carries the metadata of a
      selected clause; and the chunks hold, in order, exactly the content of
      the selected clauses cut at the content boundary. */
  method ChunkPdf(toc: seq<TocEntry>, pages: seq<string>, volume: int)
    returns (chunks: seq<Chunk>, ghost sections: seq<seq<Chunk>>)
    requires volume in VolumeClasses
    ensures ChunkLoopState(toc, pages, ClauseEntries(toc),
                           ContentBoundary(toc, LastClauseIndex(ClauseEntries(toc)) + 1, |pages|),
                           volume, |ClauseEntries(toc)|, chunks, sections)
    ensures Content(Contents(chunks)) == AllContent(pages, ClauseEntries(toc), |ClauseEntries(toc)|,
                                                    ContentBoundary(toc, LastClauseIndex(ClauseEntries(toc)) + 1, |pages|))
    ensures forall j :: 0 <= j < |chunks| ==> FinalPiece(chunks[j].content)
    ensures forall j :: 0 <= j < |chunks| ==>
              exists k :: 0 <= k < |ClauseEntries(toc)| && FromEntry(chunks[j], toc, ClauseEntries(toc)[k], volume)
  {
    var entries := FilterClauseEntries(toc);
    assert entries == ClauseEntries(toc);
    var lastIndex := if entries != [] then entries[|entries| - 1].tocIndex else 0;
    assert lastIndex == LastClauseIndex(entries);
    var contentEnd := ContentEndPage(toc, lastIndex, |pages|);
    assert contentEnd == ContentBoundary(toc, LastClauseIndex(ClauseEntries(toc)) + 1, |pages|);
    ClauseEntriesInOutline(toc);
    chunks, sections := ChunkEntries(toc, pages, entries, contentEnd, volume);
  }

  /** The per-section loop of `chunk_pdf`: the chunks of every kept clause
      entry, in order. */
  method ChunkEntries(toc: seq<TocEntry>, pages: seq<string>, entries: seq<ClauseEntry>, contentEnd: int, volume: int)
    returns (chunks: seq<Chunk>, ghost sections: seq<seq<Chunk>>)
    requires volume in VolumeClasses
    requires forall k :: 0 <= k < |entries| ==> entries[k].tocIndex < |toc|
    ensures ChunkLoopState(toc, pages, entries, contentEnd, volume, |entries|, chunks, sections)
    ensures Content(Contents(chunks)) == AllContent(pages, entries, |entries|, contentEnd)
    ensures forall j :: 0 <= j < |chunks| ==> FinalPiece(chunks[j].content)
    ensures forall j :: 0 <= j < |chunks| ==> exists k :: 0 <= k < |entries| && FromEntry(chunks[j], toc, entries[k], volume)
  {
    chunks, sections := [], [];
    var k := 0;
    ChunkLoopStart(toc, pages, entries, contentEnd, volume);
    while k < |entries|
      invariant k <= |entries|
      invariant ChunkLoopState(toc, pages, entries, contentEnd, volume, k, chunks, sections)
    {
      chunks, sections := ChunkNextEntry(toc, pages, entries, contentEnd, volume, k, chunks, sections);
      k := k + 1;
    }
    ChunkLoopFacts(toc, pages, entries, contentEnd, volume, chunks, sections);
  }

  /** One turn of the chunk loop: append the chunks of clause entry `k`. */
  method ChunkNextEntry(toc: seq<TocEntry>, pages: seq<string>, entries: seq<ClauseEntry>, contentEnd: int,
                        volume: int, k: nat, chunks: seq<Chunk>, ghost sections: seq<seq<Chunk>>)
    returns (chunks': seq<Chunk>, ghost sections': seq<seq<Chunk>>)
    requires volume in VolumeClasses && k < |entries| && entries[k].tocIndex < |toc|
    requires ChunkLoopState(toc, pages, entries, contentEnd, volume, k, chunks, sections)
    ensures ChunkLoopState(toc, pages, entries, contentEnd, volume, k + 1, chunks', sections')
  {
    var sectionChunks := ChunkSection(toc, pages, entries, k, contentEnd, volume);
    ChunkLoopStep(toc, pages, entries, contentEnd, volume, k, chunks, sections, sectionChunks);
    chunks', sections' := chunks + sectionChunks, sections + [sectionChunks];
  }

  /** What the finished loop state says about the chunks themselves. */
  lemma ChunkLoopFacts(toc: seq<TocEntry>, pages: seq<string>, entries: seq<ClauseEntry>, contentEnd: int,
                       volume: int, chunks: seq<Chunk>, sections: seq<seq<Chunk>>)
    requires volume in VolumeClasses
    requires ChunkLoopState(toc, pages, entries, contentEnd, volume, |entries|, chunks, sections)
    ensures Content(Contents(chunks)) == AllContent(pages, entries, |entries|, contentEnd)
    ensures forall j :: 0 <= j < |chunks| ==> FinalPiece(chunks[j].content)
    ensures forall j :: 0 <= j < |chunks| ==> exists k :: 0 <= k < |entries| && FromEntry(chunks[j], toc, entries[k], volume)
  {
  }
}
