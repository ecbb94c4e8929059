# Chunking the National Construction Code PDFs

This project is a Dafny model of the chunking core of the NCC ingestion
script (`ingestion/ingest.py`). The script reads a volume of the National
Construction Code as a PDF, with its outline (table of contents) and the
cleaned text of each page. It cuts the volume into one chunk record per
clause, splitting long clauses into several parts, and then embeds and
uploads the chunks. The model covers the part that decides *what the chunks
are*:

- **Outline filter.** Only the level-3 outline entries (clauses) are kept.
  Clauses inside a state or territory appendix are skipped. An appendix is
  opened by a level-1/2 heading whose first word is a state code, or whose
  title mentions "Schedule" together with a state code (`Toc`).
- **Content boundary.** The content ends at the first level-1 heading after
  the last kept clause, or at the last page (`Toc`).
- **Section ids.** The section id of a clause is the first word of its title
  matching `^[A-Z]\d+[A-Z]+\d+$` or `^S\d+C\d+$`. The "part" of a clause is
  the nearest level-1/2 heading before it (`Toc`).
- **Section text.** The clause text is cut out of the joined page text by
  the hair-space-wrapped id markers (U+200A). It is then cleaned: hair spaces
  removed, non-breaking spaces turned into spaces, whitespace-only lines
  emptied (`Sections`).
- **Splitting.** `split_long_chunk` works in three passes. It packs
  paragraphs up to 2000 characters, merges stubs under 50 characters into a
  neighbour, and force-splits what is still too long with
  `split_at_sentences` (`Splitting`).
- **The chunk loop.** It gathers each clause's pages, cuts, cleans and
  splits the text, and titles the parts "(part i)" (`Chunking`).

`Text` models the Python string operations the core relies on:
- `str.isspace`, `strip`, `split()`, `find`, `in`, `join`, `replace`;
- content preservation, stated as "the non-whitespace characters, in order"
  (`NonWs`, `Content`).

`re.split` is modelled as a leftmost-first scanner over the two patterns the
core uses (`Splitting.MatchAt`). `re.sub` for `\n[ \t]+\n` is modelled as a
non-overlapping scan (`Sections.CollapseBlankLines`).

The PDF itself is not modelled. The outline is a sequence of `TocEntry`
(level, title, page) and the document is the sequence of its cleaned page
texts.

## Model

| member | source | states |
|---|---|---|
| Toc.ClauseCodeIff | ingestion/ingest.py:34 | the run-based test accepts exactly the words of shape `[A-Z]\d+[A-Z]+\d+`: a capital, digits, capitals, digits and nothing else (both directions) |
| Toc.SpecCodeIsClauseCode | ingestion/ingest.py:34-35 | every word matching `S\d+C\d+` also matches the clause pattern, so the second pattern adds no word the first rejects |
| Toc.FirstSectionId | ingestion/ingest.py:64-68 | None exactly when no word is a section id; otherwise the result is the first word, in order, that is one |
| Toc.ExtractSectionId | ingestion/ingest.py:64-68 | a found id is one of the title's `split()` words, matches one of the two patterns, is non-empty and contains no whitespace |
| Toc.UpperAt | ingestion/ingest.py:75 | upper-casing keeps every occurrence in place: if `pat` occurs in `s` at offset `i`, then `pat.upper()` occurs in `s.upper()` at the same offset `i` |
| Toc.NotStateAppendix | ingestion/ingest.py:71-79 | a heading below level 2, or one with an empty title, never opens a state appendix |
| Toc.StateAppendixByFirstWord | ingestion/ingest.py:74-76 | a level-1/2 heading written as a state code (in any letter case), a space and the rest of the title opens a state appendix |
| Toc.StateAppendixBySchedule | ingestion/ingest.py:77-78 | a level-1/2 heading whose title contains "Schedule" and the code of a state or territory opens a state appendix |
| Toc.IsStateAppendix | ingestion/ingest.py:71-79 | `is_state_appendix`: a heading that opens a state appendix has level at most 2 and names a state code somewhere in its upper-cased title |
| Toc.GetPartFromToc | ingestion/ingest.py:82-87 | None exactly when no entry before `idx` has level ≤ 2; otherwise the title of the nearest such entry before `idx` |
| Toc.GetPartReadsOnlyPrefix | ingestion/ingest.py:82-87 | the result depends only on the entries before `idx` |
| Toc.HeadingBefore | ingestion/ingest.py:82-87 | with heading `h` of level ≤ 2 and only deeper entries between `h` and `j`, the part of `j` is the title of `h` |
| Toc.SelectClausesSpec | ingestion/ingest.py:126-135 | the selection holds every kept entry (level 3, outside a state appendix) exactly once, in outline order, with its outline title and page, and nothing else |
| Toc.StateFlagIsPartTest | ingestion/ingest.py:127-133 | the loop's `state_appendix_started` flag after `n` entries is the state-appendix test of the part heading that `get_part_from_toc` finds for entry `n` |
| Toc.FilterClauseEntries | ingestion/ingest.py:126-135 | the filter loop returns exactly the selection of kept entries |
| Toc.KeptByFlag | ingestion/ingest.py:130-135 | an entry is kept exactly when it has level 3 and the flag, updated by this entry, is clear |
| Toc.SkippedInsideStateAppendix | ingestion/ingest.py:130-133 | a clause after a state-appendix heading, with no other level-1/2 heading in between, is skipped |
| Toc.KeptAfterOrdinaryHeading | ingestion/ingest.py:130-135 | a level-3 entry after an ordinary level-1/2 heading, with no other such heading in between, is kept |
| Toc.ContentEndPage | ingestion/ingest.py:137-145 | the page of the first level-1 entry after the last clause; the total page count when there is none |
| Sections.SectionEnd | ingestion/ingest.py:101-107 | the end is the first occurrence of the next id's marker at or after the end of this marker; the end of the text when there is none or the next id is empty |
| Sections.ExtractSectionText | ingestion/ingest.py:90-107 | without the marker the whole text comes back unchanged; with it, a stripped text strictly shorter than the input |
| Sections.SectionTextIsSlice | ingestion/ingest.py:96-107 | the result lies between the marker and the section end and keeps all non-whitespace characters of that stretch |
| Sections.SectionTextStartsWithId | ingestion/ingest.py:96-107 | since the hair space is whitespace, the extracted text starts with the section id itself |
| Sections.BlankLineAt | ingestion/ingest.py:180 | a match of `\n[ \t]+\n` at the start: two newlines around one or more spaces or tabs |
| Sections.CollapseBlankLines | ingestion/ingest.py:180 | the substitution removes only spaces and tabs, never lengthens the text and adds no character |
| Sections.CollapseWithoutBlankLines | ingestion/ingest.py:180 | a text with no whitespace-only line is returned unchanged |
| Sections.CollapseOneBlankLine | ingestion/ingest.py:180 | a whitespace-only line between two newlines becomes an empty line, and scanning resumes after the closing newline |
| Sections.DropBlanksKeepsContent | ingestion/ingest.py:180 | removing spaces and tabs keeps all non-whitespace characters |
| Sections.CleanContent | ingestion/ingest.py:178-180 | the cleaned content has no hair space or non-breaking space, is no longer than the input, and keeps its non-whitespace characters |
| Splitting.MatchAt | ingestion/ingest.py:206 | a match of either pattern is non-empty whitespace. A `\n\s*\n` match is at least two characters long, starts and ends with a newline, and no newline follows it in the whitespace run it stops before. A sentence-break match either follows `.` or `;` and takes the whole whitespace run, or is a single newline; whitespace after `.` or `;` always matches the first alternative, whole run, and a newline always starts a match |
| Splitting.RegexSplit | ingestion/ingest.py:206 | `re.split` returns at least one piece, and the pieces together keep every non-whitespace character of the input, in order |
| Splitting.SplitSeparators | ingestion/ingest.py:206 | every separator that `re.split` drops is non-empty whitespace |
| Splitting.SplitRoundTrip | ingestion/ingest.py:206 | there is one more piece than separator, and the pieces of `re.split`, interleaved with the separators matched between them, give back the scanned text exactly |
| Splitting.InterleavedSlices | ingestion/ingest.py:206 | whenever pieces interleaved with separators give back the text, every piece occurs in the text at its own offset, so every piece of `re.split` is a slice of the text |
| Splitting.ParagraphBreakFound | ingestion/ingest.py:206 | the paragraph matcher is complete: a newline followed, after only whitespace, by another newline starts a match of `\n\s*\n`, and the match reaches past that second newline |
| Splitting.ParagraphPiecesHaveNoBlankLine | ingestion/ingest.py:206 | no piece that `re.split` cuts at blank lines, from any point of the scan on, holds a newline followed after only whitespace by another newline |
| Splitting.ParagraphsHaveNoBlankLine | ingestion/ingest.py:206 | no paragraph of `re.split(r"\n\s*\n", text)` holds a blank line |
| Splitting.SentencesAreSingle | ingestion/ingest.py:242 | every piece of the sentence split holds no newline and no full stop or semicolon followed by whitespace |
| Splitting.SentencePiecesAreSingle | ingestion/ingest.py:242 | the same for a scan resumed part-way through the text |
| Splitting.StripSingleSentence | ingestion/ingest.py:249 | stripping a single sentence leaves a single sentence |
| Splitting.GroupSnoc | ingestion/ingest.py:215 | the text a run gathers grows as the loops grow `current`: a paragraph is appended after a blank line (or replaces an empty `current`); a blank sentence is skipped, any other appended after a space (or replaces an empty `current`) |
| Splitting.PackNextSentence | ingestion/ingest.py:245-252 | one pass of the sentence loop keeps the packing invariant: a blank sentence is skipped untested; the finished pieces are closed runs of whole sentences, each closed at the first non-blank sentence that would take a non-empty `current` past 2000 characters; `current` gathers the open run, every sentence of which fitted; all content so far is held in order; a finished piece over 2000 characters is one sentence, stripped |
| Splitting.PackSentences | ingestion/ingest.py:243-254 | the sentence loop and final flush keep all content; every piece is stripped, non-empty, and within 2000 characters unless it is one of the sentences, stripped; the pieces are consecutive runs of whole sentences, blank ones skipped and the rest joined by single spaces, then stripped; each run takes sentences until the first non-blank one that would take it past 2000 characters and closes exactly there; the last run reaches the end and is kept only when not blank (with PackedUnique these conditions fix the output) |
| Splitting.FlushLastSentences | ingestion/ingest.py:253-254 | after the loop a non-blank `current` is stripped and appended; the result keeps all content, every piece is a sentence piece, and the packing reaches the end |
| Splitting.SplitAtSentences | ingestion/ingest.py:240-255 | never empty; keeps all content in order; returns `[text]` for a blank text; otherwise every piece is stripped, non-empty and within 2000 characters unless it is one sentence of the split, stripped, and the pieces are the greedy packing of the sentence split of `text` (so no sentence is cut and the output is fixed, by PackedUnique); every piece over 2000 characters holds no sentence break |
| Splitting.SentencePiecesAreFinal | ingestion/ingest.py:242-249 | a piece of `split_at_sentences` longer than 2000 characters is one sentence of the split, stripped, and so holds no newline and no `.`/`;` followed by whitespace |
| Splitting.PackNextParagraph | ingestion/ingest.py:210-215 | one pass of the paragraph loop keeps the packing invariant: the finished pieces are closed runs of whole paragraphs, each closed at the first paragraph that would take a non-empty `current` past 2000 characters; `current` gathers the open run, every paragraph of which fitted; all content so far is held in order |
| Splitting.PackParagraphs | ingestion/ingest.py:206-218 | the paragraph loop keeps all content; every piece is stripped and within 2000 characters unless it is one paragraph on its own; the pieces are consecutive runs of whole paragraphs of `re.split(r"\n\s*\n", text)` joined by blank lines (from the first non-empty one) and stripped, so no paragraph is cut; each run takes paragraphs until the first one that would take a non-empty `current` past 2000 characters and closes exactly there; the last run reaches the end and is kept only when not blank (with PackedUnique these conditions fix the output) |
| Splitting.FlushLastParagraphs | ingestion/ingest.py:217-218 | after the loop a non-blank `current` is stripped and appended; the result keeps all content, every piece is a paragraph piece, and the packing reaches the end |
| Splitting.PackedUnique | ingestion/ingest.py:210-218 | the packing conditions shared by both loops (consecutive runs, each closed at its first misfit, the last one kept only when not blank) admit exactly one list of pieces and cuts, so a contract stated by them determines the output of the loop |
| Splitting.MergeStubs | ingestion/ingest.py:220-228 | each merged chunk joins, with blank lines, a run of consecutive input chunks; a chunk is merged into the run before it exactly when that run as joined so far, or the chunk, is under 50 characters, and otherwise starts a new merged chunk (with MergedUnique this fixes the output); joining the result with blank lines gives the same text as joining the input; there are no more chunks than before and none exactly when there were none; only the last chunk can be under 50 characters, and none is when two or more remain |
| Splitting.MergeNext | ingestion/ingest.py:223-228 | one pass of the merge loop keeps the merge invariant: chunk `i` extends the last merged chunk exactly when that one or the chunk is under 50 characters, and is a new merged chunk otherwise; the joined text, the bounds and the runs of input chunks are kept |
| Splitting.MergedUnique | ingestion/ingest.py:222-228 | the run conditions of MergeStubs admit exactly one result and one set of cuts |
| Splitting.ForceSplit | ingestion/ingest.py:230-237 | the output is, in order, what each merged chunk became: the chunk itself when within 2000 characters, otherwise the `split_at_sentences` result of it (its greedy packing of whole sentences, as SplitAtSentences states); keeps all content in order; each piece is within 2000 characters, a single sentence, or blank; input already within the limit is returned as is |
| Splitting.ForceNext | ingestion/ingest.py:233-237 | one pass of the force-split loop keeps its invariant: the merged chunk is kept whole when within 2000 characters and otherwise replaced by a `split_at_sentences` result of it; the output so far is the concatenation of what each chunk became, keeps all content in order and every piece is within the limit, a single sentence or blank |
| Splitting.SplitLongChunk | ingestion/ingest.py:201-237 | a text within 2000 characters comes back as `[text]`; otherwise all content is kept in order, every piece satisfies the force-split bound, and a non-blank text gives at least one piece |
| Text.StripKeepsContent | ingestion/ingest.py:105-107 | `strip` keeps every non-whitespace character and never lengthens |
| Text.StripEmptyIffBlank | ingestion/ingest.py:165 | `not s.strip()` holds exactly when `s` is whitespace only |
| Text.StrippedIffFixpoint | ingestion/ingest.py:212 | `strip` returns a string without leading or trailing whitespace and leaves exactly those unchanged |
| Text.WordsKeepContent | ingestion/ingest.py:65 | `split()` returns every non-whitespace character, in order, and nothing else |
| Text.WordsAreWords | ingestion/ingest.py:65 | every word from `split()` is non-empty and free of whitespace |
| Text.FirstWord | ingestion/ingest.py:74 | the first word of `w + " " + rest` is `w` |
| Text.Find | ingestion/ingest.py:97 | `find` returns the first occurrence at or after `from`, or None when there is none |
| Text.JoinContent | ingestion/ingest.py:163 | joining with a whitespace separator keeps exactly the content of the pieces |
| Text.RemoveChar | ingestion/ingest.py:178 | removing a character leaves no occurrence of it, keeps every other character, and maps a one-character string to itself or to the empty string; removing a space-like character keeps the non-whitespace text |
| Text.RemoveCharCounts | ingestion/ingest.py:178 | every other character is kept exactly as often as it occurred, and every copy of the removed character goes |
| Text.RemoveCharAppend | ingestion/ingest.py:178 | removal works piece by piece on a concatenation, so with the one-character case the kept characters stay in their order |
| Text.ReplaceChar | ingestion/ingest.py:178 | replacing keeps the length; the replaced character becomes the new one and every other stays in place |
| Chunking.VolumeClassesPartition | ingestion/ingest.py:26-29 | the two volumes split building classes 1 to 10 between them: each class in exactly one volume |
| Chunking.Decimal | ingestion/ingest.py:186 | `str(n)` is a non-empty string of digits, with a leading zero only for 0 |
| Chunking.DecimalRoundTrip | ingestion/ingest.py:186 | parsing `str(n)` gives back `n` |
| Chunking.DecimalInjective | ingestion/ingest.py:186 | different numbers have different decimal strings |
| Chunking.PartTitlesDistinct | ingestion/ingest.py:186 | "(part i)" titles for different `i` differ |
| Chunking.ChunkTitlesDistinct | ingestion/ingest.py:186 | the titles of the parts of one section are pairwise different |
| Chunking.JoinPageTexts | ingestion/ingest.py:157-163 | the page loop joins, with newlines, the non-empty cleaned texts of pages `start_page - 1` up to `min(end_page, total_pages)` |
| Chunking.PageTextBlank | ingestion/ingest.py:157-165 | the joined page text is blank exactly when every page in the range is blank |
| Chunking.PagesReadContent | ingestion/ingest.py:158-162 | the kept page texts hold no content exactly when every page in the range is blank |
| Chunking.SectionContent | ingestion/ingest.py:149-180 | content that is not skipped is non-blank and has no hair space and no non-breaking space |
| Chunking.BlankPagesSkipped | ingestion/ingest.py:165-166 | a clause whose pages are all blank gives no content |
| Chunking.CutSection | ingestion/ingest.py:149-180 | the cut-and-clean steps compute the clause's content, or skip it |
| Chunking.TitleSubChunks | ingestion/ingest.py:184-195 | one record per piece, in order, with the entry's metadata; the title alone when there is one piece, "(part i)" otherwise; titles pairwise different |
| Chunking.ChunkSection | ingestion/ingest.py:148-195 | the chunks of one clause carry its metadata and are titled by position: the title alone for one chunk, "(part i)" from 1 otherwise, all different; each chunk's content is within 2000 characters, a single sentence or blank; together they hold exactly the clause's cleaned content; a skipped clause gives none, any other at least one, and a clause of at most 2000 characters exactly one chunk holding its cleaned content |
| Chunking.ChunkLoopStep | ingestion/ingest.py:148-195 | appending one clause's chunks, with all the guarantees of ChunkSection, keeps the loop invariant: the chunks are those of the clauses so far, clause by clause in order, each clause's chunks with the ChunkSection guarantees; every chunk bounded and from a clause; content equal to those clauses' content |
| Chunking.ChunkEntries | ingestion/ingest.py:147-195 | after the loop the chunks are those of every clause entry, clause by clause in order, each clause's chunks titled by position ("(part i)"), bounded, with that clause's section id, part, volume and classes and its content (one chunk for a clause within 2000 characters); every chunk is within 2000 characters, a single sentence or blank; the chunks hold exactly the content of all clauses |
| Chunking.ChunkPdf | ingestion/ingest.py:110-198 | `chunk_pdf` on a given outline and page texts: the loop guarantees of ChunkEntries for the selected clauses and the computed content boundary; every chunk is within 2000 characters, a single sentence or blank, and carries the section id, part, volume and classes of one of the selected clauses; the chunks hold, in order, exactly the content of the selected clauses |

## Left out

- Reading the PDF (`fitz`), `get_toc`, the page cache and `clean_page_text` (header, footer and annotation regexes) are not modelled. The outline and the cleaned page texts are inputs.
- Embedding, upload, the command line, `load_env` and the dry-run printer are not modelled: they are network and I/O code outside the chunking logic.
- `\d` and `str.upper()` are modelled for ASCII only. Python's `\d` also matches other Unicode decimal digits, and `upper()` maps non-ASCII letters too.
- `str.isspace` is modelled by its fixed set of Unicode whitespace characters.
- Chunking.PageText: `doc[pg]` belongs to the PDF library, which is not part of this model. The model reads a negative index from `-total_pages` on as counting from the last page, and any index below `-total_pages` as an empty page.
- Toc.ExtractSectionId: its own contract does not state the first-match property. That property is stated on Toc.FirstSectionId, which ExtractSectionId applies to the title's words.
- Chunking.ChunkPdf: the volume must be 1 or 2. Python would raise `KeyError` for any other volume before reading the outline.
- Chunking.ChunkPdf: `doc.close()` and the page cache are not modelled. Reading a page is a pure lookup.
- Splitting.SplitLongChunk: its own contract gives the length bound and content; that its pieces are runs of whole paragraphs and then of whole sentences is stated on the passes it composes (PackParagraphs, MergeStubs, ForceSplit) and not restated for the composition.
- Sections.CollapseBlankLines is single-pass, as the source is. Two whitespace-only lines in a row leave the second one in place. This is the behaviour of `re.sub`, and the model keeps it.
