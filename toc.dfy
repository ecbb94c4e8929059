/** Section identification and table-of-contents handling of the ingestion
    script: `extract_section_id`, `is_state_appendix`, `get_part_from_toc`,
    the level-3 filter loop and the content-boundary loop of `chunk_pdf`. */
module Toc {
  import opened Text

  /** One entry of the PDF outline as the PDF library returns it:
      nesting level (1 = top), title, and 1-based page number. */
  datatype TocEntry = TocEntry(level: int, title: string, page: int)

  /** A clause entry kept by the filter: its index in the outline, its title
      and its start page. */
  datatype ClauseEntry = ClauseEntry(tocIndex: nat, title: string, page: int)

  // ---------------------------------------------------------------- clause codes

  /** `[A-Z]` in a Python regular expression. */
  predicate IsUpper(c: char) { 'A' <= c <= 'Z' }

  /** `\d`, restricted to the ASCII digits. */
  predicate IsDigit(c: char) { '0' <= c <= '9' }

  predicate AllDigits(s: string) { forall i :: 0 <= i < |s| ==> IsDigit(s[i]) }
  predicate AllUpper(s: string) { forall i :: 0 <= i < |s| ==> IsUpper(s[i]) }

  /** End of the run of digits that starts at `i`. */
  function DigitRunEnd(w: string, i: nat): (e: nat)
    requires i <= |w|
    ensures i <= e <= |w| && AllDigits(w[i..e]) && (e == |w| || !IsDigit(w[e]))
    decreases |w| - i
  {
    if i < |w| && IsDigit(w[i]) then
      var e := DigitRunEnd(w, i + 1);
      assert w[i..e] == [w[i]] + w[i + 1..e];
      e
    else i
  }

  /** End of the run of upper-case letters that starts at `i`. */
  function UpperRunEnd(w: string, i: nat): (e: nat)
    requires i <= |w|
    ensures i <= e <= |w| && AllUpper(w[i..e]) && (e == |w| || !IsUpper(w[e]))
    decreases |w| - i
  {
    if i < |w| && IsUpper(w[i]) then
      var e := UpperRunEnd(w, i + 1);
      assert w[i..e] == [w[i]] + w[i + 1..e];
      e
    else i
  }

  /** `SECTION_ID_RE.match(w)`, i.e. `^[A-Z]\d+[A-Z]+\d+$`, computed by
      maximal runs (digits and letters are disjoint, so the regex never
      needs to back off). */
  predicate IsClauseCode(w: string) {
    |w| > 0 && IsUpper(w[0]) &&
    var a := DigitRunEnd(w, 1);
    a > 1 &&
    var b := UpperRunEnd(w, a);
    b > a && b < |w| && DigitRunEnd(w, b) == |w|
  }

  /** The shape `^[A-Z]\d+[A-Z]+\d+$` describes, stated directly. */
  ghost predicate ClauseCodeShape(w: string) {
    exists a, b :: 1 < a < b < |w| && IsUpper(w[0]) && AllDigits(w[1..a]) && AllUpper(w[a..b]) && AllDigits(w[b..])
  }

  /** The run-based check accepts exactly the words of the regex's shape. */
  lemma ClauseCodeIff(w: string)
    ensures IsClauseCode(w) <==> ClauseCodeShape(w)
  {
    if IsClauseCode(w) {
      var a := DigitRunEnd(w, 1);
      var b := UpperRunEnd(w, a);
      assert 1 < a < b < |w| && AllDigits(w[1..a]) && AllUpper(w[a..b]) && AllDigits(w[b..]);
    }
    if ClauseCodeShape(w) {
      var a, b :| 1 < a < b < |w| && IsUpper(w[0]) && AllDigits(w[1..a]) && AllUpper(w[a..b]) && AllDigits(w[b..]);
      RunEndAt(w, 1, a);
      assert !IsDigit(w[a]) by { assert w[a] == w[a..b][0]; }
      assert DigitRunEnd(w, 1) == a;
      UpperRunEndAt(w, a, b);
      assert !IsUpper(w[b]) by { assert w[b] == w[b..][0]; }
      assert UpperRunEnd(w, a) == b;
      RunEndAt(w, b, |w|);
    }
  }

  /** A digit run from `i` through `e` that stops at `e` ends at `e`. */
  lemma {:induction false} RunEndAt(w: string, i: nat, e: nat)
    requires i <= e <= |w| && AllDigits(w[i..e])
    ensures DigitRunEnd(w, i) >= e
    ensures e < |w| && !IsDigit(w[e]) ==> DigitRunEnd(w, i) == e
    decreases e - i
  {
    if i < e {
      assert IsDigit(w[i]) by { assert w[i] == w[i..e][0]; }
      assert w[i + 1..e] == w[i..e][1..];
      RunEndAt(w, i + 1, e);
    }
  }

  lemma {:induction false} UpperRunEndAt(w: string, i: nat, e: nat)
    requires i <= e <= |w| && AllUpper(w[i..e])
    ensures UpperRunEnd(w, i) >= e
    ensures e < |w| && !IsUpper(w[e]) ==> UpperRunEnd(w, i) == e
    decreases e - i
  {
    if i < e {
      assert IsUpper(w[i]) by { assert w[i] == w[i..e][0]; }
      assert w[i + 1..e] == w[i..e][1..];
      UpperRunEndAt(w, i + 1, e);
    }
  }

  /** `SPEC_ID_RE.match(w)`, i.e. `^S\d+C\d+$`. */
  predicate IsSpecCode(w: string) {
    |w| > 0 && w[0] == 'S' &&
    var a := DigitRunEnd(w, 1);
    a > 1 && a + 1 < |w| && w[a] == 'C' && DigitRunEnd(w, a + 1) == |w|
  }

  /** Every specification code (`S2C1`) is also of the clause-code shape, so
      the second pattern never selects a word the first would reject. */
  lemma SpecCodeIsClauseCode(w: string)
    requires IsSpecCode(w)
    ensures IsClauseCode(w)
  {
    var a := DigitRunEnd(w, 1);
    assert AllUpper(w[a..a + 1]);
    UpperRunEndAt(w, a, a + 1);
    assert w[a + 1..DigitRunEnd(w, a + 1)] == w[a + 1..];
    assert w[a + 1] == w[a + 1..][0];
    assert UpperRunEnd(w, a) == a + 1;
  }

  /** A word that `extract_section_id` accepts. */
  predicate IsSectionId(w: string) {
    IsClauseCode(w) || IsSpecCode(w)
  }

  /** The first word of `words` that is a section id. */
  function FirstSectionId(words: seq<string>): (r: Option<string>)
    ensures r.None? <==> forall k :: 0 <= k < |words| ==> !IsSectionId(words[k])
    ensures r.Some? ==> exists k :: 0 <= k < |words| && words[k] == r.value && IsSectionId(r.value)
                                    && forall j :: 0 <= j < k ==> !IsSectionId(words[j])
  {
    if words == [] then None
    else if IsSectionId(words[0]) then Some(words[0])
    else
      var r := FirstSectionId(words[1..]);
      assert forall k :: 1 <= k < |words| ==> words[k] == words[1..][k - 1];
      r
  }

  /** `extract_section_id`: the first whitespace-separated word of the title
      that is a clause code or a specification code, or None (the full
      first-match contract is the one of `FirstSectionId` on the title's
      words). The result is one of the title's words, so it is never empty
      and holds no whitespace. */
  function ExtractSectionId(title: string): (r: Option<string>)
    ensures r.Some? ==> r.value in Words(title) && IsSectionId(r.value)
    ensures r.Some? ==> r.value != [] && NoSpace(r.value)
  {
    WordsAreWords(title);
    FirstSectionId(Words(title))
  }

  // ---------------------------------------------------------- state appendices

  /** STATE_PREFIXES: the codes of the states and territories. */
  const StateCodes: seq<string> := ["ACT", "NSW", "NT", "QLD", "SA", "TAS", "VIC", "WA"]

  /** `str.upper()` on one character, for the ASCII letters. */
  function UpperChar(c: char): char {
    if 'a' <= c <= 'z' then (c as int - 32) as char else c
  }

  /** `str.upper()` on ASCII letters; other characters are unchanged. */
  function AsciiUpper(s: string): (r: string)
    ensures |r| == |s|
    ensures forall i :: 0 <= i < |s| ==> r[i] == UpperChar(s[i])
  {
    seq(|s|, i requires 0 <= i < |s| => UpperChar(s[i]))
  }

  /** The level-independent test of `is_state_appendix`: the upper-cased first
      word is a state code, or the title mentions "Schedule" and contains a
      state code anywhere. */
  predicate IsStateAppendixTitle(title: string) {
    var words := Words(title);
    var first := if words != [] then words[0] else "";
    AsciiUpper(first) in StateCodes
    || (Contains(title, "Schedule") && exists s :: s in StateCodes && Contains(title, s))
  }

  /** `title.upper()` contains the code of a state or territory. */
  predicate NamesState(title: string) {
    exists s :: s in StateCodes && Contains(AsciiUpper(title), s)
  }

  /** `is_state_appendix(title, level)`: only headings of level 1 or 2 open
      a state appendix, and a heading that opens one always names a state or
      territory code, in some letter case, somewhere in its title. */
  predicate IsStateAppendix(title: string, level: int): (r: bool)
    ensures r ==> level <= 2 && NamesState(title)
  {
    if level > 2 then false
    else if IsStateAppendixTitle(title) then TitleNamesState(title); true
    else false
  }

  /** An entry below level 2, or one with an empty title, never opens a state appendix. */
  lemma NotStateAppendix(title: string, level: int)
    requires level > 2 || title == ""
    ensures !IsStateAppendix(title, level)
  {
    if title == "" {
      assert Words(title) == [];
      assert AsciiUpper("") == "";
      assert !Contains(title, "Schedule");
    }
  }

  /** A heading of level 1 or 2 written as a state code in any letter case,
      a space and the rest of the title (`Vic Appendix`) opens a state
      appendix. */
  lemma StateAppendixByFirstWord(code: string, rest: string, level: int)
    requires AsciiUpper(code) in StateCodes && level <= 2
    ensures IsStateAppendix(code + " " + rest, level)
  {
    assert code != [];
    assert NoSpace(code) by {
      forall i | 0 <= i < |code| ensures !IsSpace(code[i]) {
        assert IsUpper(AsciiUpper(code)[i]);
      }
    }
    FirstWord(code, rest);
  }

  /** A heading of level 1 or 2 that contains "Schedule" and the code of a
      state or territory (`Schedule of NSW variations`) opens a state appendix. */
  lemma StateAppendixBySchedule(title: string, code: string, level: int)
    requires code in StateCodes && Contains(title, "Schedule") && Contains(title, code) && level <= 2
    ensures IsStateAppendix(title, level)
  {
  }

  /** A state-appendix title names a state or territory code, in some
      letter case, somewhere in it. */
  lemma TitleNamesState(title: string)
    requires IsStateAppendixTitle(title)
    ensures NamesState(title)
  {
    var words := Words(title);
    var first := if words != [] then words[0] else "";
    if AsciiUpper(first) in StateCodes {
      assert AsciiUpper("") == "";
      FirstWordNamesState(title);
    } else {
      var s :| s in StateCodes && Contains(title, s);
      NamedStateSurvivesUpper(title, s);
    }
  }

  lemma FirstWordNamesState(title: string)
    requires Words(title) != [] && AsciiUpper(Words(title)[0]) in StateCodes
    ensures Contains(AsciiUpper(title), AsciiUpper(Words(title)[0]))
  {
    var first := Words(title)[0];
    var i := FirstWordAt(title);
    UpperAt(title, first, i);
  }

  lemma NamedStateSurvivesUpper(title: string, s: string)
    requires s in StateCodes && Contains(title, s)
    ensures Contains(AsciiUpper(title), s)
  {
    var i := Find(title, s, 0).value;
    assert AsciiUpper(s) == s by { StateCodesAreUpper(s); }
    UpperAt(title, s, i);
  }

  lemma StateCodesAreUpper(s: string)
    requires s in StateCodes
    ensures AsciiUpper(s) == s
  {
  }

  /** Upper-casing keeps an occurrence in place, upper-cased. */
  lemma UpperAt(s: string, pat: string, i: nat)
    requires OccursAt(s, pat, i)
    ensures OccursAt(AsciiUpper(s), AsciiUpper(pat), i)
    ensures Contains(AsciiUpper(s), AsciiUpper(pat))
  {
    UpperOfSlice(s, i, i + |pat|);
    ContainsIff(AsciiUpper(s), AsciiUpper(pat), i);
  }

  /** The first word of a title occurs in it. */
  lemma FirstWordAt(title: string) returns (i: nat)
    requires Words(title) != []
    ensures OccursAt(title, Words(title)[0], i)
  {
    var t := TrimLeft(title);
    i := |title| - |t|;
    TrimLeftIsSuffix(title);
    FirstWordUnfold(title);
    WordAtStart(title, t, TakeWord(t), i);
  }

  lemma FirstWordUnfold(title: string)
    requires Words(title) != []
    ensures TrimLeft(title) != [] && Words(title)[0] == TakeWord(TrimLeft(title))
  {
  }

  lemma WordAtStart(title: string, t: string, w: string, i: nat)
    requires i <= |title| && t == title[i..] && |w| <= |t| && w == t[..|w|]
    ensures OccursAt(title, w, i)
  {
    assert title[i..i + |w|] == title[i..][..|w|];
  }

  lemma UpperOfSlice(s: string, i: nat, j: nat)
    requires i <= j <= |s|
    ensures AsciiUpper(s)[i..j] == AsciiUpper(s[i..j])
  {
    var u, v := AsciiUpper(s)[i..j], AsciiUpper(s[i..j]);
    assert |u| == |v|;
    forall k | 0 <= k < |u| ensures u[k] == v[k] {
      assert u[k] == AsciiUpper(s)[i + k] == UpperChar(s[i + k]);
      assert v[k] == UpperChar(s[i..j][k]);
    }
  }

  // ------------------------------------------------------ the outline scans

  /** `get_part_from_toc(toc, idx)`: the title of the nearest entry before
      `idx` whose level is at most 2, scanning backwards; None when there is
      none (in particular when `idx <= 0`). */
  function GetPartFromToc(toc: seq<TocEntry>, idx: int): (r: Option<string>)
    requires idx <= |toc|
    ensures r.None? <==> forall j :: 0 <= j < idx ==> toc[j].level > 2
    ensures r.Some? ==> exists j :: 0 <= j < idx && toc[j].level <= 2 && r.value == toc[j].title
                                    && forall k :: j < k < idx ==> toc[k].level > 2
    decreases idx
  {
    if idx <= 0 then None
    else if toc[idx - 1].level <= 2 then Some(toc[idx - 1].title)
    else GetPartFromToc(toc, idx - 1)
  }

  /** `get_part_from_toc` never looks at the entries at or after `idx`. */
  lemma {:induction false} GetPartReadsOnlyPrefix(toc1: seq<TocEntry>, toc2: seq<TocEntry>, idx: nat)
    requires idx <= |toc1| && idx <= |toc2| && toc1[..idx] == toc2[..idx]
    ensures GetPartFromToc(toc1, idx) == GetPartFromToc(toc2, idx)
  {
    if idx > 0 {
      assert toc1[idx - 1] == toc1[..idx][idx - 1] == toc2[..idx][idx - 1] == toc2[idx - 1];
      assert toc1[..idx - 1] == toc1[..idx][..idx - 1];
      assert toc2[..idx - 1] == toc2[..idx][..idx - 1];
      GetPartReadsOnlyPrefix(toc1, toc2, idx - 1);
    }
  }

  /** Entry `j` lies in a state appendix: the nearest heading of level 1 or
      2 before it opens one. */
  predicate InStateAppendix(toc: seq<TocEntry>, j: int)
    requires j <= |toc|
  {
    match GetPartFromToc(toc, j)
    case Some(t) => IsStateAppendixTitle(t)
    case None => false
  }

  /** The entries the level-3 filter keeps: clause entries outside state appendices. */
  predicate Kept(toc: seq<TocEntry>, j: nat)
    requires j < |toc|
  {
    toc[j].level == 3 && !InStateAppendix(toc, j)
  }

  /** The clause entries among the first `n` outline entries, in outline order. */
  function SelectClauses(toc: seq<TocEntry>, n: nat): seq<ClauseEntry>
    requires n <= |toc|
  {
    if n == 0 then []
    else
      var prev := SelectClauses(toc, n - 1);
      if Kept(toc, n - 1) then prev + [ClauseEntry(n - 1, toc[n - 1].title, toc[n - 1].page)]
      else prev
  }

  /** The selection holds exactly the kept entries, each once, in outline
      order, each with its outline title and page. */
  lemma {:induction false} SelectClausesSpec(toc: seq<TocEntry>, n: nat)
    requires n <= |toc|
    ensures forall k :: 0 <= k < |SelectClauses(toc, n)| ==>
              var e := SelectClauses(toc, n)[k];
              e.tocIndex < n && Kept(toc, e.tocIndex) && e.title == toc[e.tocIndex].title && e.page == toc[e.tocIndex].page
    ensures forall k, l :: 0 <= k < l < |SelectClauses(toc, n)| ==>
              SelectClauses(toc, n)[k].tocIndex < SelectClauses(toc, n)[l].tocIndex
    ensures forall j :: 0 <= j < n && Kept(toc, j) ==>
              exists k :: 0 <= k < |SelectClauses(toc, n)| && SelectClauses(toc, n)[k].tocIndex == j
  {
    if n > 0 {
      SelectClausesSpec(toc, n - 1);
      var prev := SelectClauses(toc, n - 1);
      if Kept(toc, n - 1) {
        var r := SelectClauses(toc, n);
        assert r == prev + [ClauseEntry(n - 1, toc[n - 1].title, toc[n - 1].page)];
        assert forall k :: 0 <= k < |prev| ==> r[k] == prev[k];
        forall j | 0 <= j < n && Kept(toc, j)
          ensures exists k :: 0 <= k < |r| && r[k].tocIndex == j
        {
          if j == n - 1 {
            assert r[|prev|].tocIndex == j;
          } else {
            var k :| 0 <= k < |prev| && prev[k].tocIndex == j;
            assert r[k] == prev[k];
          }
        }
      } else {
        assert SelectClauses(toc, n) == prev;
      }
    }
  }

  /** The value of the loop's `state_appendix_started` flag after the first
      `n` outline entries: the verdict of the last heading of level 1 or 2. */
  function StateFlag(toc: seq<TocEntry>, n: nat): bool
    requires n <= |toc|
  {
    if n == 0 then false
    else if toc[n - 1].level <= 2 then IsStateAppendix(toc[n - 1].title, toc[n - 1].level)
    else StateFlag(toc, n - 1)
  }

  /** The flag is the state-appendix test applied to the part heading that
      `get_part_from_toc` finds for the next entry. */
  lemma {:induction false} StateFlagIsPartTest(toc: seq<TocEntry>, n: nat)
    requires n <= |toc|
    ensures StateFlag(toc, n) == InStateAppendix(toc, n)
  {
    if n > 0 && toc[n - 1].level > 2 {
      StateFlagIsPartTest(toc, n - 1);
    }
  }

  /** The level-3 filter loop of `chunk_pdf`: a heading of level 1 or 2 sets
      or clears the "inside a state appendix" flag; level-3 entries are kept
      while the flag is clear. */
  method FilterClauseEntries(toc: seq<TocEntry>) returns (entries: seq<ClauseEntry>)
    ensures entries == SelectClauses(toc, |toc|)
  {
    var stateAppendixStarted := false;
    entries := [];
    var i := 0;
    while i < |toc|
      invariant 0 <= i <= |toc|
      invariant stateAppendixStarted == StateFlag(toc, i)
      invariant entries == SelectClauses(toc, i)
    {
      var entry := toc[i];
      FilterStep(toc, i);
      KeptByFlag(toc, i);
      if entry.level <= 2 {
        stateAppendixStarted := IsStateAppendix(entry.title, entry.level);
      }
      if !stateAppendixStarted && entry.level == 3 {
        entries := entries + [ClauseEntry(i, entry.title, entry.page)];
      }
      i := i + 1;
    }
  }

  /** How one more outline entry changes the kept entries. */
  lemma FilterStep(toc: seq<TocEntry>, i: nat)
    requires i < |toc|
    ensures !Kept(toc, i) ==> SelectClauses(toc, i + 1) == SelectClauses(toc, i)
    ensures Kept(toc, i) ==> SelectClauses(toc, i + 1) == SelectClauses(toc, i) + [ClauseEntry(i, toc[i].title, toc[i].page)]
    ensures Kept(toc, i) == (toc[i].level == 3 && !InStateAppendix(toc, i + 1))
  {
    assert toc[i].level > 2 ==> GetPartFromToc(toc, i + 1) == GetPartFromToc(toc, i);
  }

  /** An entry is kept exactly when it is a clause entry and the loop's flag,
      updated by this entry, is clear. */
  lemma KeptByFlag(toc: seq<TocEntry>, i: nat)
    requires i < |toc|
    ensures Kept(toc, i) == (toc[i].level == 3 && !StateFlag(toc, i + 1))
  {
    FilterStep(toc, i);
    StateFlagIsPartTest(toc, i + 1);
  }

  /** A clause entry after a heading that opens a state appendix, with no
      other heading of level 1 or 2 in between, is skipped. */
  lemma SkippedInsideStateAppendix(toc: seq<TocEntry>, h: nat, j: nat)
    requires h < j < |toc|
    requires toc[h].level <= 2 && IsStateAppendix(toc[h].title, toc[h].level)
    requires forall k :: h < k < j ==> toc[k].level > 2
    ensures !Kept(toc, j)
  {
    HeadingBefore(toc, h, j);
  }

  /** A clause entry after a heading of level 1 or 2 that is not a state
      appendix, with no other such heading in between, is kept. */
  lemma KeptAfterOrdinaryHeading(toc: seq<TocEntry>, h: nat, j: nat)
    requires h < j < |toc| && toc[j].level == 3
    requires toc[h].level <= 2 && !IsStateAppendix(toc[h].title, toc[h].level)
    requires forall k :: h < k < j ==> toc[k].level > 2
    ensures Kept(toc, j)
  {
    HeadingBefore(toc, h, j);
  }

  lemma {:induction false} HeadingBefore(toc: seq<TocEntry>, h: nat, j: nat)
    requires h < j <= |toc| && toc[h].level <= 2
    requires forall k :: h < k < j ==> toc[k].level > 2
    ensures GetPartFromToc(toc, j) == Some(toc[h].title)
    decreases j
  {
    if j - 1 > h {
      HeadingBefore(toc, h, j - 1);
    }
  }

  /** `l3_entries[-1][0] if l3_entries else 0`. */
  function LastClauseIndex(entries: seq<ClauseEntry>): nat {
    if entries != [] then entries[|entries| - 1].tocIndex else 0
  }

  /** The page of the first entry of level at most 1 at or after index
      `from`, or `totalPages` when there is none. */
  function ContentBoundary(toc: seq<TocEntry>, from: nat, totalPages: int): int
    decreases |toc| - from
  {
    if from >= |toc| then totalPages
    else if toc[from].level <= 1 then toc[from].page
    else ContentBoundary(toc, from + 1, totalPages)
  }

  /** The content-boundary loop of `chunk_pdf`: the page of the first
      top-level entry after index `lastClauseIndex`, or `totalPages` when
      there is none. */
  method ContentEndPage(toc: seq<TocEntry>, lastClauseIndex: nat, totalPages: int) returns (endPage: int)
    ensures endPage == ContentBoundary(toc, lastClauseIndex + 1, totalPages)
    ensures (forall i :: lastClauseIndex < i < |toc| ==> toc[i].level > 1) ==> endPage == totalPages
    ensures (exists i :: lastClauseIndex < i < |toc| && toc[i].level <= 1) ==>
              (exists i :: lastClauseIndex < i < |toc| && toc[i].level <= 1 && endPage == toc[i].page
                           && forall k :: lastClauseIndex < k < i ==> toc[k].level > 1)
  {
    endPage := totalPages;
    var i := lastClauseIndex + 1;
    while i < |toc|
      invariant lastClauseIndex < i
      invariant forall k :: lastClauseIndex < k < i && k < |toc| ==> toc[k].level > 1
      invariant endPage == totalPages
      invariant ContentBoundary(toc, i, totalPages) == ContentBoundary(toc, lastClauseIndex + 1, totalPages)
    {
      if toc[i].level <= 1 {
        endPage := toc[i].page;
        break;
      }
      i := i + 1;
    }
  }
}
