/** Cutting one section out of the text of its pages, and the cleanup applied
    to the cut text before it is split into chunks. */
module Sections {
  import opened Text

  // ------------------------------------------------------------ section markers

  /** The marker PyMuPDF leaves around a clause code: the code between two
      hair spaces. */
  function Marker(id: string): (m: string)
    ensures |m| == |id| + 2 && m[0] == HairSpace && m[|m| - 1] == HairSpace
    ensures m[1..|m| - 1] == id
  {
    [HairSpace] + id + [HairSpace]
  }

  /** Python's truthiness of `next_section_id`: present and not empty. */
  predicate Truthy(next: Option<string>) {
    next.Some? && next.value != []
  }

  /** Where the section ends, given that its marker starts at `start`: the
      first occurrence of the next section's marker at or after the end of
      this section's marker, or the end of the text. */
  function SectionEnd(fullText: string, start: nat, markerLen: nat, next: Option<string>): (e: nat)
    requires start + markerLen <= |fullText|
    ensures start + markerLen <= e <= |fullText|
    ensures Truthy(next) ==>
              forall j :: start + markerLen <= j < e ==> !OccursAt(fullText, Marker(next.value), j)
    ensures Truthy(next) && e < |fullText| ==> OccursAt(fullText, Marker(next.value), e)
    ensures !Truthy(next) ==> e == |fullText|
  {
    if Truthy(next) then
      match Find(fullText, Marker(next.value), start + markerLen)
      case Some(e) => e
      case None => |fullText|
    else |fullText|
  }

  /** `extract_section_text`: the stripped text from the first occurrence of
      the section's marker up to the next section's marker; the whole text
      when the marker does not occur. */
  function ExtractSectionText(fullText: string, sectionId: string, nextSectionId: Option<string>): (r: string)
    ensures !Contains(fullText, Marker(sectionId)) ==> r == fullText
    ensures Contains(fullText, Marker(sectionId)) ==> Stripped(r) && |r| < |fullText|
  {
    var marker := Marker(sectionId);
    match Find(fullText, marker, 0)
    case None => fullText
    case Some(start) =>
      var e := SectionEnd(fullText, start, |marker|, nextSectionId);
      var r := Strip(fullText[start..e]);
      StrippedIffFixpoint(fullText[start..e]);
      StripKeepsContent(fullText[start..e]);
      StripLeadingSpace(fullText[start..e]);
      r
  }

  /** A string that starts with whitespace loses at least that character. */
  lemma StripLeadingSpace(s: string)
    requires s != [] && IsSpace(s[0])
    ensures |Strip(s)| < |s|
  {
    StripIsSlice(s);
  }

  /** When the marker first occurs at `start`, the result is the section
      text from `start` to the section's end, whitespace trimmed: it lies
      inside that stretch of the text and keeps all of its content. */
  lemma SectionTextIsSlice(fullText: string, sectionId: string, nextSectionId: Option<string>, start: nat, e: nat)
    requires Find(fullText, Marker(sectionId), 0) == Some(start)
    requires e == SectionEnd(fullText, start, |sectionId| + 2, nextSectionId)
    ensures NonWs(ExtractSectionText(fullText, sectionId, nextSectionId)) == NonWs(fullText[start..e])
    ensures exists i :: start <= i && i + |ExtractSectionText(fullText, sectionId, nextSectionId)| <= e
                        && OccursAt(fullText, ExtractSectionText(fullText, sectionId, nextSectionId), i)
  {
    SectionTextIsStrip(fullText, sectionId, nextSectionId, start, e);
    StripOfSlice(fullText, start, e);
  }

  lemma SectionTextIsStrip(fullText: string, sectionId: string, nextSectionId: Option<string>, start: nat, e: nat)
    requires Find(fullText, Marker(sectionId), 0) == Some(start)
    requires e == SectionEnd(fullText, start, |sectionId| + 2, nextSectionId)
    ensures ExtractSectionText(fullText, sectionId, nextSectionId) == Strip(fullText[start..e])
  {
  }

  lemma StripOfSlice(s: string, start: nat, e: nat)
    requires start <= e <= |s|
    ensures NonWs(Strip(s[start..e])) == NonWs(s[start..e])
    ensures exists i :: start <= i && i + |Strip(s[start..e])| <= e && OccursAt(s, Strip(s[start..e]), i)
  {
    var x := s[start..e];
    StripKeepsContent(x);
    StripSlice(x);
    SliceOfSlice(s, start, e, StripStart(x), Strip(x));
  }

  /** Because the hair space is whitespace, the extracted section begins
      with the section id itself, not with its marker. */
  lemma SectionTextStartsWithId(fullText: string, sectionId: string, nextSectionId: Option<string>)
    requires Contains(fullText, Marker(sectionId))
    requires sectionId != [] && NoSpace(sectionId)
    ensures var r := ExtractSectionText(fullText, sectionId, nextSectionId);
            |sectionId| <= |r| && r[..|sectionId|] == sectionId
  {
    var start := Find(fullText, Marker(sectionId), 0).value;
    var m := Marker(sectionId);
    var e := SectionEnd(fullText, start, |m|, nextSectionId);
    var x := fullText[start..e];
    assert x == [HairSpace] + sectionId + x[|m| - 1..] by {
      assert x[..|m|] == m;
    }
    StripStartsWith([HairSpace], sectionId, x[|m| - 1..]);
  }

  /** Stripping whitespace-padded text that starts with a word keeps that word
      at the front. */
  lemma StripStartsWith(pad: string, w: string, rest: string)
    requires AllSpace(pad) && w != [] && !IsSpace(w[0]) && !IsSpace(w[|w| - 1])
    ensures |w| <= |Strip(pad + w + rest)| && Strip(pad + w + rest)[..|w|] == w
  {
    var s := pad + w + rest;
    var p := |pad|;
    assert s[..p] == pad;
    assert s[p] == w[0];
    assert s[p + |w| - 1] == w[|w| - 1];
    StripStartsAt(s, p);
    StripCovers(s, p + |w| - 1);
    StripSlice(s);
    assert Strip(s)[..|w|] == s[p..p + |w|] == w;
  }

  // ------------------------------------------------------------------- cleanup

  /** The characters `[ \t]` of the blank-line pattern. */
  predicate IsBlank(c: char) {
    c == ' ' || c == '\t'
  }

  /** The end of the run of spaces and tabs that starts at `i`. */
  function BlankRunEnd(s: string, i: nat): (e: nat)
    requires i <= |s|
    ensures i <= e <= |s|
    ensures forall k :: i <= k < e ==> IsBlank(s[k])
    ensures e == |s| || !IsBlank(s[e])
    decreases |s| - i
  {
    if i < |s| && IsBlank(s[i]) then BlankRunEnd(s, i + 1) else i
  }

  /** A match of `\n[ \t]+\n` at the front of `s`: the length of the match.
      The run of blanks is maximal, so no backtracking is needed. */
  function BlankLineAt(s: string): (r: Option<nat>)
    ensures r.Some? ==> 3 <= r.value <= |s| && s[0] == '\n' && s[r.value - 1] == '\n'
    ensures r.Some? ==> forall k :: 1 <= k < r.value - 1 ==> IsBlank(s[k])
  {
    if s != [] && s[0] == '\n' then
      var e := BlankRunEnd(s, 1);
      if 1 < e < |s| && s[e] == '\n' then
        assert forall k :: 1 <= k < e ==> IsBlank(s[k]);
        Some(e + 1)
      else None
    else None
  }

  /** `s` without its spaces and tabs. */
  function DropBlanks(s: string): string {
    if s == [] then [] else (if IsBlank(s[0]) then [] else [s[0]]) + DropBlanks(s[1..])
  }

  lemma {:induction false} DropBlanksAppend(a: string, b: string)
    ensures DropBlanks(a + b) == DropBlanks(a) + DropBlanks(b)
    decreases |a|
  {
    if a != [] {
      assert (a + b)[0] == a[0];
      assert (a + b)[1..] == a[1..] + b;
      DropBlanksAppend(a[1..], b);
      var head := if IsBlank(a[0]) then [] else [a[0]];
      assert DropBlanks(a + b) == head + DropBlanks(a[1..] + b);
      assert DropBlanks(a) == head + DropBlanks(a[1..]);
    } else {
      assert a + b == b;
    }
  }

  lemma {:induction false} DropBlanksOfBlanks(s: string)
    requires forall k :: 0 <= k < |s| ==> IsBlank(s[k])
    ensures DropBlanks(s) == []
    decreases |s|
  {
    if s != [] {
      DropBlanksOfBlanks(s[1..]);
    }
  }

  /** Dropping spaces and tabs removes no content. */
  lemma {:induction false} DropBlanksKeepsContent(s: string)
    ensures NonWs(DropBlanks(s)) == NonWs(s)
    decreases |s|
  {
    if s != [] {
      var head := if IsBlank(s[0]) then [] else [s[0]];
      assert s == [s[0]] + s[1..];
      NonWsAppend([s[0]], s[1..]);
      NonWsAppend(head, DropBlanks(s[1..]));
      DropBlanksKeepsContent(s[1..]);
    }
  }

  /** `re.sub(r"\n[ \t]+\n", "\n\n", s)`: every line made only of spaces and
      tabs is emptied. Matches do not overlap: scanning resumes after the
      closing newline of a match. Only spaces and tabs are removed, so every
      other character, newlines included, stays in place and in order. */
  function CollapseBlankLines(s: string): (r: string)
    ensures DropBlanks(r) == DropBlanks(s)
    ensures |r| <= |s|
    ensures forall c :: c in r ==> c in s
    decreases |s|
  {
    if s == [] then []
    else match BlankLineAt(s)
      case Some(n) =>
        var rest := CollapseBlankLines(s[n..]);
        CollapseMatchStep(s, n, rest);
        "\n\n" + rest
      case None =>
        var rest := CollapseBlankLines(s[1..]);
        assert s == [s[0]] + s[1..];
        DropBlanksAppend([s[0]], s[1..]);
        DropBlanksAppend([s[0]], rest);
        [s[0]] + rest
  }

  lemma CollapseMatchStep(s: string, n: nat, rest: string)
    requires BlankLineAt(s) == Some(n)
    requires DropBlanks(rest) == DropBlanks(s[n..]) && |rest| <= |s[n..]|
    requires forall c :: c in rest ==> c in s[n..]
    ensures DropBlanks("\n\n" + rest) == DropBlanks(s) && 2 + |rest| <= |s|
    ensures forall c :: c in "\n\n" + rest ==> c in s
  {
    assert s == "\n" + s[1..n - 1] + "\n" + s[n..];
    DropBlanksOfBlanks(s[1..n - 1]);
    DropBlanksAppend("\n" + s[1..n - 1] + "\n", s[n..]);
    DropBlanksAppend("\n" + s[1..n - 1], "\n");
    DropBlanksAppend("\n", s[1..n - 1]);
    DropBlanksAppend("\n\n", rest);
    DropBlanksAppend("\n", "\n");
    forall c | c in "\n\n" + rest ensures c in s {
      if c !in rest {
        assert s[0] == '\n';
      } else {
        assert c in s[n..];
      }
    }
  }

  /** A text with no whitespace-only line between two newlines is left as it is. */
  lemma {:induction false} CollapseWithoutBlankLines(s: string)
    requires forall i :: 0 <= i < |s| ==> BlankLineAt(s[i..]).None?
    ensures CollapseBlankLines(s) == s
    decreases |s|
  {
    if s != [] {
      assert BlankLineAt(s[0..]).None?;
      assert s[0..] == s;
      forall i | 0 <= i < |s[1..]| ensures BlankLineAt(s[1..][i..]).None? {
        assert s[1..][i..] == s[i + 1..];
      }
      CollapseWithoutBlankLines(s[1..]);
    }
  }

  /** A whitespace-only line between two text lines becomes an empty line. */
  lemma CollapseOneBlankLine(blanks: string, b: string)
    requires blanks != [] && forall k :: 0 <= k < |blanks| ==> IsBlank(blanks[k])
    ensures CollapseBlankLines("\n" + blanks + "\n" + b) == "\n\n" + CollapseBlankLines(b)
  {
    var s := "\n" + blanks + "\n" + b;
    assert s[1..1 + |blanks|] == blanks;
    assert s[1 + |blanks|] == '\n';
    BlankRunIsWhole(s, |blanks|);
    assert s[|blanks| + 2..] == b;
  }

  lemma BlankRunIsWhole(s: string, k: nat)
    requires 1 + k < |s| && forall j :: 1 <= j < 1 + k ==> IsBlank(s[j])
    requires s[1 + k] == '\n'
    ensures BlankRunEnd(s, 1) == 1 + k
  {
    var e := BlankRunEnd(s, 1);
  }

  /** The cleanup of `chunk_pdf`: hair spaces deleted, non-breaking spaces
      turned into ordinary spaces, whitespace-only lines emptied. The result
      holds neither special space, is no longer than the input and keeps all
      of its content. */
  function CleanContent(s: string): (r: string)
    ensures HairSpace !in r && NoBreakSpace !in r
    ensures |r| <= |s|
    ensures NonWs(r) == NonWs(s)
  {
    var noHair := RemoveChar(s, HairSpace);
    var plain := ReplaceChar(noHair, NoBreakSpace, ' ');
    var r := CollapseBlankLines(plain);
    DropBlanksKeepsContent(r);
    DropBlanksKeepsContent(plain);
    r
  }
}
