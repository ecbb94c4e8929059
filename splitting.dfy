/** The chunk splitter of the ingestion script: `split_long_chunk` (pack
    paragraphs, merge stubs, force-split oversized chunks) and
    `split_at_sentences`, with the two `re.split` patterns they use written
    out as explicit scanners. */
module Splitting {
  import opened Text

  /** MAX_CHUNK_CHARS: the length above which a section is split. */
  const MaxChunkChars: nat := 2000
  /** MIN_CHUNK_CHARS: chunks shorter than this are merged into a neighbour. */
  const MinChunkChars: nat := 50

  /** The two separators the splitter uses with `re.split`:
      ParagraphBreak is `\n\s*\n`, SentenceBreak is `(?<=[.;])\s+|\n`. */
  datatype Pattern = ParagraphBreak | SentenceBreak

  /** End of the run of whitespace that starts at `i`. */
  function SpaceRunEnd(s: string, i: nat): (e: nat)
    requires i <= |s|
    ensures i <= e <= |s|
    ensures forall k :: i <= k < e ==> IsSpace(s[k])
    ensures e == |s| || !IsSpace(s[e])
    decreases |s| - i
  {
    if i < |s| && IsSpace(s[i]) then SpaceRunEnd(s, i + 1) else i
  }

  /** The last index in `[lo, hi)` holding a newline. */
  function LastNewline(s: string, lo: nat, hi: nat): (r: Option<nat>)
    requires lo <= hi <= |s|
    ensures r.Some? ==> lo <= r.value < hi && s[r.value] == '\n'
    ensures r.Some? ==> forall k :: r.value < k < hi ==> s[k] != '\n'
    ensures r.None? ==> forall k :: lo <= k < hi ==> s[k] != '\n'
    decreases hi
  {
    if hi == lo then None
    else if s[hi - 1] == '\n' then Some(hi - 1)
    else LastNewline(s, lo, hi - 1)
  }

  /** The end of the match of `pat` that starts at `p`, if any, as Python's
      backtracking matcher finds it. `\n\s*\n` matches from a newline through
      the last newline of the whitespace run after it (greedy `\s*` backing
      off to a newline). `(?<=[.;])\s+` matches the whole whitespace run
      after a full stop or semicolon and takes precedence over the second
      alternative `\n`. */
  function MatchAt(pat: Pattern, s: string, p: nat): (r: Option<nat>)
    requires p < |s|
    ensures r.Some? ==> p < r.value <= |s|
    ensures r.Some? ==> forall k :: p <= k < r.value ==> IsSpace(s[k])
    ensures pat == ParagraphBreak && r.Some? ==>
              p + 1 < r.value && s[p] == '\n' && s[r.value - 1] == '\n'
              && forall k :: r.value <= k < SpaceRunEnd(s, r.value) ==> s[k] != '\n'
    ensures pat == SentenceBreak && r.Some? ==>
              (p > 0 && (s[p - 1] == '.' || s[p - 1] == ';') && r.value == SpaceRunEnd(s, p))
              || (s[p] == '\n' && r.value == p + 1)
    ensures pat == SentenceBreak && p > 0 && (s[p - 1] == '.' || s[p - 1] == ';') && IsSpace(s[p]) ==>
              r == Some(SpaceRunEnd(s, p))
    ensures pat == SentenceBreak && s[p] == '\n' ==> r.Some?
  {
    match pat
    case ParagraphBreak =>
      if s[p] != '\n' then None
      else (match LastNewline(s, p + 1, SpaceRunEnd(s, p + 1))
            case Some(k) => Some(k + 1)
            case None => None)
    case SentenceBreak =>
      if p > 0 && (s[p - 1] == '.' || s[p - 1] == ';') && IsSpace(s[p]) then Some(SpaceRunEnd(s, p))
      else if s[p] == '\n' then Some(p + 1)
      else None
  }

  /** `re.split(pat, s)`, continuing a scan that is at `pos` with the current
      piece starting at `last`: the leftmost match from `pos` on ends the
      piece, and the scan resumes after the match. */
  function RegexSplit(pat: Pattern, s: string, pos: nat, last: nat): (r: seq<string>)
    requires last <= pos <= |s|
    ensures r != []
    ensures Content(r) == NonWs(s[last..])
    decreases |s| - pos
  {
    if pos == |s| then
      ContentSingle(s[last..]);
      [s[last..]]
    else
      match MatchAt(pat, s, pos)
      case Some(e) =>
        var rest := RegexSplit(pat, s, e, e);
        CutAtMatch(s, last, pos, e, rest);
        [s[last..pos]] + rest
      case None =>
        RegexSplit(pat, s, pos + 1, last)
  }

  /** The separators `re.split` matches while it produces
      `RegexSplit(pat, s, pos, last)`, in order. */
  function SplitSeparators(pat: Pattern, s: string, pos: nat, last: nat): (seps: seq<string>)
    requires last <= pos <= |s|
    ensures forall i :: 0 <= i < |seps| ==> seps[i] != [] && AllSpace(seps[i])
    decreases |s| - pos
  {
    if pos == |s| then []
    else
      match MatchAt(pat, s, pos)
      case Some(e) => [s[pos..e]] + SplitSeparators(pat, s, e, e)
      case None => SplitSeparators(pat, s, pos + 1, last)
  }

  /** The pieces with the separators put back between them. */
  function Interleave(pieces: seq<string>, seps: seq<string>): string
    requires |pieces| == |seps| + 1
    decreases |seps|
  {
    if seps == [] then pieces[0] else pieces[0] + seps[0] + Interleave(pieces[1..], seps[1..])
  }

  /** `re.split` only cuts: putting the matched separators back between the
      pieces gives the text again, so every piece is a slice of the text. */
  lemma {:induction false} SplitRoundTrip(pat: Pattern, s: string, pos: nat, last: nat)
    requires last <= pos <= |s|
    ensures |RegexSplit(pat, s, pos, last)| == |SplitSeparators(pat, s, pos, last)| + 1
    ensures Interleave(RegexSplit(pat, s, pos, last), SplitSeparators(pat, s, pos, last)) == s[last..]
    decreases |s| - pos
  {
    if pos < |s| {
      var m := MatchAt(pat, s, pos);
      if m.Some? {
        var e := m.value;
        SplitRoundTrip(pat, s, e, e);
        RoundTripCut(s, last, pos, e, RegexSplit(pat, s, e, e), SplitSeparators(pat, s, e, e));
      } else {
        SplitRoundTrip(pat, s, pos + 1, last);
      }
    }
  }

  /** Putting the piece before a match and the match back in front of the
      rest of the scan gives the text from the piece's start. */
  lemma RoundTripCut(s: string, last: nat, pos: nat, e: nat, rest: seq<string>, restSeps: seq<string>)
    requires last <= pos <= e <= |s| && |rest| == |restSeps| + 1
    requires Interleave(rest, restSeps) == s[e..]
    ensures Interleave([s[last..pos]] + rest, [s[pos..e]] + restSeps) == s[last..]
  {
    InterleaveCons(s[last..pos], s[pos..e], rest, restSeps);
    SliceThree(s, last, pos, e);
  }

  lemma SliceThree(s: string, a: nat, b: nat, c: nat)
    requires a <= b <= c <= |s|
    ensures s[a..b] + s[b..c] + s[c..] == s[a..]
  {
    assert s[b..] == s[b..c] + s[c..];
    assert s[a..] == s[a..b] + s[b..];
  }

  lemma InterleaveCons(x: string, sep: string, rest: seq<string>, restSeps: seq<string>)
    requires |rest| == |restSeps| + 1
    ensures Interleave([x] + rest, [sep] + restSeps) == x + sep + Interleave(rest, restSeps)
  {
    assert ([x] + rest)[1..] == rest && ([sep] + restSeps)[1..] == restSeps;
  }

  /** Where piece `i` starts in the interleaving of `pieces` and `seps`. */
  function PieceStart(pieces: seq<string>, seps: seq<string>, i: nat): nat
    requires |pieces| == |seps| + 1 && i < |pieces|
    decreases i
  {
    if i == 0 then 0 else |pieces[0]| + |seps[0]| + PieceStart(pieces[1..], seps[1..], i - 1)
  }

  /** Every piece of an interleaving that spells `s[last..]` is the slice of
      `s` at its offset; with SplitRoundTrip, every piece of `re.split` is a
      slice of the text. */
  lemma InterleavedSlices(s: string, last: nat, pieces: seq<string>, seps: seq<string>)
    requires last <= |s| && |pieces| == |seps| + 1
    requires Interleave(pieces, seps) == s[last..]
    ensures forall i :: 0 <= i < |pieces| ==> OccursAt(s, pieces[i], last + PieceStart(pieces, seps, i))
  {
    forall i | 0 <= i < |pieces| ensures OccursAt(s, pieces[i], last + PieceStart(pieces, seps, i)) {
      InterleaveAt(pieces, seps, i);
      OccursInSuffix(s, last, pieces[i], PieceStart(pieces, seps, i));
    }
  }

  lemma OccursInSuffix(s: string, last: nat, p: string, b: nat)
    requires last <= |s| && OccursAt(s[last..], p, b)
    ensures OccursAt(s, p, last + b)
  {
    forall k | 0 <= k < |p| ensures s[last + b + k] == p[k] {
      assert p[k] == s[last..][b + k];
    }
    assert s[last + b..last + b + |p|] == p;
  }

  /** Each piece occurs in the interleaving at its start offset. */
  lemma {:induction false} InterleaveAt(pieces: seq<string>, seps: seq<string>, i: nat)
    requires |pieces| == |seps| + 1 && i < |pieces|
    ensures OccursAt(Interleave(pieces, seps), pieces[i], PieceStart(pieces, seps, i))
    decreases |seps|
  {
    var t := Interleave(pieces, seps);
    if seps == [] {
      assert t[..|pieces[0]|] == pieces[0];
    } else {
      var rest := Interleave(pieces[1..], seps[1..]);
      var off := |pieces[0]| + |seps[0]|;
      assert t == pieces[0] + seps[0] + rest;
      if i == 0 {
        assert t[..|pieces[0]|] == pieces[0];
      } else {
        InterleaveAt(pieces[1..], seps[1..], i - 1);
        var b := PieceStart(pieces[1..], seps[1..], i - 1);
        assert t[off..] == rest;
        assert t[off + b..off + b + |pieces[i]|] == rest[b..b + |pieces[i]|];
      }
    }
  }

  /** Cutting out a whitespace match loses no content. */
  lemma CutAtMatch(s: string, last: nat, pos: nat, e: nat, rest: seq<string>)
    requires last <= pos <= e <= |s|
    requires forall k :: pos <= k < e ==> IsSpace(s[k])
    requires Content(rest) == NonWs(s[e..])
    ensures Content([s[last..pos]] + rest) == NonWs(s[last..])
  {
    var x, m, y := s[last..pos], s[pos..e], s[e..];
    assert s[last..] == x + (m + y);
    assert NonWs(m) == [] by {
      assert AllSpace(m);
      NonWsEmptyIffAllSpace(m);
    }
    calc {
      Content([x] + rest);
    == { ContentAppend([x], rest); ContentSingle(x); }
      NonWs(x) + NonWs(y);
    == { NonWsAppend(m, y); assert NonWs(m + y) == NonWs(y); }
      NonWs(x) + NonWs(m + y);
    == { NonWsAppend(x, m + y); }
      NonWs(x + (m + y));
    }
  }

  lemma ContentSingle(x: string)
    ensures Content([x]) == NonWs(x)
  {
    ContentSnoc([], x);
    assert [] + [x] == [x];
    assert Content([]) == [];
  }

  /** `re.split(r"\n\s*\n", text)`: the paragraphs of a text. */
  function Paragraphs(text: string): seq<string> {
    RegexSplit(ParagraphBreak, text, 0, 0)
  }

  /** `re.split(r"(?<=[.;])\s+|\n", text)`: the sentences of a text. */
  function Sentences(text: string): seq<string> {
    RegexSplit(SentenceBreak, text, 0, 0)
  }

  /** `p[j - 1]` is a full stop or semicolon and `p[j]` whitespace: a
      sentence break falls between them. */
  predicate BreakBefore(p: string, j: int)
    requires 0 < j < |p|
  {
    (p[j - 1] == '.' || p[j - 1] == ';') && IsSpace(p[j])
  }

  /** A string that holds a single sentence: no newline anywhere, and no
      full stop or semicolon followed by whitespace (a sentence break may
      only come after its last character). */
  predicate SingleSentence(p: string) {
    (forall j :: 0 <= j < |p| ==> p[j] != '\n')
    && (forall j {:trigger BreakBefore(p, j)} :: 0 < j < |p| ==> !BreakBefore(p, j))
  }

  /** Every piece that `re.split` cuts out at sentence breaks is a single sentence. */
  lemma {:induction false} SentencePiecesAreSingle(s: string, pos: nat, last: nat)
    requires last <= pos <= |s|
    requires forall k :: last <= k < pos ==> MatchAt(SentenceBreak, s, k).None?
    ensures forall i :: 0 <= i < |RegexSplit(SentenceBreak, s, pos, last)| ==>
              SingleSentence(RegexSplit(SentenceBreak, s, pos, last)[i])
    decreases |s| - pos
  {
    var r := RegexSplit(SentenceBreak, s, pos, last);
    var piece := s[last..pos];
    UnmatchedIsSingleSentence(s, last, pos);
    if pos == |s| {
      assert piece == s[last..];
      assert r == [piece];
    } else {
      match MatchAt(SentenceBreak, s, pos)
      case Some(e) =>
        SentencePiecesAreSingle(s, e, e);
        assert r == [piece] + RegexSplit(SentenceBreak, s, e, e);
      case None =>
        SentencePiecesAreSingle(s, pos + 1, last);
    }
  }

  /** A stretch where the sentence matcher matches nowhere is a single sentence. */
  lemma UnmatchedIsSingleSentence(s: string, last: nat, pos: nat)
    requires last <= pos <= |s|
    requires forall k :: last <= k < pos ==> MatchAt(SentenceBreak, s, k).None?
    ensures SingleSentence(s[last..pos])
  {
    var piece := s[last..pos];
    forall j | 0 <= j < |piece|
      ensures piece[j] != '\n' && (j > 0 ==> !BreakBefore(piece, j))
    {
      assert piece[j] == s[last + j];
      assert MatchAt(SentenceBreak, s, last + j).None?;
    }
  }

  lemma SentencesAreSingle(text: string)
    ensures forall i :: 0 <= i < |Sentences(text)| ==> SingleSentence(Sentences(text)[i])
  {
    SentencePiecesAreSingle(text, 0, 0);
  }

  /** `p[i]` and `p[j]` are newlines with only whitespace between them: a
      blank line, which `\n\s*\n` matches. */
  predicate BlankLineBetween(p: string, i: int, j: int)
    requires 0 <= i < j < |p|
  {
    p[i] == '\n' && p[j] == '\n' && forall k :: i < k < j ==> IsSpace(p[k])
  }

  /** A string that holds no blank line, so `re.split(r"\n\s*\n", p)` would not cut it. */
  predicate NoBlankLine(p: string) {
    forall i, j {:trigger BlankLineBetween(p, i, j)} :: 0 <= i < j < |p| ==> !BlankLineBetween(p, i, j)
  }

  /** The paragraph matcher finds every blank line: a newline followed, after
      only whitespace, by another newline starts a match, and the match takes
      in at least that second newline. */
  lemma ParagraphBreakFound(s: string, i: nat, j: nat)
    requires i < j < |s| && BlankLineBetween(s, i, j)
    ensures MatchAt(ParagraphBreak, s, i).Some? && MatchAt(ParagraphBreak, s, i).value > j
  {
    var e := SpaceRunEnd(s, i + 1);
    assert IsSpace(s[j]);
    assert e > j;
    var last := LastNewline(s, i + 1, e);
    assert last.Some? && last.value >= j;
  }

  /** A stretch where the paragraph matcher matches nowhere holds no blank line. */
  lemma UnmatchedHasNoBlankLine(s: string, last: nat, pos: nat)
    requires last <= pos <= |s|
    requires forall k :: last <= k < pos ==> MatchAt(ParagraphBreak, s, k).None?
    ensures NoBlankLine(s[last..pos])
  {
    var piece := s[last..pos];
    forall i, j | 0 <= i < j < |piece| ensures !BlankLineBetween(piece, i, j) {
      if BlankLineBetween(piece, i, j) {
        assert BlankLineBetween(s, last + i, last + j);
        ParagraphBreakFound(s, last + i, last + j);
        assert false;
      }
    }
  }

  /** Every piece that `re.split` cuts out at blank lines holds no blank line. */
  lemma {:induction false} ParagraphPiecesHaveNoBlankLine(s: string, pos: nat, last: nat)
    requires last <= pos <= |s|
    requires forall k :: last <= k < pos ==> MatchAt(ParagraphBreak, s, k).None?
    ensures forall i :: 0 <= i < |RegexSplit(ParagraphBreak, s, pos, last)| ==>
              NoBlankLine(RegexSplit(ParagraphBreak, s, pos, last)[i])
    decreases |s| - pos
  {
    var r := RegexSplit(ParagraphBreak, s, pos, last);
    var piece := s[last..pos];
    UnmatchedHasNoBlankLine(s, last, pos);
    if pos == |s| {
      assert piece == s[last..];
      assert r == [piece];
    } else {
      match MatchAt(ParagraphBreak, s, pos)
      case Some(e) =>
        ParagraphPiecesHaveNoBlankLine(s, e, e);
        assert r == [piece] + RegexSplit(ParagraphBreak, s, e, e);
      case None =>
        ParagraphPiecesHaveNoBlankLine(s, pos + 1, last);
    }
  }

  lemma ParagraphsHaveNoBlankLine(text: string)
    ensures forall i :: 0 <= i < |Paragraphs(text)| ==> NoBlankLine(Paragraphs(text)[i])
  {
    ParagraphPiecesHaveNoBlankLine(text, 0, 0);
  }

  /** A slice of a single sentence is a single sentence; in particular its `strip`. */
  lemma StripSingleSentence(p: string)
    requires SingleSentence(p)
    ensures SingleSentence(Strip(p))
  {
    StripIsSlice(p);
    var a := StripStart(p);
    var q := Strip(p);
    forall j | 0 <= j < |q|
      ensures q[j] != '\n' && (j > 0 ==> !BreakBefore(q, j))
    {
      assert q[j] == p[a + j];
      if j > 0 {
        assert q[j - 1] == p[a + j - 1];
        assert !BreakBefore(p, a + j);
      }
    }
  }

  /** A finished piece of `split_at_sentences`: stripped, not blank, and at
      most MaxChunkChars long unless it is one of the sentences, stripped. */
  predicate SentencePiece(p: string, sentences: seq<string>) {
    p != [] && Stripped(p)
    && (|p| <= MaxChunkChars || exists j :: 0 <= j < |sentences| && p == Strip(sentences[j]))
  }

  /** The `current` accumulator of the packing loop: empty, or non-blank and
      within the limit unless it is one sentence on its own. */
  predicate Pending(current: string, sentences: seq<string>) {
    current == []
    || (!AllSpace(current) && (|current| <= MaxChunkChars || exists j :: 0 <= j < |sentences| && current == sentences[j]))
  }

  /** The state of the packing loop of `split_at_sentences` after it has
      consumed sentences whose content is `done`: the finished pieces and
      the accumulator together hold exactly that content, and each finished
      piece is a SentencePiece. */
  predicate PackState(result: seq<string>, current: string, done: string, sentences: seq<string>) {
    Content(result) + NonWs(current) == done
    && (forall k :: 0 <= k < |result| ==> SentencePiece(result[k], sentences))
    && Pending(current, sentences)
  }

  /** `split_at_sentences`: packs the non-blank sentences of `text`, joined
      by single spaces, into pieces of at most MaxChunkChars characters;
      only a piece that is one sentence on its own may be longer. The pieces
      are consecutive runs of whole sentences (the ghost `cuts` say where
      each run starts); each run takes sentences until the next non-blank
      one does not fit. Returns `[text]` when `text` has no non-blank
      sentence. */
  method SplitAtSentences(text: string) returns (pieces: seq<string>, ghost cuts: seq<nat>)
    ensures pieces != []
    ensures Content(pieces) == NonWs(text)
    ensures AllSpace(text) ==> pieces == [text]
    ensures !AllSpace(text) ==> forall i :: 0 <= i < |pieces| ==> SentencePiece(pieces[i], Sentences(text))
    ensures !AllSpace(text) ==> Packed(SentenceBreak, pieces, Sentences(text), cuts)
    ensures forall i :: 0 <= i < |pieces| ==> FinalPiece(pieces[i])
  {
    var sentences := Sentences(text);
    var result;
    result, cuts := PackSentences(sentences);
    NonWsEmptyIffAllSpace(text);
    if result != [] {
      pieces := result;
      SentencePiecesAreFinal(text, pieces);
    } else {
      pieces := [text];
      ContentSingle(text);
    }
  }

  /** A piece of `split_at_sentences` that is over the limit holds no
      sentence break: it is one sentence of the text, stripped. */
  lemma SentencePiecesAreFinal(text: string, pieces: seq<string>)
    requires forall i :: 0 <= i < |pieces| ==> SentencePiece(pieces[i], Sentences(text))
    ensures forall i :: 0 <= i < |pieces| ==> FinalPiece(pieces[i])
  {
    var sentences := Sentences(text);
    SentencesAreSingle(text);
    forall i | 0 <= i < |pieces|
      ensures FinalPiece(pieces[i])
    {
      if |pieces[i]| > MaxChunkChars {
        var j :| 0 <= j < |sentences| && pieces[i] == Strip(sentences[j]);
        StripSingleSentence(sentences[j]);
      }
    }
  }

  /** The loop of `split_at_sentences` and its final flush: the non-blank
      sentences, joined by single spaces while a piece stays within
      MaxChunkChars, packed into stripped pieces that are consecutive runs
      of them. */
  method PackSentences(sentences: seq<string>) returns (result: seq<string>, ghost cuts: seq<nat>)
    ensures Content(result) == Content(sentences)
    ensures forall i :: 0 <= i < |result| ==> SentencePiece(result[i], sentences)
    ensures Packed(SentenceBreak, result, sentences, cuts)
  {
    result := [];
    var current: string := "";
    cuts := [0];
    var i: nat := 0;
    SentenceLoopStart(sentences);
    while i < |sentences|
      invariant SentenceLoop(result, current, sentences, cuts, i)
    {
      result, current, cuts := PackNextSentence(result, current, sentences, cuts, i);
      i := i + 1;
    }
    result, cuts := FlushLastSentences(result, current, sentences, cuts);
  }

  /** After the loop of `split_at_sentences`: a non-blank `current` is
      stripped and appended as the last piece. */
  method FlushLastSentences(result: seq<string>, current: string, sentences: seq<string>, ghost cuts: seq<nat>)
    returns (final: seq<string>, ghost finalCuts: seq<nat>)
    requires SentenceLoop(result, current, sentences, cuts, |sentences|)
    ensures Content(final) == Content(sentences)
    ensures forall i :: 0 <= i < |final| ==> SentencePiece(final[i], sentences)
    ensures Packed(SentenceBreak, final, sentences, finalCuts)
  {
    final, finalCuts := result, cuts;
    if Strip(current) != [] {
      final := result + [Strip(current)];
      finalCuts := cuts + [|sentences|];
    }
    SentenceLoopEnd(result, current, sentences, cuts, final, finalCuts);
  }

  /** One pass of the loop of `split_at_sentences`: a blank sentence is
      skipped; otherwise sentence `i` closes the current piece when it does
      not fit after it, and is appended after a space, or starts it. */
  method PackNextSentence(result: seq<string>, current: string, sentences: seq<string>, ghost cuts: seq<nat>, i: nat)
    returns (result': seq<string>, current': string, ghost cuts': seq<nat>)
    requires i < |sentences| && SentenceLoop(result, current, sentences, cuts, i)
    ensures SentenceLoop(result', current', sentences, cuts', i + 1)
  {
    var sent := sentences[i];
    result', current', cuts' := result, current, cuts;
    if Strip(sent) != [] {
      if current != [] && |current| + |sent| + 1 > MaxChunkChars {
        result' := result + [Strip(current)];
        cuts' := cuts + [i];
        current' := sent;
      } else if current != [] {
        current' := current + " " + sent;
      } else {
        current' := sent;
      }
    }
    SentenceLoopStep(result, current, sentences, cuts, i, result', current', cuts');
  }

  /** The invariant of the sentence-packing loop after `i` sentences. */
  predicate SentenceLoop(result: seq<string>, current: string, sentences: seq<string>, cuts: seq<nat>, i: nat) {
    i <= |sentences|
    && PackState(result, current, Content(sentences[..i]), sentences)
    && PackedSoFar(SentenceBreak, result, current, sentences, cuts, i)
  }

  lemma SentenceLoopStart(sentences: seq<string>)
    ensures SentenceLoop([], "", sentences, [0], 0)
  {
    PackedStart(SentenceBreak, sentences);
    assert sentences[..0] == [];
    assert NonWs("") == [];
  }

  /** One step of the sentence-packing loop: a blank sentence is skipped;
      otherwise sentence `i` closes the current piece when it does not fit
      after it, and is taken into it when it does. */
  lemma SentenceLoopStep(result: seq<string>, current: string, sentences: seq<string>, cuts: seq<nat>, i: nat,
                         result': seq<string>, current': string, cuts': seq<nat>)
    requires i < |sentences| && SentenceLoop(result, current, sentences, cuts, i)
    requires Strip(sentences[i]) == [] ==> result' == result && current' == current && cuts' == cuts
    requires Strip(sentences[i]) != [] && current != [] && |current| + |sentences[i]| + 1 > MaxChunkChars ==>
               result' == result + [Strip(current)] && current' == sentences[i] && cuts' == cuts + [i]
    requires Strip(sentences[i]) != [] && !(current != [] && |current| + |sentences[i]| + 1 > MaxChunkChars) ==>
               result' == result && cuts' == cuts
               && current' == if current != [] then current + " " + sentences[i] else sentences[i]
    ensures SentenceLoop(result', current', sentences, cuts', i + 1)
  {
    var sent := sentences[i];
    var done := Content(sentences[..i]);
    ContentPrefixStep(sentences, i);
    StripEmptyIffBlank(sent);
    if Strip(sent) == [] {
      SkipStep(result, current, done, sent, sentences);
      PackedExtend(SentenceBreak, result, current, sentences, cuts, i);
    } else if current != [] && |current| + |sent| + 1 > MaxChunkChars {
      FlushStep(result, current, done, sentences, i);
      PackedFlush(SentenceBreak, result, current, sentences, cuts, i);
    } else {
      if current != [] {
        JoinStep(result, current, done, sent, sentences);
      } else {
        StartStep(result, done, sentences, i);
      }
      PackedExtend(SentenceBreak, result, current, sentences, cuts, i);
    }
  }

  /** After the last sentence, flushing a non-blank `current` leaves
      finished pieces that hold the sentences' content and are packed
      runs of them. */
  lemma SentenceLoopEnd(result: seq<string>, current: string, sentences: seq<string>, cuts: seq<nat>,
                        final: seq<string>, finalCuts: seq<nat>)
    requires SentenceLoop(result, current, sentences, cuts, |sentences|)
    requires final == if Strip(current) != [] then result + [Strip(current)] else result
    requires finalCuts == if Strip(current) != [] then cuts + [|sentences|] else cuts
    ensures Content(final) == Content(sentences)
    ensures forall k :: 0 <= k < |final| ==> SentencePiece(final[k], sentences)
    ensures Packed(SentenceBreak, final, sentences, finalCuts)
  {
    PackedEnd(SentenceBreak, result, current, sentences, cuts);
    assert sentences[..|sentences|] == sentences;
    StripEmptyIffBlank(current);
    if Strip(current) != [] {
      FlushPieces(result, current, sentences);
    } else {
      NonWsEmptyIffAllSpace(current);
      assert Content(result) + [] == Content(result);
    }
  }

  /** Appending `strip(current)` keeps the content and gives one more SentencePiece. */
  lemma FlushPieces(result: seq<string>, current: string, sentences: seq<string>)
    requires !AllSpace(current) && Pending(current, sentences)
    requires forall k :: 0 <= k < |result| ==> SentencePiece(result[k], sentences)
    ensures Content(result + [Strip(current)]) == Content(result) + NonWs(current)
    ensures forall k :: 0 <= k < |result| + 1 ==> SentencePiece((result + [Strip(current)])[k], sentences)
  {
    Flush(result, current, sentences);
    var r := result + [Strip(current)];
    forall k | 0 <= k < |r| ensures SentencePiece(r[k], sentences) {
      if k < |result| { assert r[k] == result[k]; }
    }
  }

  /** Loop step of `split_at_sentences` for a whitespace-only sentence: skipped. */
  lemma SkipStep(result: seq<string>, current: string, done: string, sent: string, sentences: seq<string>)
    requires PackState(result, current, done, sentences) && AllSpace(sent)
    ensures PackState(result, current, done + NonWs(sent), sentences)
  {
    NonWsEmptyIffAllSpace(sent);
    assert done + [] == done;
  }

  /** Loop step of `split_at_sentences` that closes the current piece and
      starts a new one with sentence `i`. */
  lemma FlushStep(result: seq<string>, current: string, done: string, sentences: seq<string>, i: nat)
    requires i < |sentences| && PackState(result, current, done, sentences) && current != []
    requires !AllSpace(sentences[i])
    ensures PackState(result + [Strip(current)], sentences[i], done + NonWs(sentences[i]), sentences)
  {
    FlushPieces(result, current, sentences);
    assert Pending(sentences[i], sentences);
  }

  /** Loop step of `split_at_sentences` that appends the sentence `sent`,
      after a space, to a current piece it still fits in. */
  lemma JoinStep(result: seq<string>, current: string, done: string, sent: string, sentences: seq<string>)
    requires PackState(result, current, done, sentences) && current != []
    requires !AllSpace(sent) && |current| + |sent| + 1 <= MaxChunkChars
    ensures PackState(result, current + " " + sent, done + NonWs(sent), sentences)
  {
    JoinedContent(current, " ", sent);
    AppendAssoc(Content(result), NonWs(current), NonWs(sent));
  }

  /** Loop step of `split_at_sentences` that starts the first piece after a
      flush-free stretch with sentence `i`. */
  lemma StartStep(result: seq<string>, done: string, sentences: seq<string>, i: nat)
    requires i < |sentences| && PackState(result, [], done, sentences)
    requires !AllSpace(sentences[i])
    ensures PackState(result, sentences[i], done + NonWs(sentences[i]), sentences)
  {
    assert NonWs([]) == [];
    assert Content(result) + [] == Content(result);
    assert Pending(sentences[i], sentences);
  }

  /** Joining two pieces with a whitespace separator keeps both contents
      and leaves the result non-blank when the first one was. */
  lemma JoinedContent(a: string, sep: string, b: string)
    requires AllSpace(sep)
    ensures NonWs(a + sep + b) == NonWs(a) + NonWs(b)
    ensures !AllSpace(a) ==> !AllSpace(a + sep + b)
  {
    NonWsAppend(a + sep, b);
    NonWsAppend(a, sep);
    NonWsEmptyIffAllSpace(sep);
    NonWsEmptyIffAllSpace(a);
    NonWsEmptyIffAllSpace(a + sep + b);
  }

  /** What appending `strip(current)` to the finished pieces preserves. */
  lemma Flush(result: seq<string>, current: string, sentences: seq<string>)
    requires !AllSpace(current)
    ensures Content(result + [Strip(current)]) == Content(result) + NonWs(current)
    ensures Stripped(Strip(current)) && Strip(current) != []
    ensures |Strip(current)| <= |current|
    ensures Pending(current, sentences) ==> SentencePiece(Strip(current), sentences)
  {
    ContentSnoc(result, Strip(current));
    StripKeepsContent(current);
    StrippedIffFixpoint(current);
    StripEmptyIffBlank(current);
    StripEmptyIffBlank(Strip(current));
    if Pending(current, sentences) && |current| > MaxChunkChars {
      var j :| 0 <= j < |sentences| && current == sentences[j];
      assert Strip(current) == Strip(sentences[j]);
    }
  }

  // ------------------------------------------------- runs of paragraphs and sentences

  /** The paragraphs of `ps` from the first non-empty one on. */
  function DropEmptyPrefix(ps: seq<string>): (r: seq<string>)
    ensures |r| <= |ps| && r == ps[|ps| - |r|..]
    ensures r == [] || r[0] != []
  {
    if ps == [] || ps[0] != [] then ps else DropEmptyPrefix(ps[1..])
  }

  lemma {:induction false} DropEmptyPrefixSnoc(ps: seq<string>, p: string)
    ensures DropEmptyPrefix(ps + [p]) ==
              if DropEmptyPrefix(ps) != [] then DropEmptyPrefix(ps) + [p]
              else if p == [] then [] else [p]
  {
    if ps == [] {
      assert ps + [p] == [p];
      assert [p][1..] == [];
    } else if ps[0] == [] {
      assert (ps + [p])[1..] == ps[1..] + [p];
      DropEmptyPrefixSnoc(ps[1..], p);
    }
  }

  /** The sentences of `ss` that are not blank, in order. */
  function NonBlank(ss: seq<string>): (r: seq<string>)
    ensures |r| <= |ss|
    ensures r == [] || !AllSpace(r[0])
  {
    if ss == [] then []
    else NonBlank(ss[..|ss| - 1]) + (if AllSpace(ss[|ss| - 1]) then [] else [ss[|ss| - 1]])
  }

  /** What the packing loops put between two pieces of one run. */
  function Separator(pat: Pattern): string {
    match pat
    case ParagraphBreak => "\n\n"
    case SentenceBreak => " "
  }

  /** The text a packing loop gathers in `current` from the run `xs`:
      `split_long_chunk` joins paragraphs by blank lines from the first
      non-empty one on (an empty `current` is replaced, not extended);
      `split_at_sentences` skips blank sentences and joins the others by
      single spaces. */
  function Group(pat: Pattern, xs: seq<string>): string {
    match pat
    case ParagraphBreak => Join(Separator(pat), DropEmptyPrefix(xs))
    case SentenceBreak => Join(Separator(pat), NonBlank(xs))
  }

  /** A join whose first part is non-empty is non-empty. */
  lemma JoinNonEmpty(sep: string, xs: seq<string>)
    requires xs != [] && xs[0] != []
    ensures Join(sep, xs) != []
  {
    if |xs| > 1 {
      assert Join(sep, xs)[0] == xs[0][0];
    }
  }

  /** One more item for the open run: a paragraph is always taken; a blank
      sentence is skipped; otherwise an empty `current` becomes the item
      and a non-empty one is extended by the separator and the item. */
  lemma GroupSnoc(pat: Pattern, xs: seq<string>, x: string)
    ensures Group(pat, xs + [x]) ==
              if pat == SentenceBreak && AllSpace(x) then Group(pat, xs)
              else if Group(pat, xs) != [] then Group(pat, xs) + Separator(pat) + x
              else x
  {
    var sep := Separator(pat);
    if pat == ParagraphBreak {
      var d := DropEmptyPrefix(xs);
      DropEmptyPrefixSnoc(xs, x);
      if d != [] {
        JoinNonEmpty(sep, d);
        JoinSnoc(sep, d, x);
      } else if x != [] {
        assert Join(sep, [x]) == x;
      }
    } else {
      var d := NonBlank(xs);
      assert (xs + [x])[..|xs|] == xs;
      assert Group(pat, xs) == Join(sep, d);
      if AllSpace(x) {
        assert NonBlank(xs + [x]) == d + [] == d;
      } else {
        if d != [] {
          JoinNonEmpty(sep, d);
          JoinSnoc(sep, d, x);
        } else {
          assert NonBlank(xs + [x]) == [x];
        }
      }
    }
  }

  lemma GroupEmpty(pat: Pattern)
    ensures Group(pat, []) == []
  {
    assert NonBlank([]) == [];
  }

  /** A run of one item gathers that item (a sentence only when it is not blank). */
  lemma GroupSingle(pat: Pattern, x: string)
    requires pat == SentenceBreak ==> !AllSpace(x)
    ensures Group(pat, [x]) == x
  {
    GroupSnoc(pat, [], x);
    assert [] + [x] == [x];
  }

  /** The piece made of the run `xs[a..b]`: its gathered text, stripped. */
  predicate Run(pat: Pattern, piece: string, xs: seq<string>, a: nat, b: nat) {
    a < b <= |xs| && piece == Strip(Group(pat, xs[a..b]))
  }

  /** Whether the loop tests item `x` for fit: every paragraph, but a
      sentence only when it is not blank (a blank one is skipped first). */
  predicate Tested(pat: Pattern, x: string) {
    pat == ParagraphBreak || !AllSpace(x)
  }

  /** Item `b` closes the open run `xs[a..b]`: the run has gathered some
      text (`current` is truthy), the item is tested, and it would take the
      run over MaxChunkChars (`len(current) + len(item) + len(separator)`). */
  predicate DidNotFit(pat: Pattern, xs: seq<string>, a: nat, b: nat) {
    a <= b < |xs| && Group(pat, xs[a..b]) != [] && Tested(pat, xs[b])
    && |Group(pat, xs[a..b])| + |xs[b]| + |Separator(pat)| > MaxChunkChars
  }

  /** No item of `xs[a..b]` after the first closed the run: each was taken
      into it. */
  predicate AllFit(pat: Pattern, xs: seq<string>, a: nat, b: nat) {
    a <= b <= |xs| && forall k :: a < k < b ==> !DidNotFit(pat, xs, a, k)
  }

  /** Piece `t` of `result` is made of the run `xs[c[t]..c[t + 1]]`, which
      took every item up to the first one that did not fit. */
  predicate ClosedRuns(pat: Pattern, result: seq<string>, xs: seq<string>, c: seq<nat>) {
    |c| == |result| + 1
    && forall t :: 0 <= t < |result| ==>
         Run(pat, result[t], xs, c[t], c[t + 1]) && AllFit(pat, xs, c[t], c[t + 1])
         && DidNotFit(pat, xs, c[t], c[t + 1])
  }

  lemma ClosedRunsSnoc(pat: Pattern, result: seq<string>, xs: seq<string>, c: seq<nat>, piece: string, b: nat)
    requires ClosedRuns(pat, result, xs, c)
    requires Run(pat, piece, xs, c[|result|], b) && AllFit(pat, xs, c[|result|], b)
    requires DidNotFit(pat, xs, c[|result|], b)
    ensures ClosedRuns(pat, result + [piece], xs, c + [b])
  {
    var r, c' := result + [piece], c + [b];
    forall t | 0 <= t < |r|
      ensures Run(pat, r[t], xs, c'[t], c'[t + 1]) && AllFit(pat, xs, c'[t], c'[t + 1])
      ensures DidNotFit(pat, xs, c'[t], c'[t + 1])
    {
      if t < |result| {
        assert r[t] == result[t] && c'[t] == c[t] && c'[t + 1] == c[t + 1];
      }
    }
  }

  /** `result` is `xs` packed into runs at the cuts `c`, as the packing loops
      of `split_long_chunk` (paragraphs) and `split_at_sentences` (sentences)
      pack them: the cuts start at 0 and piece `t` is made of the run
      `xs[c[t]..c[t + 1]]`, so the runs are consecutive and every item before
      the last cut lies in exactly one piece, whole; each run takes every
      item up to the first that does not fit, and closes there; a run that
      reaches the end gives a non-empty piece; and the items after the last
      cut, which yield no piece, form an open run that gathers whitespace
      only. PackedUnique shows that these conditions fix the pieces. */
  predicate Packed(pat: Pattern, result: seq<string>, xs: seq<string>, c: seq<nat>) {
    |c| == |result| + 1 && c[0] == 0 && c[|result|] <= |xs|
    && (forall t :: 0 <= t < |result| ==>
          Run(pat, result[t], xs, c[t], c[t + 1]) && AllFit(pat, xs, c[t], c[t + 1])
          && (c[t + 1] < |xs| ==> DidNotFit(pat, xs, c[t], c[t + 1]))
          && (c[t + 1] == |xs| ==> result[t] != []))
    && AllFit(pat, xs, c[|result|], |xs|)
    && AllSpace(Group(pat, xs[c[|result|]..]))
  }

  /** A packing loop after `i` items: the finished pieces are closed runs,
      and `current` gathers the open run from the last cut to `i`, which has
      taken every item since its first. */
  predicate PackedSoFar(pat: Pattern, result: seq<string>, current: string, xs: seq<string>, c: seq<nat>, i: nat) {
    i <= |xs| && ClosedRuns(pat, result, xs, c) && c[0] == 0 && c[|result|] <= i
    && AllFit(pat, xs, c[|result|], i)
    && current == Group(pat, xs[c[|result|]..i])
  }

  lemma PackedStart(pat: Pattern, xs: seq<string>)
    ensures PackedSoFar(pat, [], "", xs, [0], 0)
  {
    assert xs[0..0] == [];
  }

  /** Closing the open run before item `i`, which does not fit, and opening
      a new one with it. */
  lemma PackedFlush(pat: Pattern, result: seq<string>, current: string, xs: seq<string>, c: seq<nat>, i: nat)
    requires i < |xs| && PackedSoFar(pat, result, current, xs, c, i)
    requires current != [] && Tested(pat, xs[i]) && |current| + |xs[i]| + |Separator(pat)| > MaxChunkChars
    ensures PackedSoFar(pat, result + [Strip(current)], xs[i], xs, c + [i], i + 1)
  {
    var a := c[|result|];
    EmptyRun(pat, xs, i);
    ClosedRunsSnoc(pat, result, xs, c, Strip(current), i);
    GroupAt(pat, xs, i);
  }

  /** An empty run gathers nothing, so a run that gathered some text holds
      at least one item. */
  lemma EmptyRun(pat: Pattern, xs: seq<string>, a: nat)
    requires a <= |xs|
    ensures Group(pat, xs[a..a]) == []
  {
    assert xs[a..a] == [];
    GroupEmpty(pat);
  }

  /** The run of item `i` alone gathers that item (a sentence only when it is not blank). */
  lemma GroupAt(pat: Pattern, xs: seq<string>, i: nat)
    requires i < |xs| && Tested(pat, xs[i])
    ensures Group(pat, xs[i..i + 1]) == xs[i]
  {
    assert xs[i..i + 1] == [xs[i]];
    GroupSingle(pat, xs[i]);
  }

  /** Taking item `i`, which fits or is not tested, into the open run. */
  lemma PackedExtend(pat: Pattern, result: seq<string>, current: string, xs: seq<string>, c: seq<nat>, i: nat)
    requires i < |xs| && PackedSoFar(pat, result, current, xs, c, i)
    requires !(current != [] && Tested(pat, xs[i]) && |current| + |xs[i]| + |Separator(pat)| > MaxChunkChars)
    ensures PackedSoFar(pat, result,
                        if !Tested(pat, xs[i]) then current
                        else if current != [] then current + Separator(pat) + xs[i] else xs[i],
                        xs, c, i + 1)
  {
    var a := c[|result|];
    ExtendRun(pat, xs, a, i, current);
    assert !DidNotFit(pat, xs, a, i);
    AllFitSnoc(pat, xs, a, i);
  }

  lemma AllFitSnoc(pat: Pattern, xs: seq<string>, a: nat, i: nat)
    requires i < |xs| && AllFit(pat, xs, a, i) && !DidNotFit(pat, xs, a, i)
    ensures AllFit(pat, xs, a, i + 1)
  {
    forall k | a < k < i + 1
      ensures !DidNotFit(pat, xs, a, k)
    {
      if k < i {
        assert a < k < i;
      }
    }
  }

  /** The open run `xs[a..i]` gathered `current`; with item `i` it gathers
      what the loop body makes of `current` and the item. */
  lemma ExtendRun(pat: Pattern, xs: seq<string>, a: nat, i: nat, current: string)
    requires a <= i < |xs| && current == Group(pat, xs[a..i])
    ensures Group(pat, xs[a..i + 1]) ==
              if !Tested(pat, xs[i]) then current
              else if current != [] then current + Separator(pat) + xs[i] else xs[i]
  {
    SliceSnoc(xs, a, i);
    GroupSnoc(pat, xs[a..i], xs[i]);
  }

  /** After the last item: a non-blank open run becomes the last piece, a
      blank one is dropped. */
  lemma PackedEnd(pat: Pattern, result: seq<string>, current: string, xs: seq<string>, c: seq<nat>)
    requires PackedSoFar(pat, result, current, xs, c, |xs|)
    ensures Strip(current) != [] ==> Packed(pat, result + [Strip(current)], xs, c + [|xs|])
    ensures Strip(current) == [] ==> Packed(pat, result, xs, c)
  {
    var m, n := |result|, |xs|;
    StripEmptyIffBlank(current);
    assert xs[c[m]..] == xs[c[m]..n];
    if Strip(current) != [] {
      PackedEndRun(pat, result, current, xs, c);
    }
  }

  lemma PackedEndRun(pat: Pattern, result: seq<string>, current: string, xs: seq<string>, c: seq<nat>)
    requires PackedSoFar(pat, result, current, xs, c, |xs|) && Strip(current) != []
    ensures Packed(pat, result + [Strip(current)], xs, c + [|xs|])
  {
    var m, n := |result|, |xs|;
    assert current != [] by {
      StripEmptyIffBlank(current);
    }
    EmptyRun(pat, xs, n);
    assert Run(pat, Strip(current), xs, c[m], n);
    ClosedRunsEnd(pat, result, xs, c, Strip(current));
  }

  /** Closed runs followed by one last non-empty piece whose run, taking
      every item, reaches the end are a packing. */
  lemma ClosedRunsEnd(pat: Pattern, result: seq<string>, xs: seq<string>, c: seq<nat>, piece: string)
    requires ClosedRuns(pat, result, xs, c) && c[0] == 0
    requires Run(pat, piece, xs, c[|result|], |xs|) && AllFit(pat, xs, c[|result|], |xs|) && piece != []
    ensures Packed(pat, result + [piece], xs, c + [|xs|])
  {
    var n := |xs|;
    LastRunAppended(pat, result, xs, c, piece);
    assert xs[n..] == [];
    GroupEmpty(pat);
    assert (c + [n])[0] == c[0];
  }

  lemma LastRunAppended(pat: Pattern, result: seq<string>, xs: seq<string>, c: seq<nat>, piece: string)
    requires ClosedRuns(pat, result, xs, c)
    requires Run(pat, piece, xs, c[|result|], |xs|) && AllFit(pat, xs, c[|result|], |xs|) && piece != []
    ensures forall t :: 0 <= t < |result| + 1 ==>
              Run(pat, (result + [piece])[t], xs, (c + [|xs|])[t], (c + [|xs|])[t + 1])
              && AllFit(pat, xs, (c + [|xs|])[t], (c + [|xs|])[t + 1])
              && ((c + [|xs|])[t + 1] < |xs| ==> DidNotFit(pat, xs, (c + [|xs|])[t], (c + [|xs|])[t + 1]))
              && ((c + [|xs|])[t + 1] == |xs| ==> (result + [piece])[t] != [])
  {
    var m, n := |result|, |xs|;
    var r, c' := result + [piece], c + [n];
    forall t | 0 <= t < |r|
      ensures Run(pat, r[t], xs, c'[t], c'[t + 1]) && AllFit(pat, xs, c'[t], c'[t + 1])
      ensures c'[t + 1] < n ==> DidNotFit(pat, xs, c'[t], c'[t + 1])
      ensures c'[t + 1] == n ==> r[t] != []
    {
      if t < m {
        assert r[t] == result[t] && c'[t] == c[t] && c'[t + 1] == c[t + 1];
      } else {
        assert r[t] == piece && c'[t] == c[m] && c'[t + 1] == n;
      }
    }
  }

  /** Two runs from the same start that each take every item up to the
      first one that does not fit, and stop there or at the end, stop at
      the same place. */
  lemma SameNextCut(pat: Pattern, xs: seq<string>, a: nat, b1: nat, b2: nat)
    requires a < b1 <= |xs| && AllFit(pat, xs, a, b1) && (b1 < |xs| ==> DidNotFit(pat, xs, a, b1))
    requires a < b2 <= |xs| && AllFit(pat, xs, a, b2) && (b2 < |xs| ==> DidNotFit(pat, xs, a, b2))
    ensures b1 == b2
  {
  }

  /** Two packings of the same items agree on their first `t + 1` cuts. */
  lemma {:induction false} PackedCutsAgree(pat: Pattern, xs: seq<string>, r1: seq<string>, c1: seq<nat>,
                                           r2: seq<string>, c2: seq<nat>, t: nat)
    requires Packed(pat, r1, xs, c1) && Packed(pat, r2, xs, c2)
    requires t <= |r1| && t <= |r2|
    ensures c1[t] == c2[t]
  {
    if t > 0 {
      PackedCutsAgree(pat, xs, r1, c1, r2, c2, t - 1);
      SameNextCut(pat, xs, c1[t - 1], c1[t], c2[t]);
    }
  }

  /** Packing is deterministic: the conditions of Packed leave exactly one
      list of pieces, the one the packing loop computes. */
  lemma PackedUnique(pat: Pattern, xs: seq<string>, r1: seq<string>, c1: seq<nat>, r2: seq<string>, c2: seq<nat>)
    requires Packed(pat, r1, xs, c1) && Packed(pat, r2, xs, c2)
    ensures r1 == r2 && c1 == c2
  {
    PackedNoLonger(pat, xs, r1, c1, r2, c2);
    PackedNoLonger(pat, xs, r2, c2, r1, c1);
    forall t | 0 <= t <= |r1|
      ensures c1[t] == c2[t]
    {
      PackedCutsAgree(pat, xs, r1, c1, r2, c2, t);
    }
    forall t | 0 <= t < |r1|
      ensures r1[t] == r2[t]
    {
      assert c1[t] == c2[t] && c1[t + 1] == c2[t + 1];
    }
  }

  /** A packing has no more pieces than another packing of the same items:
      where one has its open run, the other cannot have a piece. */
  lemma PackedNoLonger(pat: Pattern, xs: seq<string>, r1: seq<string>, c1: seq<nat>, r2: seq<string>, c2: seq<nat>)
    requires Packed(pat, r1, xs, c1) && Packed(pat, r2, xs, c2)
    ensures |r2| <= |r1|
  {
    if |r1| < |r2| {
      var m := |r1|;
      PackedCutsAgree(pat, xs, r1, c1, r2, c2, m);
      if c2[m + 1] < |xs| {
        FitsToEnd(pat, xs, c1[m], c2[m + 1]);
      } else {
        BlankRunNoPiece(pat, xs, c1[m], r2[m]);
      }
      assert false;
    }
  }

  /** Within a run from `a` that takes every item to the end, no item
      closes a run. */
  lemma FitsToEnd(pat: Pattern, xs: seq<string>, a: nat, b: nat)
    requires AllFit(pat, xs, a, |xs|) && a < b < |xs|
    ensures !DidNotFit(pat, xs, a, b)
  {
  }

  /** The piece made of an open run that gathers only whitespace is empty. */
  lemma BlankRunNoPiece(pat: Pattern, xs: seq<string>, a: nat, piece: string)
    requires a <= |xs| && AllSpace(Group(pat, xs[a..])) && Run(pat, piece, xs, a, |xs|)
    ensures piece == []
  {
    assert xs[a..] == xs[a..|xs|];
    StripEmptyIffBlank(Group(pat, xs[a..|xs|]));
  }

  /** A piece produced by the paragraph-packing pass: stripped, and at most
      MaxChunkChars long unless it is one (stripped) paragraph on its own. */
  predicate ParagraphPiece(p: string, paragraphs: seq<string>) {
    Stripped(p) && (|p| <= MaxChunkChars || exists j :: 0 <= j < |paragraphs| && p == Strip(paragraphs[j]))
  }

  /** The `current` accumulator of the paragraph-packing loop: empty, within
      the limit, or one paragraph on its own. */
  predicate ParagraphPending(current: string, paragraphs: seq<string>) {
    |current| <= MaxChunkChars || exists j :: 0 <= j < |paragraphs| && current == paragraphs[j]
  }

  predicate ParagraphState(result: seq<string>, current: string, done: string, paragraphs: seq<string>) {
    Content(result) + NonWs(current) == done
    && (forall k :: 0 <= k < |result| ==> ParagraphPiece(result[k], paragraphs))
    && ParagraphPending(current, paragraphs)
  }

  /** First pass of `split_long_chunk`: greedily packs consecutive paragraphs,
      joined by blank lines, into stripped pieces of at most MaxChunkChars
      characters (a paragraph that is longer on its own stays whole), keeping
      all of their content in order. */
  method PackParagraphs(paragraphs: seq<string>) returns (result: seq<string>, ghost cuts: seq<nat>)
    ensures Content(result) == Content(paragraphs)
    ensures forall k :: 0 <= k < |result| ==> ParagraphPiece(result[k], paragraphs)
    ensures Packed(ParagraphBreak, result, paragraphs, cuts)
  {
    result := [];
    var current: string := "";
    var i: nat := 0;
    cuts := [0];
    ParagraphLoopStart(paragraphs);
    while i < |paragraphs|
      invariant ParagraphLoop(result, current, paragraphs, cuts, i)
    {
      result, current, cuts := PackNextParagraph(result, current, paragraphs, cuts, i);
      i := i + 1;
    }
    result, cuts := FlushLastParagraphs(result, current, paragraphs, cuts);
  }

  /** After the paragraph loop of `split_long_chunk`: a non-blank `current`
      is stripped and appended as the last piece. */
  method FlushLastParagraphs(result: seq<string>, current: string, paragraphs: seq<string>, ghost cuts: seq<nat>)
    returns (final: seq<string>, ghost finalCuts: seq<nat>)
    requires ParagraphLoop(result, current, paragraphs, cuts, |paragraphs|)
    ensures Content(final) == Content(paragraphs)
    ensures forall k :: 0 <= k < |final| ==> ParagraphPiece(final[k], paragraphs)
    ensures Packed(ParagraphBreak, final, paragraphs, finalCuts)
  {
    final, finalCuts := result, cuts;
    if Strip(current) != [] {
      final := result + [Strip(current)];
      finalCuts := cuts + [|paragraphs|];
    }
    ParagraphLoopEnd(result, current, paragraphs, cuts, final, finalCuts);
  }

  /** One pass of the paragraph loop of `split_long_chunk`: paragraph `i`
      closes the current piece when it does not fit after it (the piece is
      stripped and a new run starts at `i`), and otherwise is appended to
      it after a blank line, or starts it. */
  method PackNextParagraph(result: seq<string>, current: string, paragraphs: seq<string>, ghost cuts: seq<nat>, i: nat)
    returns (result': seq<string>, current': string, ghost cuts': seq<nat>)
    requires i < |paragraphs| && ParagraphLoop(result, current, paragraphs, cuts, i)
    ensures ParagraphLoop(result', current', paragraphs, cuts', i + 1)
  {
    var para := paragraphs[i];
    result', current', cuts' := result, current, cuts;
    if current != [] && |current| + |para| + 2 > MaxChunkChars {
      result' := result + [Strip(current)];
      cuts' := cuts + [i];
      current' := para;
    } else if current != [] {
      current' := current + "\n\n" + para;
    } else {
      current' := para;
    }
    ParagraphLoopStep(result, current, paragraphs, cuts, i, result', current', cuts');
  }

  /** The invariant of the paragraph-packing loop after `i` paragraphs. */
  predicate ParagraphLoop(result: seq<string>, current: string, paragraphs: seq<string>, cuts: seq<nat>, i: nat) {
    i <= |paragraphs|
    && ParagraphState(result, current, Content(paragraphs[..i]), paragraphs)
    && PackedSoFar(ParagraphBreak, result, current, paragraphs, cuts, i)
  }

  lemma ParagraphLoopStart(paragraphs: seq<string>)
    ensures ParagraphLoop([], "", paragraphs, [0], 0)
  {
    PackedStart(ParagraphBreak, paragraphs);
    assert paragraphs[..0] == [];
    assert NonWs("") == [];
  }

  /** One step of the paragraph-packing loop: paragraph `i` closes the
      current piece when it does not fit after it, and is taken into it
      otherwise. */
  lemma ParagraphLoopStep(result: seq<string>, current: string, paragraphs: seq<string>, cuts: seq<nat>, i: nat,
                          result': seq<string>, current': string, cuts': seq<nat>)
    requires i < |paragraphs| && ParagraphLoop(result, current, paragraphs, cuts, i)
    requires current != [] && |current| + |paragraphs[i]| + 2 > MaxChunkChars ==>
               result' == result + [Strip(current)] && current' == paragraphs[i] && cuts' == cuts + [i]
    requires !(current != [] && |current| + |paragraphs[i]| + 2 > MaxChunkChars) ==>
               result' == result && cuts' == cuts
               && current' == if current != [] then current + "\n\n" + paragraphs[i] else paragraphs[i]
    ensures ParagraphLoop(result', current', paragraphs, cuts', i + 1)
  {
    ContentPrefixStep(paragraphs, i);
    if current != [] && |current| + |paragraphs[i]| + 2 > MaxChunkChars {
      ParagraphFlushStep(result, current, Content(paragraphs[..i]), paragraphs, i);
      PackedFlush(ParagraphBreak, result, current, paragraphs, cuts, i);
    } else {
      if current != [] {
        ParagraphJoinStep(result, current, Content(paragraphs[..i]), paragraphs, i);
      } else {
        ParagraphStartStep(result, Content(paragraphs[..i]), paragraphs, i);
      }
      PackedExtend(ParagraphBreak, result, current, paragraphs, cuts, i);
    }
  }

  /** After the last paragraph, flushing a non-blank `current` gives the
      contract of PackParagraphs. */
  lemma ParagraphLoopEnd(result: seq<string>, current: string, paragraphs: seq<string>, cuts: seq<nat>,
                         final: seq<string>, finalCuts: seq<nat>)
    requires ParagraphLoop(result, current, paragraphs, cuts, |paragraphs|)
    requires final == if Strip(current) != [] then result + [Strip(current)] else result
    requires finalCuts == if Strip(current) != [] then cuts + [|paragraphs|] else cuts
    ensures Content(final) == Content(paragraphs)
    ensures forall k :: 0 <= k < |final| ==> ParagraphPiece(final[k], paragraphs)
    ensures Packed(ParagraphBreak, final, paragraphs, finalCuts)
  {
    assert paragraphs[..|paragraphs|] == paragraphs;
    StripEmptyIffBlank(current);
    PackedEnd(ParagraphBreak, result, current, paragraphs, cuts);
    if Strip(current) != [] {
      ParagraphFlush(result, current, paragraphs);
    } else {
      NonWsEmptyIffAllSpace(current);
      assert Content(result) + [] == Content(result);
    }
  }

  /** What appending `strip(current)` to the packed pieces preserves. */
  lemma ParagraphFlush(result: seq<string>, current: string, paragraphs: seq<string>)
    requires forall k :: 0 <= k < |result| ==> ParagraphPiece(result[k], paragraphs)
    requires ParagraphPending(current, paragraphs)
    ensures Content(result + [Strip(current)]) == Content(result) + NonWs(current)
    ensures forall k :: 0 <= k < |result| + 1 ==> ParagraphPiece((result + [Strip(current)])[k], paragraphs)
  {
    ContentSnoc(result, Strip(current));
    StripKeepsContent(current);
    StrippedIffFixpoint(current);
    var r := result + [Strip(current)];
    forall k | 0 <= k < |r| ensures ParagraphPiece(r[k], paragraphs) {
      if k < |result| { assert r[k] == result[k]; }
    }
  }

  lemma ParagraphFlushStep(result: seq<string>, current: string, done: string, paragraphs: seq<string>, i: nat)
    requires i < |paragraphs|
    requires ParagraphState(result, current, done, paragraphs)
    ensures ParagraphState(result + [Strip(current)], paragraphs[i], done + NonWs(paragraphs[i]), paragraphs)
  {
    ParagraphFlush(result, current, paragraphs);
  }

  lemma ParagraphJoinStep(result: seq<string>, current: string, done: string, paragraphs: seq<string>, i: nat)
    requires i < |paragraphs|
    requires ParagraphState(result, current, done, paragraphs)
    requires |current| + |paragraphs[i]| + 2 <= MaxChunkChars
    ensures ParagraphState(result, current + "\n\n" + paragraphs[i], done + NonWs(paragraphs[i]), paragraphs)
  {
    JoinedContent(current, "\n\n", paragraphs[i]);
    AppendAssoc(Content(result), NonWs(current), NonWs(paragraphs[i]));
  }

  lemma ParagraphStartStep(result: seq<string>, done: string, paragraphs: seq<string>, i: nat)
    requires i < |paragraphs|
    requires ParagraphState(result, [], done, paragraphs)
    ensures ParagraphState(result, paragraphs[i], done + NonWs(paragraphs[i]), paragraphs)
  {
    assert NonWs([]) == [];
    assert Content(result) + [] == Content(result);
  }

  /** Second pass of `split_long_chunk`: a piece shorter than MinChunkChars
      is merged, after a blank line, into the piece before it, and a piece
      that follows a short one is merged into it; any other piece starts a
      new merged piece. The ghost `cuts` say which run of `chunks` each
      merged piece joins (MergedRuns; MergedUnique shows they are fixed).
      Joining the pieces with blank lines gives the same text before and
      after; afterwards only the last piece can be short, and when there
      are two or more pieces none is. */
  method MergeStubs(chunks: seq<string>) returns (merged: seq<string>, ghost cuts: seq<nat>)
    ensures MergedRuns(merged, chunks, cuts, |chunks|)
    ensures Join("\n\n", merged) == Join("\n\n", chunks)
    ensures |merged| <= |chunks| && (merged == [] <==> chunks == [])
    ensures forall k :: 0 <= k < |merged| - 1 ==> |merged[k]| >= MinChunkChars
    ensures |merged| >= 2 ==> forall k :: 0 <= k < |merged| ==> |merged[k]| >= MinChunkChars
  {
    merged := [];
    cuts := [0];
    var i: nat := 0;
    assert chunks[..0] == [];
    while i < |chunks|
      invariant MergeLoop(merged, chunks, cuts, i)
    {
      merged, cuts := MergeNext(merged, chunks, cuts, i);
      i := i + 1;
    }
    assert chunks[..i] == chunks;
  }

  /** Chunk `k` is merged into the piece joined from `chunks[a..k]`: that
      piece or the chunk is shorter than MinChunkChars. */
  predicate Merges(chunks: seq<string>, a: nat, k: nat) {
    a < k < |chunks| && (|Join("\n\n", chunks[a..k])| < MinChunkChars || |chunks[k]| < MinChunkChars)
  }

  /** Every chunk of `chunks[a..b]` after the first was merged into the run. */
  predicate MergedInto(chunks: seq<string>, a: nat, b: nat) {
    forall k :: a < k < b ==> Merges(chunks, a, k)
  }

  /** `merged` is `chunks[..n]` cut at `c` into non-empty consecutive runs,
      each joined by blank lines: within a run every chunk was merged, and
      a run starts at a chunk that was not. */
  predicate MergedRuns(merged: seq<string>, chunks: seq<string>, c: seq<nat>, n: nat) {
    n <= |chunks| && |c| == |merged| + 1 && c[0] == 0 && c[|merged|] == n
    && forall t :: 0 <= t < |merged| ==> MergedRun(merged, chunks, c, t)
  }

  /** Merged piece `t` joins the run `chunks[c[t]..c[t + 1]]`, every chunk of
      which after the first was merged, and whose first chunk was not. */
  predicate MergedRun(merged: seq<string>, chunks: seq<string>, c: seq<nat>, t: nat)
    requires |c| == |merged| + 1 && t < |merged|
  {
    c[t] < c[t + 1] <= |chunks| && merged[t] == Join("\n\n", chunks[c[t]..c[t + 1]])
    && MergedInto(chunks, c[t], c[t + 1])
    && (t > 0 ==> !Merges(chunks, c[t - 1], c[t]))
  }

  /** The invariant of the merge loop after `i` chunks. */
  predicate MergeLoop(merged: seq<string>, chunks: seq<string>, cuts: seq<nat>, i: nat) {
    i <= |chunks|
    && Join("\n\n", merged) == Join("\n\n", chunks[..i])
    && |merged| <= i && (merged == [] <==> i == 0)
    && (forall k :: 0 <= k < |merged| - 1 ==> |merged[k]| >= MinChunkChars)
    && (|merged| >= 2 ==> |merged[|merged| - 1]| >= MinChunkChars)
    && MergedRuns(merged, chunks, cuts, i)
  }

  /** One pass of the merge loop: chunk `i` is appended to the last merged
      piece when that piece or the chunk is short, and is a new piece otherwise. */
  method MergeNext(merged: seq<string>, chunks: seq<string>, ghost cuts: seq<nat>, i: nat)
    returns (merged': seq<string>, ghost cuts': seq<nat>)
    requires i < |chunks| && MergeLoop(merged, chunks, cuts, i)
    ensures MergeLoop(merged', chunks, cuts', i + 1)
  {
    var chunk := chunks[i];
    if merged != [] && |merged[|merged| - 1]| < MinChunkChars {
      MergeExtendStep(merged, chunks, cuts, i);
      merged' := merged[|merged| - 1 := merged[|merged| - 1] + "\n\n" + chunk];
      cuts' := cuts[|merged| := i + 1];
    } else if merged != [] && |chunk| < MinChunkChars {
      MergeExtendStep(merged, chunks, cuts, i);
      merged' := merged[|merged| - 1 := merged[|merged| - 1] + "\n\n" + chunk];
      cuts' := cuts[|merged| := i + 1];
    } else {
      MergeAppendStep(merged, chunks, cuts, i);
      merged' := merged + [chunk];
      cuts' := cuts + [i + 1];
    }
  }

  /** Chunk `i`, merged into the last piece. */
  lemma MergeExtendStep(merged: seq<string>, chunks: seq<string>, cuts: seq<nat>, i: nat)
    requires i < |chunks| && MergeLoop(merged, chunks, cuts, i) && merged != []
    requires |merged[|merged| - 1]| < MinChunkChars || |chunks[i]| < MinChunkChars
    ensures MergeLoop(merged[|merged| - 1 := merged[|merged| - 1] + "\n\n" + chunks[i]], chunks,
                      cuts[|merged| := i + 1], i + 1)
  {
    var chunk := chunks[i];
    assert chunks[..i + 1] == chunks[..i] + [chunk];
    JoinExtendLast("\n\n", merged, chunk);
    JoinSnoc("\n\n", chunks[..i], chunk);
    MergedRunsExtend(merged, chunks, cuts, i, merged[|merged| - 1 := merged[|merged| - 1] + "\n\n" + chunk],
                     cuts[|merged| := i + 1]);
  }

  /** Chunk `i`, starting a new piece. */
  lemma MergeAppendStep(merged: seq<string>, chunks: seq<string>, cuts: seq<nat>, i: nat)
    requires i < |chunks| && MergeLoop(merged, chunks, cuts, i)
    requires merged != [] ==> |merged[|merged| - 1]| >= MinChunkChars && |chunks[i]| >= MinChunkChars
    ensures MergeLoop(merged + [chunks[i]], chunks, cuts + [i + 1], i + 1)
  {
    var chunk := chunks[i];
    assert chunks[..i + 1] == chunks[..i] + [chunk];
    if merged != [] {
      JoinSnoc("\n\n", merged, chunk);
      JoinSnoc("\n\n", chunks[..i], chunk);
    } else {
      assert chunks[..i + 1] == [chunk];
    }
    MergedRunsAppend(merged, chunks, cuts, i, merged + [chunk], cuts + [i + 1]);
  }

  lemma MergedRunsExtend(merged: seq<string>, chunks: seq<string>, cuts: seq<nat>, i: nat,
                         merged': seq<string>, cuts': seq<nat>)
    requires i < |chunks| && MergedRuns(merged, chunks, cuts, i) && merged != []
    requires |merged[|merged| - 1]| < MinChunkChars || |chunks[i]| < MinChunkChars
    requires merged' == merged[|merged| - 1 := merged[|merged| - 1] + "\n\n" + chunks[i]]
    requires cuts' == cuts[|merged| := i + 1]
    ensures MergedRuns(merged', chunks, cuts', i + 1)
  {
    var m := |merged|;
    var a := cuts[m - 1];
    assert MergedRun(merged, chunks, cuts, m - 1);
    assert Merges(chunks, a, i);
    SliceSnoc(chunks, a, i);
    JoinSnoc("\n\n", chunks[a..i], chunks[i]);
    forall t | 0 <= t < m
      ensures MergedRun(merged', chunks, cuts', t)
    {
      assert MergedRun(merged, chunks, cuts, t);
      if t < m - 1 {
        assert cuts'[t] == cuts[t] && cuts'[t + 1] == cuts[t + 1] && merged'[t] == merged[t];
      } else {
        assert cuts'[t] == a && cuts'[t + 1] == i + 1;
        if t > 0 { assert cuts'[t - 1] == cuts[t - 1]; }
      }
    }
  }

  lemma MergedRunsAppend(merged: seq<string>, chunks: seq<string>, cuts: seq<nat>, i: nat,
                         merged': seq<string>, cuts': seq<nat>)
    requires i < |chunks| && MergedRuns(merged, chunks, cuts, i)
    requires merged != [] ==> |merged[|merged| - 1]| >= MinChunkChars && |chunks[i]| >= MinChunkChars
    requires merged' == merged + [chunks[i]] && cuts' == cuts + [i + 1]
    ensures MergedRuns(merged', chunks, cuts', i + 1)
  {
    var m := |merged|;
    assert chunks[i..i + 1] == [chunks[i]];
    forall t | 0 <= t < m + 1
      ensures MergedRun(merged', chunks, cuts', t)
    {
      if t < m {
        assert MergedRun(merged, chunks, cuts, t);
        assert cuts'[t] == cuts[t] && cuts'[t + 1] == cuts[t + 1] && merged'[t] == merged[t];
      } else {
        assert cuts'[t] == i && cuts'[t + 1] == i + 1 && merged'[t] == chunks[i];
        if t > 0 {
          assert MergedRun(merged, chunks, cuts, t - 1);
          assert cuts'[t - 1] == cuts[t - 1];
        }
      }
    }
  }

  /** Two runs from the same start that each merge every chunk up to the
      first one that is not merged, and stop there or at the end, stop at
      the same place. */
  lemma SameMergeCut(chunks: seq<string>, a: nat, b1: nat, b2: nat)
    requires a < b1 <= |chunks| && MergedInto(chunks, a, b1) && (b1 < |chunks| ==> !Merges(chunks, a, b1))
    requires a < b2 <= |chunks| && MergedInto(chunks, a, b2) && (b2 < |chunks| ==> !Merges(chunks, a, b2))
    ensures b1 == b2
  {
  }

  /** Two stub-mergings of the same chunks agree on their first `t + 1` cuts. */
  lemma {:induction false} MergedCutsAgree(chunks: seq<string>, m1: seq<string>, c1: seq<nat>,
                                           m2: seq<string>, c2: seq<nat>, t: nat)
    requires MergedRuns(m1, chunks, c1, |chunks|) && MergedRuns(m2, chunks, c2, |chunks|)
    requires t <= |m1| && t <= |m2|
    ensures c1[t] == c2[t]
  {
    if t > 0 {
      MergedCutsAgree(chunks, m1, c1, m2, c2, t - 1);
      var a := c1[t - 1];
      assert MergedRun(m1, chunks, c1, t - 1) && MergedRun(m2, chunks, c2, t - 1);
      assert t < |m1| ==> MergedRun(m1, chunks, c1, t);
      assert t < |m2| ==> MergedRun(m2, chunks, c2, t);
      SameMergeCut(chunks, a, c1[t], c2[t]);
    }
  }

  /** Stub merging is deterministic: MergedRuns leaves exactly one result,
      the one the merge loop computes. */
  lemma MergedUnique(chunks: seq<string>, m1: seq<string>, c1: seq<nat>, m2: seq<string>, c2: seq<nat>)
    requires MergedRuns(m1, chunks, c1, |chunks|) && MergedRuns(m2, chunks, c2, |chunks|)
    ensures m1 == m2 && c1 == c2
  {
    MergedNoLonger(chunks, m1, c1, m2, c2);
    MergedNoLonger(chunks, m2, c2, m1, c1);
    forall t | 0 <= t <= |m1|
      ensures c1[t] == c2[t]
    {
      MergedCutsAgree(chunks, m1, c1, m2, c2, t);
    }
    forall t | 0 <= t < |m1|
      ensures m1[t] == m2[t]
    {
      assert MergedRun(m1, chunks, c1, t) && MergedRun(m2, chunks, c2, t);
      assert c1[t] == c2[t] && c1[t + 1] == c2[t + 1];
    }
  }

  /** One stub-merging has no more pieces than another of the same chunks:
      where one has reached the end, the other cannot start a run. */
  lemma MergedNoLonger(chunks: seq<string>, m1: seq<string>, c1: seq<nat>, m2: seq<string>, c2: seq<nat>)
    requires MergedRuns(m1, chunks, c1, |chunks|) && MergedRuns(m2, chunks, c2, |chunks|)
    ensures |m2| <= |m1|
  {
    if |m1| < |m2| {
      assert MergedRun(m2, chunks, c2, |m1|);
      MergedCutsAgree(chunks, m1, c1, m2, c2, |m1|);
      assert false;
    }
  }

  /** A piece of the final output of `split_long_chunk`: within the limit,
      a single sentence, or whitespace only. */
  predicate FinalPiece(p: string) {
    |p| <= MaxChunkChars || SingleSentence(p) || AllSpace(p)
  }

  /** `pieces` is what `split_at_sentences` makes of `text`: not empty, all
      of its content in order, `[text]` for a blank text, and otherwise
      SentencePieces that are the packed runs of the sentences of `text`
      at the cuts `c`. */
  predicate SentenceSplit(text: string, pieces: seq<string>, c: seq<nat>) {
    pieces != [] && Content(pieces) == NonWs(text)
    && (AllSpace(text) ==> pieces == [text])
    && (!AllSpace(text) ==>
          (forall i :: 0 <= i < |pieces| ==> SentencePiece(pieces[i], Sentences(text)))
          && Packed(SentenceBreak, pieces, Sentences(text), c))
    && (forall i :: 0 <= i < |pieces| ==> FinalPiece(pieces[i]))
  }

  /** Third pass of `split_long_chunk`: pieces within the limit are kept as
      they are and longer ones are replaced by `split_at_sentences` of them.
      The ghost `parts` hold what each merged piece became, in order. */
  method ForceSplit(merged: seq<string>) returns (final: seq<string>, ghost parts: seq<seq<string>>,
                                                  ghost partCuts: seq<seq<nat>>)
    ensures |parts| == |merged| && |partCuts| == |merged| && final == Flatten(parts)
    ensures forall k :: 0 <= k < |merged| && |merged[k]| <= MaxChunkChars ==> parts[k] == [merged[k]]
    ensures forall k :: 0 <= k < |merged| && |merged[k]| > MaxChunkChars ==>
              SentenceSplit(merged[k], parts[k], partCuts[k])
    ensures Content(final) == Content(merged)
    ensures forall k :: 0 <= k < |final| ==> FinalPiece(final[k])
    ensures (forall k :: 0 <= k < |merged| ==> |merged[k]| <= MaxChunkChars) ==> final == merged
    ensures |final| >= |merged|
  {
    final, parts, partCuts := [], [], [];
    var i: nat := 0;
    assert merged[..0] == [];
    while i < |merged|
      invariant ForceLoop(merged, final, parts, partCuts, i)
    {
      final, parts, partCuts := ForceNext(merged, final, parts, partCuts, i);
      i := i + 1;
    }
    ForceLoopEnd(merged, final, parts, partCuts);
  }

  /** One pass of the force-split loop: merged piece `i` is kept when it is
      within the limit and replaced by `split_at_sentences` of it otherwise. */
  method ForceNext(merged: seq<string>, final: seq<string>, ghost parts: seq<seq<string>>,
                   ghost partCuts: seq<seq<nat>>, i: nat)
    returns (final': seq<string>, ghost parts': seq<seq<string>>, ghost partCuts': seq<seq<nat>>)
    requires i < |merged| && ForceLoop(merged, final, parts, partCuts, i)
    ensures ForceLoop(merged, final', parts', partCuts', i + 1)
  {
    var chunk := merged[i];
    var part: seq<string>;
    ghost var c: seq<nat> := [];
    if |chunk| <= MaxChunkChars {
      part := [chunk];
    } else {
      part, c := SplitAtSentences(chunk);
      assert SentenceSplit(chunk, part, c);
    }
    ForceLoopStep(merged, final, parts, partCuts, i, part, c);
    final' := final + part;
    parts' := parts + [part];
    partCuts' := partCuts + [c];
  }

  /** After the last merged piece the loop invariant is the contract of ForceSplit. */
  lemma ForceLoopEnd(merged: seq<string>, final: seq<string>, parts: seq<seq<string>>, partCuts: seq<seq<nat>>)
    requires ForceLoop(merged, final, parts, partCuts, |merged|)
    ensures |parts| == |merged| && |partCuts| == |merged| && final == Flatten(parts)
    ensures forall k :: 0 <= k < |merged| && |merged[k]| <= MaxChunkChars ==> parts[k] == [merged[k]]
    ensures forall k :: 0 <= k < |merged| && |merged[k]| > MaxChunkChars ==>
              SentenceSplit(merged[k], parts[k], partCuts[k])
    ensures Content(final) == Content(merged)
    ensures forall k :: 0 <= k < |final| ==> FinalPiece(final[k])
    ensures (forall k :: 0 <= k < |merged| ==> |merged[k]| <= MaxChunkChars) ==> final == merged
    ensures |final| >= |merged|
  {
    assert merged[..|merged|] == merged;
  }

  /** The invariant of the force-split loop after `i` merged pieces. */
  predicate ForceLoop(merged: seq<string>, final: seq<string>, parts: seq<seq<string>>, partCuts: seq<seq<nat>>, i: nat) {
    i <= |merged| && |parts| == i && |partCuts| == i && final == Flatten(parts)
    && (forall k :: 0 <= k < i && |merged[k]| <= MaxChunkChars ==> parts[k] == [merged[k]])
    && (forall k :: 0 <= k < i && |merged[k]| > MaxChunkChars ==> SentenceSplit(merged[k], parts[k], partCuts[k]))
    && Content(final) == Content(merged[..i])
    && (forall k :: 0 <= k < |final| ==> FinalPiece(final[k]))
    && ((forall k :: 0 <= k < i ==> |merged[k]| <= MaxChunkChars) ==> final == merged[..i])
    && |final| >= i
  }

  /** One step of the force-split loop: merged piece `i` is replaced by `part`. */
  lemma ForceLoopStep(merged: seq<string>, final: seq<string>, parts: seq<seq<string>>, partCuts: seq<seq<nat>>,
                      i: nat, part: seq<string>, c: seq<nat>)
    requires i < |merged| && ForceLoop(merged, final, parts, partCuts, i)
    requires |merged[i]| <= MaxChunkChars ==> part == [merged[i]]
    requires |merged[i]| > MaxChunkChars ==> SentenceSplit(merged[i], part, c)
    ensures ForceLoop(merged, final + part, parts + [part], partCuts + [c], i + 1)
  {
    ForcedParts(merged, parts, partCuts, i, part, c);
    ForcedPieces(merged, final, i, part);
    FlattenSnoc(parts, part);
  }

  /** What the merged pieces before `i + 1` became, once piece `i` became `part`. */
  lemma ForcedParts(merged: seq<string>, parts: seq<seq<string>>, partCuts: seq<seq<nat>>,
                    i: nat, part: seq<string>, c: seq<nat>)
    requires i < |merged| && |parts| == i && |partCuts| == i
    requires forall k :: 0 <= k < i && |merged[k]| <= MaxChunkChars ==> parts[k] == [merged[k]]
    requires forall k :: 0 <= k < i && |merged[k]| > MaxChunkChars ==> SentenceSplit(merged[k], parts[k], partCuts[k])
    requires |merged[i]| <= MaxChunkChars ==> part == [merged[i]]
    requires |merged[i]| > MaxChunkChars ==> SentenceSplit(merged[i], part, c)
    ensures forall k :: 0 <= k < i + 1 && |merged[k]| <= MaxChunkChars ==> (parts + [part])[k] == [merged[k]]
    ensures forall k :: 0 <= k < i + 1 && |merged[k]| > MaxChunkChars ==>
              SentenceSplit(merged[k], (parts + [part])[k], (partCuts + [c])[k])
  {
    var parts', partCuts' := parts + [part], partCuts + [c];
    forall k | 0 <= k < i + 1
      ensures |merged[k]| <= MaxChunkChars ==> parts'[k] == [merged[k]]
      ensures |merged[k]| > MaxChunkChars ==> SentenceSplit(merged[k], parts'[k], partCuts'[k])
    {
      if k < i { assert parts'[k] == parts[k] && partCuts'[k] == partCuts[k]; }
    }
  }

  /** Content, bounds and the unchanged case, once merged piece `i` became `part`. */
  lemma ForcedPieces(merged: seq<string>, final: seq<string>, i: nat, part: seq<string>)
    requires i < |merged|
    requires Content(final) == Content(merged[..i])
    requires forall k :: 0 <= k < |final| ==> FinalPiece(final[k])
    requires (forall k :: 0 <= k < i ==> |merged[k]| <= MaxChunkChars) ==> final == merged[..i]
    requires |final| >= i
    requires |merged[i]| <= MaxChunkChars ==> part == [merged[i]]
    requires |merged[i]| > MaxChunkChars ==>
               part != [] && Content(part) == NonWs(merged[i])
               && forall k :: 0 <= k < |part| ==> FinalPiece(part[k])
    ensures Content(final + part) == Content(merged[..i + 1])
    ensures forall k :: 0 <= k < |final + part| ==> FinalPiece((final + part)[k])
    ensures (forall k :: 0 <= k < i + 1 ==> |merged[k]| <= MaxChunkChars) ==> final + part == merged[..i + 1]
    ensures |final + part| >= i + 1
  {
    var chunk := merged[i];
    ContentPrefixStep(merged, i);
    assert merged[..i + 1] == merged[..i] + [chunk];
    if |chunk| <= MaxChunkChars {
      ContentSingle(chunk);
    }
    ContentAppend(final, part);
  }

  /** `split_long_chunk`: a text within MaxChunkChars is returned as the only
      piece; a longer one is cut at blank lines, packed, stub-merged and
      force-split. No content is lost or reordered, and every piece is within
      the limit unless it is a single sentence (or whitespace only). */
  method SplitLongChunk(text: string) returns (pieces: seq<string>)
    ensures |text| <= MaxChunkChars ==> pieces == [text]
    ensures Content(pieces) == NonWs(text)
    ensures forall k :: 0 <= k < |pieces| ==> FinalPiece(pieces[k])
    ensures !AllSpace(text) ==> pieces != []
  {
    if |text| <= MaxChunkChars {
      ContentSingle(text);
      return [text];
    }
    var paragraphs := Paragraphs(text);
    var result, cuts := PackParagraphs(paragraphs);
    var merged, _ := MergeStubs(result);
    SeparatorsAreSpace();
    JoinContent("\n\n", merged);
    JoinContent("\n\n", result);
    var final, _, _ := ForceSplit(merged);
    pieces := final;
    NonWsEmptyIffAllSpace(text);
  }
}
