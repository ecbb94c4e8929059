/** String primitives of the ingestion script, with Python's `str` semantics:
    whitespace as `str.isspace` sees it, `strip`, `split()`, `find`, `in`,
    `join` and `replace`. */
module Text {

  datatype Option<+T> = None | Some(value: T)

  /** U+200A HAIR SPACE, which the PDF text extractor wraps around clause codes. */
  const HairSpace: char := '\U{200A}'
  /** U+00A0 NO-BREAK SPACE. */
  const NoBreakSpace: char := '\U{00A0}'

  /** Python's `str.isspace` for one character. Both U+200A and U+00A0 are
      whitespace to Python, so `strip` and `split` treat them as such. */
  predicate IsSpace(c: char) {
    c == ' ' || c == '\t' || c == '\n' || c == '\U{000B}' || c == '\U{000C}' || c == '\r'
    || ('\U{001C}' <= c <= '\U{001F}') || c == '\U{0085}' || c == '\U{00A0}' || c == '\U{1680}'
    || ('\U{2000}' <= c <= '\U{200A}') || c == '\U{2028}' || c == '\U{2029}' || c == '\U{202F}'
    || c == '\U{205F}' || c == '\U{3000}'
  }

  predicate AllSpace(s: string) {
    forall i :: 0 <= i < |s| ==> IsSpace(s[i])
  }

  predicate NoSpace(s: string) {
    forall i :: 0 <= i < |s| ==> !IsSpace(s[i])
  }

  /** The non-whitespace characters of `s`, in order: the "content" that the
      chunker must neither lose nor reorder. */
  function NonWs(s: string): string {
    if s == [] then []
    else (if IsSpace(s[0]) then [] else [s[0]]) + NonWs(s[1..])
  }

  lemma {:induction false} NonWsAppend(a: string, b: string)
    ensures NonWs(a + b) == NonWs(a) + NonWs(b)
  {
    if a == [] {
      assert a + b == b;
    } else {
      assert (a + b)[1..] == a[1..] + b;
      NonWsAppend(a[1..], b);
    }
  }

  lemma {:induction false} NonWsEmptyIffAllSpace(s: string)
    ensures NonWs(s) == [] <==> AllSpace(s)
  {
    if s != [] {
      NonWsEmptyIffAllSpace(s[1..]);
      if !IsSpace(s[0]) {
        assert NonWs(s)[0] == s[0];
      }
      assert AllSpace(s) <==> IsSpace(s[0]) && AllSpace(s[1..]) by {
        if AllSpace(s) {
          forall i | 0 <= i < |s[1..]| ensures IsSpace(s[1..][i]) { assert s[1..][i] == s[i + 1]; }
        }
        if IsSpace(s[0]) && AllSpace(s[1..]) {
          forall i | 0 <= i < |s| ensures IsSpace(s[i]) { if i > 0 { assert s[i] == s[1..][i - 1]; } }
        }
      }
    }
  }

  /** The separator strings the splitter inserts carry no content. */
  lemma NonWsOfSeparators()
    ensures NonWs(" ") == [] && NonWs("\n\n") == [] && NonWs("\n") == []
  {
  }

  lemma SeparatorsAreSpace()
    ensures AllSpace(" ") && AllSpace("\n\n")
  {
  }

  /** Concatenation of a list of strings (`"".join(xs)`). */
  function Concat(xs: seq<string>): string {
    if xs == [] then [] else xs[0] + Concat(xs[1..])
  }

  lemma {:induction false} ConcatAppend(xs: seq<string>, ys: seq<string>)
    ensures Concat(xs + ys) == Concat(xs) + Concat(ys)
  {
    if xs == [] {
      assert xs + ys == ys;
    } else {
      assert (xs + ys)[1..] == xs[1..] + ys;
      ConcatAppend(xs[1..], ys);
    }
  }

  /** A slice grows by one element at its end. */
  lemma SliceSnoc<T>(xs: seq<T>, a: nat, i: nat)
    requires a <= i < |xs|
    ensures xs[a..i + 1] == xs[a..i] + [xs[i]]
  {
  }

  /** Several lists one after the other. */
  function Flatten<T>(xss: seq<seq<T>>): seq<T> {
    if xss == [] then [] else Flatten(xss[..|xss| - 1]) + xss[|xss| - 1]
  }

  lemma FlattenSnoc<T>(xss: seq<seq<T>>, xs: seq<T>)
    ensures Flatten(xss + [xs]) == Flatten(xss) + xs
  {
    assert (xss + [xs])[..|xss|] == xss;
  }

  /** The content of a list of pieces: the non-whitespace characters of
      all of them, in order. */
  function Content(xs: seq<string>): string {
    NonWs(Concat(xs))
  }

  lemma ContentAppend(xs: seq<string>, ys: seq<string>)
    ensures Content(xs + ys) == Content(xs) + Content(ys)
  {
    ConcatAppend(xs, ys);
    NonWsAppend(Concat(xs), Concat(ys));
  }

  lemma ContentSnoc(xs: seq<string>, x: string)
    ensures Content(xs + [x]) == Content(xs) + NonWs(x)
  {
    ContentAppend(xs, [x]);
    assert Concat([x]) == x by {
      assert [x][1..] == [];
      assert x + [] == x;
    }
  }

  lemma ContentPrefixStep(xs: seq<string>, i: nat)
    requires i < |xs|
    ensures Content(xs[..i + 1]) == Content(xs[..i]) + NonWs(xs[i])
  {
    assert xs[..i + 1] == xs[..i] + [xs[i]];
    ContentSnoc(xs[..i], xs[i]);
  }

  /** Replacing the last piece by itself followed by a separator and another
      piece adds exactly that other piece's content. */
  lemma ContentExtendLast(xs: seq<string>, sep: string, x: string)
    requires xs != [] && NonWs(sep) == []
    ensures Content(xs[|xs| - 1 := xs[|xs| - 1] + sep + x]) == Content(xs) + NonWs(x)
  {
    var n := |xs| - 1;
    var pre, last := xs[..n], xs[n];
    assert xs == pre + [last];
    assert xs[n := last + sep + x] == pre + [last + sep + x];
    ContentSnocExtended(pre, last, sep, x);
  }

  /** Extending the last piece by a blank separator and `x` adds the content of `x`. */
  lemma ContentSnocExtended(pre: seq<string>, last: string, sep: string, x: string)
    requires NonWs(sep) == []
    ensures Content(pre + [last + sep + x]) == Content(pre + [last]) + NonWs(x)
  {
    var c := Content(pre);
    calc {
      Content(pre + [last + sep + x]);
    == { ContentSnoc(pre, last + sep + x); }
      c + NonWs(last + sep + x);
    == { NonWsOfSuffixed(last, sep, x); }
      c + (NonWs(last) + NonWs(x));
    == { AppendAssoc(c, NonWs(last), NonWs(x)); }
      (c + NonWs(last)) + NonWs(x);
    == { ContentSnoc(pre, last); }
      Content(pre + [last]) + NonWs(x);
    }
  }

  /** Concatenation of strings is associative. */
  lemma AppendAssoc(a: string, b: string, c: string)
    ensures a + (b + c) == a + b + c
  {
  }

  /** A blank separator between two strings adds no content. */
  lemma NonWsOfSuffixed(last: string, sep: string, x: string)
    requires NonWs(sep) == []
    ensures NonWs(last + sep + x) == NonWs(last) + NonWs(x)
  {
    NonWsAppend(last + sep, x);
    NonWsAppend(last, sep);
  }

  /** `s` with its leading whitespace removed (`str.lstrip()`). */
  function TrimLeft(s: string): (r: string)
    ensures |r| <= |s|
    ensures r == [] || !IsSpace(r[0])
  {
    if s != [] && IsSpace(s[0]) then TrimLeft(s[1..]) else s
  }

  /** `lstrip` cuts off a whitespace prefix and keeps the rest as it is. */
  lemma {:induction false} TrimLeftIsSuffix(s: string)
    ensures TrimLeft(s) == s[|s| - |TrimLeft(s)|..]
    ensures AllSpace(s[..|s| - |TrimLeft(s)|])
  {
    if s != [] && IsSpace(s[0]) {
      var r := TrimLeft(s[1..]);
      TrimLeftIsSuffix(s[1..]);
      assert s[..|s| - |r|] == [s[0]] + s[1..][..|s[1..]| - |r|];
    }
  }

  /** `s` with its trailing whitespace removed (`str.rstrip()`). */
  function TrimRight(s: string): (r: string)
    ensures |r| <= |s| && r == s[..|r|]
    ensures AllSpace(s[|r|..])
    ensures r == [] || !IsSpace(r[|r| - 1])
  {
    if s != [] && IsSpace(s[|s| - 1]) then
      var r := TrimRight(s[..|s| - 1]);
      assert s[|r|..] == s[..|s| - 1][|r|..] + [s[|s| - 1]];
      r
    else s
  }

  /** Python's `str.strip()`. */
  function Strip(s: string): string {
    TrimRight(TrimLeft(s))
  }

  /** Where `strip` starts cutting: the number of leading whitespace characters. */
  function StripStart(s: string): nat {
    |s| - |TrimLeft(s)|
  }

  /** `strip` returns a slice of its input that starts and ends with a
      non-whitespace character, after only whitespace was cut off. */
  lemma StripIsSlice(s: string)
    ensures StripStart(s) + |Strip(s)| <= |s|
    ensures Strip(s) == s[StripStart(s)..StripStart(s) + |Strip(s)|]
    ensures AllSpace(s[..StripStart(s)]) && AllSpace(s[StripStart(s) + |Strip(s)|..])
    ensures Strip(s) != [] ==> !IsSpace(Strip(s)[0]) && !IsSpace(Strip(s)[|Strip(s)| - 1])
  {
    StripSlice(s);
    StripPadding(s);
    StripEnds(s);
  }

  /** `strip` returns the slice between the cut-off prefix and suffix. */
  lemma StripSlice(s: string)
    ensures StripStart(s) + |Strip(s)| <= |s|
    ensures Strip(s) == s[StripStart(s)..StripStart(s) + |Strip(s)|]
    ensures s[StripStart(s) + |Strip(s)|..] == TrimLeft(s)[|Strip(s)|..]
  {
    TrimLeftIsSuffix(s);
    SliceOfSuffix(s, StripStart(s), Strip(s));
  }

  /** What `strip` cuts off on either side is whitespace. */
  lemma StripPadding(s: string)
    ensures StripStart(s) + |Strip(s)| <= |s|
    ensures AllSpace(s[..StripStart(s)]) && AllSpace(s[StripStart(s) + |Strip(s)|..])
  {
    TrimLeftIsSuffix(s);
    StripSlice(s);
  }

  /** `strip` returns a string that starts and ends with non-whitespace. */
  lemma StripEnds(s: string)
    ensures Strip(s) != [] ==> !IsSpace(Strip(s)[0]) && !IsSpace(Strip(s)[|Strip(s)| - 1])
  {
    if Strip(s) != [] {
      assert Strip(s)[0] == TrimLeft(s)[0];
    }
  }

  /** A prefix of a suffix is a slice, and what follows it is the same suffix. */
  lemma SliceOfSuffix(s: string, a: nat, r: string)
    requires a <= |s| && |r| <= |s| - a && r == s[a..][..|r|]
    ensures r == s[a..a + |r|] && s[a + |r|..] == s[a..][|r|..]
  {
  }

  /** Whitespace around a string adds no content. */
  lemma NonWsPadded(p: string, m: string, q: string)
    requires AllSpace(p) && AllSpace(q)
    ensures NonWs(p + m + q) == NonWs(m)
  {
    NonWsAppend(p + m, q);
    NonWsAppend(p, m);
    NonWsEmptyIffAllSpace(p);
    NonWsEmptyIffAllSpace(q);
  }

  /** `strip` never cuts a non-whitespace character. */
  lemma StripCovers(s: string, j: nat)
    requires j < |s| && !IsSpace(s[j])
    ensures StripStart(s) <= j < StripStart(s) + |Strip(s)|
  {
    StripSlice(s);
    StripPadding(s);
    var a, b := StripStart(s), StripStart(s) + |Strip(s)|;
    assert forall k :: 0 <= k < a ==> s[..a][k] == s[k];
    assert forall k :: b <= k < |s| ==> s[b..][k - b] == s[k];
  }

  /** `strip` starts cutting at the first non-whitespace character. */
  lemma StripStartsAt(s: string, p: nat)
    requires p < |s| && AllSpace(s[..p]) && !IsSpace(s[p])
    ensures StripStart(s) == p
  {
    StripCovers(s, p);
    StripSlice(s);
    StripEnds(s);
    assert forall k :: 0 <= k < p ==> s[..p][k] == s[k];
  }

  /** Cutting whitespace off both ends keeps all of the content. */
  lemma NonWsOfPaddedSlice(s: string, a: nat, r: string)
    requires a + |r| <= |s| && r == s[a..a + |r|]
    requires AllSpace(s[..a]) && AllSpace(s[a + |r|..])
    ensures NonWs(r) == NonWs(s)
  {
    assert s == s[..a] + r + s[a + |r|..];
    NonWsPadded(s[..a], r, s[a + |r|..]);
  }

  /** `strip` keeps all of the content. */
  lemma StripKeepsContent(s: string)
    ensures |Strip(s)| <= |s|
    ensures NonWs(Strip(s)) == NonWs(s)
  {
    StripSlice(s);
    StripPadding(s);
    NonWsOfPaddedSlice(s, StripStart(s), Strip(s));
  }

  /** `strip` is empty exactly when its input is whitespace only. */
  lemma StripEmptyIffBlank(s: string)
    ensures Strip(s) == [] <==> AllSpace(s)
  {
    StripKeepsContent(s);
    NonWsEmptyIffAllSpace(s);
    NonWsEmptyIffAllSpace(Strip(s));
    StripIsSlice(s);
    if Strip(s) != [] {
      assert !IsSpace(Strip(s)[0]);
    }
  }

  /** A string with no leading and no trailing whitespace. */
  predicate Stripped(s: string) {
    s == [] || (!IsSpace(s[0]) && !IsSpace(s[|s| - 1]))
  }

  /** The stripped strings are exactly those `strip` leaves unchanged, and
      `strip` always returns one (so it is idempotent). */
  lemma StrippedIffFixpoint(s: string)
    ensures Stripped(s) <==> Strip(s) == s
    ensures Stripped(Strip(s))
  {
    StripIsSlice(s);
    if Stripped(s) && s != [] {
      assert TrimLeft(s) == s;
      assert TrimRight(s) == s;
    }
  }

  /** The longest prefix of `s` without whitespace. */
  function TakeWord(s: string): (w: string)
    ensures |w| <= |s| && w == s[..|w|] && NoSpace(w)
    ensures |w| == |s| || IsSpace(s[|w|])
    ensures s != [] && !IsSpace(s[0]) ==> w != []
  {
    if s == [] || IsSpace(s[0]) then []
    else
      var w := TakeWord(s[1..]);
      assert [s[0]] + w == s[..1 + |w|];
      [s[0]] + w
  }

  /** Python's `str.split()` with no argument: the maximal runs of
      non-whitespace characters, in order. */
  function Words(s: string): seq<string>
    decreases |s|
  {
    var t := TrimLeft(s);
    if t == [] then []
    else
      var w := TakeWord(t);
      [w] + Words(t[|w|..])
  }

  /** Every word `split()` returns is non-empty and free of whitespace. */
  lemma {:induction false} WordsAreWords(s: string)
    ensures forall i :: 0 <= i < |Words(s)| ==> Words(s)[i] != [] && NoSpace(Words(s)[i])
    decreases |s|
  {
    var t := TrimLeft(s);
    if t != [] {
      var w := TakeWord(t);
      var rest := Words(t[|w|..]);
      WordsAreWords(t[|w|..]);
      assert Words(s) == [w] + rest;
      forall i | 0 <= i < |Words(s)| ensures Words(s)[i] != [] && NoSpace(Words(s)[i]) {
        if i > 0 {
          assert Words(s)[i] == rest[i - 1];
        }
      }
    } else {
      assert Words(s) == [];
    }
  }

  /** `split()` keeps every non-whitespace character, in order, and only those. */
  lemma {:induction false} WordsKeepContent(s: string)
    ensures Concat(Words(s)) == NonWs(s)
    decreases |s|
  {
    var t := TrimLeft(s);
    var a := |s| - |t|;
    TrimLeftIsSuffix(s);
    assert s == s[..a] + t;
    NonWsAppend(s[..a], t);
    NonWsEmptyIffAllSpace(s[..a]);
    if t != [] {
      var w := TakeWord(t);
      assert t == w + t[|w|..];
      WordsKeepContent(t[|w|..]);
      NonWsAppend(w, t[|w|..]);
      NonWsOfWord(w);
      assert Words(s)[1..] == Words(t[|w|..]);
    }
  }

  lemma {:induction false} NonWsOfWord(w: string)
    requires NoSpace(w)
    ensures NonWs(w) == w
  {
    if w != [] {
      NonWsOfWord(w[1..]);
      assert w == [w[0]] + w[1..];
    }
  }

  /** The first word of a string that starts with a word and a space. */
  lemma FirstWord(w: string, rest: string)
    requires w != [] && NoSpace(w)
    ensures Words(w + " " + rest) != [] && Words(w + " " + rest)[0] == w
  {
    var s := w + " " + rest;
    assert TrimLeft(s) == s;
    var v := TakeWord(s);
    assert forall k :: 0 <= k < |w| ==> s[k] == w[k];
    assert s[|w|] == ' ';
    assert |v| >= |w|;
    assert |v| <= |w|;
    assert v == w;
  }

  /** `s[i..]` starts with `pat`. */
  predicate OccursAt(s: string, pat: string, i: int) {
    0 <= i && i + |pat| <= |s| && s[i..i + |pat|] == pat
  }

  /** A slice of a slice of `s` occurs in `s` itself. */
  lemma SliceOfSlice(s: string, lo: nat, hi: nat, a: nat, r: string)
    requires lo <= hi <= |s| && a + |r| <= hi - lo && r == s[lo..hi][a..a + |r|]
    ensures OccursAt(s, r, lo + a)
  {
    forall k | 0 <= k < |r| ensures s[lo + a..lo + a + |r|][k] == r[k] {
      assert r[k] == s[lo..hi][a + k];
    }
    assert s[lo + a..lo + a + |r|] == r;
  }

  /** Python's `s.find(pat, from)`, with `None` for -1: the first index at
      or after `from` where `pat` occurs. */
  function Find(s: string, pat: string, from: nat): (r: Option<nat>)
    ensures r.Some? ==> from <= r.value && OccursAt(s, pat, r.value)
    ensures r.Some? ==> forall j :: from <= j < r.value ==> !OccursAt(s, pat, j)
    ensures r.None? ==> forall j :: from <= j ==> !OccursAt(s, pat, j)
    decreases |s| - from
  {
    if from + |pat| > |s| then None
    else if s[from..from + |pat|] == pat then Some(from)
    else Find(s, pat, from + 1)
  }

  /** Python's `pat in s` for strings. */
  predicate Contains(s: string, pat: string) {
    Find(s, pat, 0).Some?
  }

  lemma ContainsIff(s: string, pat: string, i: int)
    requires OccursAt(s, pat, i)
    ensures Contains(s, pat)
  {
  }

  /** Python's `sep.join(xs)`. */
  function Join(sep: string, xs: seq<string>): string {
    if xs == [] then []
    else if |xs| == 1 then xs[0]
    else xs[0] + sep + Join(sep, xs[1..])
  }

  lemma {:induction false} JoinSnoc(sep: string, xs: seq<string>, x: string)
    requires xs != []
    ensures Join(sep, xs + [x]) == Join(sep, xs) + sep + x
  {
    if |xs| == 1 {
      assert xs + [x] == [xs[0], x];
      assert [xs[0], x][1..] == [x];
    } else {
      assert (xs + [x])[1..] == xs[1..] + [x];
      JoinSnoc(sep, xs[1..], x);
    }
  }

  /** Extending the last piece by `sep + x` extends the joined text the same way. */
  lemma JoinExtendLast(sep: string, xs: seq<string>, x: string)
    requires xs != []
    ensures Join(sep, xs[|xs| - 1 := xs[|xs| - 1] + sep + x]) == Join(sep, xs) + sep + x
  {
    var n := |xs| - 1;
    if n == 0 {
      assert xs[n := xs[n] + sep + x] == [xs[n] + sep + x];
    } else {
      assert xs == xs[..n] + [xs[n]];
      assert xs[n := xs[n] + sep + x] == xs[..n] + [xs[n] + sep + x];
      JoinSnoc(sep, xs[..n], xs[n]);
      JoinSnoc(sep, xs[..n], xs[n] + sep + x);
    }
  }

  /** Joining with a whitespace separator adds no content. */
  lemma {:induction false} JoinContent(sep: string, xs: seq<string>)
    requires AllSpace(sep)
    ensures NonWs(Join(sep, xs)) == Content(xs)
  {
    if xs == [] {
    } else if |xs| == 1 {
      assert xs[1..] == [];
      assert Concat(xs[1..]) == [];
      assert xs[0] + [] == xs[0];
      assert Concat(xs) == xs[0];
    } else {
      JoinContent(sep, xs[1..]);
      NonWsAppend(xs[0] + sep, Join(sep, xs[1..]));
      NonWsAppend(xs[0], sep);
      NonWsAppend(xs[0], Concat(xs[1..]));
      NonWsEmptyIffAllSpace(sep);
    }
  }

  /** Python's `s.replace(c, "")`: every occurrence of `c` deleted. */
  function RemoveChar(s: string, c: char): (r: string)
    ensures c !in r && |r| <= |s|
    ensures forall x :: x != c ==> (x in r <==> x in s)
    ensures |s| == 1 ==> r == (if s[0] == c then [] else s)
    ensures IsSpace(c) ==> NonWs(r) == NonWs(s)
  {
    if s == [] then []
    else
      var head := if s[0] == c then [] else [s[0]];
      var r := head + RemoveChar(s[1..], c);
      assert s == [s[0]] + s[1..];
      NonWsAppend([s[0]], s[1..]);
      NonWsAppend(head, RemoveChar(s[1..], c));
      r
  }

  /** Removing a character keeps every other character as often as it was
      there, and drops every copy of `c`. */
  lemma {:induction false} RemoveCharCounts(s: string, c: char)
    ensures multiset(RemoveChar(s, c)) == multiset(s)[c := 0]
    decreases |s|
  {
    if s != [] {
      RemoveCharCounts(s[1..], c);
      assert s == [s[0]] + s[1..];
      assert multiset(s) == multiset([s[0]]) + multiset(s[1..]);
      var head := if s[0] == c then [] else [s[0]];
      assert RemoveChar(s, c) == head + RemoveChar(s[1..], c);
      assert multiset(RemoveChar(s, c)) == multiset(head) + multiset(RemoveChar(s[1..], c));
    }
  }

  /** Removing a character works piece by piece: together with the
      one-character case this fixes the result, so the characters that stay
      keep their order. */
  lemma {:induction false} RemoveCharAppend(a: string, b: string, c: char)
    ensures RemoveChar(a + b, c) == RemoveChar(a, c) + RemoveChar(b, c)
    decreases |a|
  {
    if a != [] {
      assert (a + b)[1..] == a[1..] + b;
      RemoveCharAppend(a[1..], b, c);
    } else {
      assert a + b == b;
    }
  }

  /** Python's `s.replace(c, d)` for single characters `c != d`. */
  function ReplaceChar(s: string, c: char, d: char): (r: string)
    requires c != d
    ensures |r| == |s| && c !in r
    ensures forall i :: 0 <= i < |s| && s[i] != c ==> r[i] == s[i]
    ensures forall i :: 0 <= i < |s| && s[i] == c ==> r[i] == d
    ensures IsSpace(c) && IsSpace(d) ==> NonWs(r) == NonWs(s)
  {
    if s == [] then []
    else
      var head := if s[0] == c then [d] else [s[0]];
      var r := head + ReplaceChar(s[1..], c, d);
      assert s == [s[0]] + s[1..];
      NonWsAppend([s[0]], s[1..]);
      NonWsAppend(head, ReplaceChar(s[1..], c, d));
      r
  }
}
