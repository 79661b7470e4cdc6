/** Splitting at delimiters: what is lost, and what WRDSF_SQUEEZE_DELIMS changes. */
module PlainSplitting {
  import opened Bytes
  import opened Splitting

  // ---- squeezing ----

  /** The word that stands for nothing between two delimiters. An empty quoted word is not one. */
  predicate IsGap(w: seq<Piece>) { |w| == 1 && w[0].kind == Plain && w[0].beg == w[0].end }

  function WithoutGaps(ws: seq<seq<Piece>>): seq<seq<Piece>> {
    if ws == [] then [] else (if IsGap(ws[0]) then [] else [ws[0]]) + WithoutGaps(ws[1..])
  }

  function Squeezed(r: Outcome<seq<seq<Piece>>>): Outcome<seq<seq<Piece>>> {
    match r
    case Fine(ws) => Fine(WithoutGaps(ws))
    case BadQuote(at) => BadQuote(at)
  }

  function Tight(c: Config): Config { c.(squeeze := true) }

  function Loose(c: Config): Config { c.(squeeze := false) }

  lemma {:induction false} PlainEndSame(c: Config, m: seq<byte>, n: nat, i: nat)
    requires i <= n <= |m|
    ensures PlainEnd(Tight(c), m, n, i) == PlainEnd(Loose(c), m, n, i)
    decreases n - i
  {
    if i + 2 <= n && c.quote && m[i] == BACKSLASH {
      PlainEndSame(c, m, n, i + 2);
    } else if i < n {
      PlainEndSame(c, m, n, i + 1);
    }
  }

  lemma {:induction false} ScanRestSame(c: Config, m: seq<byte>, n: nat, i: nat)
    requires i <= n <= |m|
    ensures ScanRest(Tight(c), m, n, i) == ScanRest(Loose(c), m, n, i)
    decreases n - i
  {
    hide PlainEnd, QuoteEnd, Config.IsDelim;
    PlainEndSame(c, m, n, i);
    var e := PlainEnd(Loose(c), m, n, i);
    if e < n && c.IsQuote(m[e]) {
      var j := QuoteEnd(m, n, m[e], e + 1);
      SameDelim(c, m[e]);
      if j < n {
        ScanRestSame(c, m, n, j + 1);
      }
    }
  }

  /** A word that does not start at a delimiter is not a gap. */
  lemma RealWord(c: Config, m: seq<byte>, n: nat, i: nat)
    requires i < n <= |m| && !c.IsDelim(m[i]) && !ScanRest(c, m, n, i).Unclosed?
    ensures ScanRest(c, m, n, i).pieces != [] && !IsGap(ScanRest(c, m, n, i).pieces)
  {
    hide ScanRest, Config.IsDelim, QuoteEnd;
    ScanRestStep(c, m, n, i);
    if PlainEnd(c, m, n, i) == i {
      assert c.IsQuote(m[i]);
    }
  }

  /** Gaps from i up to the next byte that is no delimiter come to nothing. */
  lemma {:induction false} GapsVanish(c: Config, m: seq<byte>, n: nat, i: nat)
    requires i <= n <= |m|
    ensures Squeezed(Words(Loose(c), m, n, i)) == Squeezed(Words(Loose(c), m, n, DelimEnd(Tight(c), m, n, i)))
    decreases n - i
  {
    if i < n && c.IsDelim(m[i]) {
      GapsVanish(c, m, n, i + 1);
      GapWord(c, m, n, i);
    }
  }

  lemma GapWord(c: Config, m: seq<byte>, n: nat, i: nat)
    requires i < n <= |m| && c.IsDelim(m[i])
    ensures Squeezed(Words(Loose(c), m, n, i)) == Squeezed(Words(Loose(c), m, n, i + 1))
  {
    hide ScanRest, Config.IsDelim;
    var gap := [Piece(Plain, i, i)];
    SameDelim(c, m[i]);
    assert ScanWord(Loose(c), m, n, i) == Scanned(gap, i);
    var r := Words(Loose(c), m, n, i + 1);
    if r.Fine? {
      GapFirst(gap, r.value);
      assert [] + WithoutGaps(r.value) == WithoutGaps(r.value);
    }
  }

  lemma GapFirst(w: seq<Piece>, ws: seq<seq<Piece>>)
    ensures WithoutGaps([w] + ws) == (if IsGap(w) then [] else [w]) + WithoutGaps(ws)
  {
    assert ([w] + ws)[1..] == ws;
  }

  /** For every text and every quoting: WRDSF_SQUEEZE_DELIMS yields the same words without the gaps. */
  lemma {:induction false} SqueezeDropsGaps(c: Config, m: seq<byte>, n: nat, start: nat)
    requires n <= |m|
    ensures Words(Tight(c), m, n, start) == Squeezed(Words(Loose(c), m, n, start))
    decreases n - start
  {
    hide ScanRest, Config.IsDelim, DelimEnd, IsGap, WithoutGaps;
    if start < n {
      ScanWordEnds(Tight(c), m, n, start);
      if c.IsDelim(m[start]) {
        SameDelim(c, m[start]);
        assert ScanWord(Tight(c), m, n, start) == Scanned([], start);
        var next := DelimEnd(Tight(c), m, n, start + 1);
        SqueezeDropsGaps(c, m, n, next);
        GapsVanish(c, m, n, start + 1);
        GapWord(c, m, n, start);
        Empty(Words(Tight(c), m, n, next));
      } else {
        SameDelim(c, m[start]);
        SqueezedWord(c, m, n, start);
      }
    } else {
      NoWords();
    }
  }

  lemma SameDelim(c: Config, b: byte)
    ensures Tight(c).IsDelim(b) == Loose(c).IsDelim(b) == c.IsDelim(b)
  {
  }

  lemma NoWords()
    ensures WithoutGaps([]) == []
  {
  }

  lemma Empty(r: Outcome<seq<seq<Piece>>>)
    ensures r.Fine? ==> [] + r.value == r.value
  {
  }

  lemma SqueezedWord(c: Config, m: seq<byte>, n: nat, start: nat)
    requires start < n <= |m| && !c.IsDelim(m[start])
    ensures Words(Tight(c), m, n, start) == Squeezed(Words(Loose(c), m, n, start))
    decreases n - start, 0
  {
    hide ScanRest, Config.IsDelim, DelimEnd, IsGap, WithoutGaps;
    SameDelim(c, m[start]);
    ScanRestSame(c, m, n, start);
    ScanRestEnds(Loose(c), m, n, start);
    var s := ScanRest(Loose(c), m, n, start);
    if !s.Unclosed? {
      RealWord(Loose(c), m, n, start);
      var next := SkipDelim(Tight(c), m, n, s.endp);
      SqueezeDropsGaps(c, m, n, next);
      if s.endp < n {
        GapsVanish(c, m, n, s.endp + 1);
      }
      assert Words(Tight(c), m, n, next) == Squeezed(Words(Loose(c), m, n, s.endp + 1));
      var r := Words(Loose(c), m, n, s.endp + 1);
      if r.Fine? {
        NoGapIn(s, r.value);
      }
    }
  }

  lemma NoGapIn(s: Scan, ws: seq<seq<Piece>>)
    requires !s.Unclosed? && s.pieces != [] && !IsGap(s.pieces)
    ensures WithoutGaps(s.Listed() + ws) == s.Listed() + WithoutGaps(ws)
  {
    hide IsGap, WithoutGaps;
    if s.Torn? {
      var w := [Piece(Plain, s.endp + 1, s.endp)];
      GapFirst(w, ws);
      NotGap(w);
      GapFirst(s.pieces, [w] + ws);
      assert s.Listed() + ws == [s.pieces] + ([w] + ws);
      assert s.Listed() + WithoutGaps(ws) == [s.pieces] + ([w] + WithoutGaps(ws));
    } else {
      GapFirst(s.pieces, ws);
    }
  }

  lemma NotGap(w: seq<Piece>)
    requires |w| == 1 && w[0].beg != w[0].end
    ensures !IsGap(w)
  {
  }

  // ---- without quotes ----

  function NonEmpty(texts: seq<seq<byte>>): seq<seq<byte>> {
    if texts == [] then [] else (if texts[0] == [] then [] else [texts[0]]) + NonEmpty(texts[1..])
  }

  /** Without WRDSF_QUOTE every word is one plain segment. */
  predicate Segments(ws: seq<seq<Piece>>, n: nat) {
    forall k :: 0 <= k < |ws| ==> |ws[k]| == 1 && ws[k][0].kind == Plain && Fits(ws[k][0], n)
  }

  lemma NoQuotes(c: Config, m: seq<byte>, n: nat, i: nat)
    requires i <= n <= |m| && !c.quote
    ensures var e := PlainEnd(c, m, n, i);
            ScanRest(c, m, n, i) == Scanned(if i < e then [Piece(Plain, i, e)] else [], e)
  {
  }

  lemma {:induction false} WordsAreSegments(c: Config, m: seq<byte>, n: nat, start: nat)
    requires n <= |m| && !c.quote
    ensures var r := Words(c, m, n, start); r.Fine? && Segments(r.value, n)
    decreases n - start
  {
    hide PlainEnd, ScanRest, Config.IsDelim;
    if start < n {
      ScanWordEnds(c, m, n, start);
      NoQuotes(c, m, n, start);
      WordsAreSegments(c, m, n, SkipDelim(c, m, n, ScanWord(c, m, n, start).endp));
    }
  }

  lemma SegmentText(c: Config, m: seq<byte>, p: Piece)
    requires !c.quote && Fits(p, |m|)
    ensures WordText(c, m, [p]) == m[p.beg..p.end]
  {
  }

  lemma TextsFirst(c: Config, m: seq<byte>, w: seq<Piece>, ws: seq<seq<Piece>>)
    requires w != [] && AllFit(w, |m|) && WordsFit(ws, |m|)
    ensures WordsFit([w] + ws, |m|) && Texts(c, m, [w] + ws) == [WordText(c, m, w)] + Texts(c, m, ws)
  {
    hide WordText;
  }

  lemma NonEmptyFirst(t: seq<byte>, texts: seq<seq<byte>>)
    ensures NonEmpty([t] + texts) == (if t == [] then [] else [t]) + NonEmpty(texts)
  {
    assert ([t] + texts)[1..] == texts;
  }

  lemma {:induction false} TextsWithoutGaps(c: Config, m: seq<byte>, ws: seq<seq<Piece>>)
    requires !c.quote && Segments(ws, |m|)
    ensures Segments(WithoutGaps(ws), |m|)
    ensures Texts(Tight(c), m, WithoutGaps(ws)) == NonEmpty(Texts(Loose(c), m, ws))
    decreases |ws|
  {
    hide Config.IsDelim, WordText, Texts, NonEmpty;
    if ws == [] {
      NoTexts(c, m);
    } else {
      assert ws[0] == [ws[0][0]] && ws == [[ws[0][0]]] + ws[1..];
      TextsWithoutGaps(c, m, ws[1..]);
      FirstText(c, m, ws[0][0], ws[1..], WithoutGaps(ws[1..]));
    }
  }

  /** The text of a first segment, which is dropped if it is empty. */
  lemma FirstText(c: Config, m: seq<byte>, p: Piece, ws: seq<seq<Piece>>, rest: seq<seq<Piece>>)
    requires !c.quote && p.kind == Plain && Fits(p, |m|) && Segments(ws, |m|) && Segments(rest, |m|)
    requires Texts(Tight(c), m, rest) == NonEmpty(Texts(Loose(c), m, ws))
    ensures var kept := (if IsGap([p]) then [] else [[p]]) + rest;
            Segments(kept, |m|) && Texts(Tight(c), m, kept) == NonEmpty(Texts(Loose(c), m, [[p]] + ws))
  {
    hide Config.IsDelim, WordText, Texts, NonEmpty;
    SegmentText(Loose(c), m, p);
    SegmentText(Tight(c), m, p);
    TextsFirst(Loose(c), m, [p], ws);
    TextsFirst(Tight(c), m, [p], rest);
    NonEmptyFirst(m[p.beg..p.end], Texts(Loose(c), m, ws));
    assert [] + rest == rest;
    assert [] + NonEmpty(Texts(Loose(c), m, ws)) == NonEmpty(Texts(Loose(c), m, ws));
  }

  lemma NoTexts(c: Config, m: seq<byte>)
    ensures Texts(Tight(c), m, []) == NonEmpty(Texts(Loose(c), m, [])) == []
  {
  }

  /** WRDSF_SQUEEZE_DELIMS yields exactly the non-empty words, in the same order. */
  lemma SqueezeKeepsNonEmpty(c: Config, m: seq<byte>, n: nat)
    requires n <= |m| && !c.quote
    ensures ScansSafely(Loose(c), m, n) && ScansSafely(Tight(c), m, n)
    ensures Split(Loose(c), m, n).Fine?
    ensures Split(Tight(c), m, n) == Fine(NonEmpty(Split(Loose(c), m, n).value))
  {
    hide Words, Texts, NonEmpty, WithoutGaps;
    WellFormedText(Loose(c), m, n, 0);
    WellFormedText(Tight(c), m, n, 0);
    WordsAreSegments(Loose(c), m, n, 0);
    SqueezeDropsGaps(c, m, n, 0);
    TextsWithoutGaps(c, m, Words(Loose(c), m, n, 0).value);
  }

  /** The bytes of ws_delim, and the NUL that ends it: strchr finds that, too. */
  function Delims(c: Config): seq<byte> { c.delim + [NUL] }

  predicate NoneOf(t: seq<byte>, ds: seq<byte>) { forall i :: 0 <= i < |t| ==> t[i] !in ds }

  /** Words and delimiters in turn, beginning with a word. */
  function Woven(ts: seq<seq<byte>>, ss: seq<byte>): seq<byte> {
    if ts == [] then []
    else if ss == [] then ts[0]
    else ts[0] + [ss[0]] + Woven(ts[1..], ss[1..])
  }

  /**
   * The text s is the words ts with the delimiters ss between them: each word is free of delimiters,
   * and a last word that no delimiter follows is not empty.
   */
  predicate Fields(s: seq<byte>, ds: seq<byte>, ts: seq<seq<byte>>, ss: seq<byte>) {
    && (|ts| == |ss| || (|ts| == |ss| + 1 && ts[|ss|] != []))
    && (forall k :: 0 <= k < |ts| ==> NoneOf(ts[k], ds))
    && (forall k :: 0 <= k < |ss| ==> ss[k] in ds)
    && Woven(ts, ss) == s
  }

  /** The first word of a text ends at its first delimiter. */
  lemma FirstField(s: seq<byte>, ds: seq<byte>, ts: seq<seq<byte>>, ss: seq<byte>)
    requires Fields(s, ds, ts, ss) && ts != []
    ensures |ts[0]| <= |s| && ts[0] == s[..|ts[0]|] && NoneOf(s[..|ts[0]|], ds)
    ensures ss == [] ==> |ts[0]| == |s| && |ts| == 1
    ensures ss != [] ==>
              var k := |ts[0]|;
              k < |s| && s[k] == ss[0] && s[k] in ds && Fields(s[k + 1..], ds, ts[1..], ss[1..])
  {
    if ss != [] {
      assert s[|ts[0]| + 1..] == Woven(ts[1..], ss[1..]);
    }
  }

  /** There is only one way to see a text as words and delimiters. */
  lemma {:induction false} FieldsAreUnique(s: seq<byte>, ds: seq<byte>, ts: seq<seq<byte>>, ss: seq<byte>,
                                           ts': seq<seq<byte>>, ss': seq<byte>)
    requires Fields(s, ds, ts, ss) && Fields(s, ds, ts', ss')
    ensures ts == ts' && ss == ss'
    decreases |ts|
  {
    if ts == [] || ts' == [] {
      assert s == [];
      NothingToCut(ds, ts, ss);
      NothingToCut(ds, ts', ss');
    } else {
      FirstField(s, ds, ts, ss);
      FirstField(s, ds, ts', ss');
      hide Fields, Woven, NoneOf;
      SameCut(s, ds, |ts[0]|, |ts'[0]|);
      if ss != [] {
        FieldsAreUnique(s[|ts[0]| + 1..], ds, ts[1..], ss[1..], ts'[1..], ss'[1..]);
        assert ts == [ts[0]] + ts[1..] && ts' == [ts'[0]] + ts'[1..];
        assert ss == [ss[0]] + ss[1..] && ss' == [ss'[0]] + ss'[1..];
      }
    }
  }

  lemma NothingToCut(ds: seq<byte>, ts: seq<seq<byte>>, ss: seq<byte>)
    requires Fields([], ds, ts, ss)
    ensures ts == [] && ss == []
  {
    if ts != [] {
      FirstField([], ds, ts, ss);
    }
  }

  lemma SameCut(s: seq<byte>, ds: seq<byte>, j: nat, k: nat)
    requires j <= |s| && k <= |s| && NoneOf(s[..j], ds) && NoneOf(s[..k], ds)
    requires (j < |s| ==> s[j] in ds) && (k < |s| ==> s[k] in ds)
    ensures j == k
  {
    NoneBefore(s, ds, j);
    NoneBefore(s, ds, k);
  }

  lemma NoneBefore(s: seq<byte>, ds: seq<byte>, k: nat)
    requires k <= |s| && NoneOf(s[..k], ds)
    ensures forall i :: 0 <= i < k ==> s[i] !in ds
  {
    assert forall i :: 0 <= i < k ==> s[..k][i] == s[i];
  }

  lemma {:induction false} PlainEndFree(c: Config, m: seq<byte>, n: nat, i: nat)
    requires i <= n <= |m| && !c.quote
    ensures var e := PlainEnd(c, m, n, i);
            (forall k :: i <= k < e ==> m[k] !in Delims(c)) && (e < n ==> m[e] in Delims(c))
    decreases n - i
  {
    if i < n && !c.IsDelim(m[i]) {
      PlainEndFree(c, m, n, i + 1);
    }
  }

  /** The first word without quotes and without squeezing. */
  lemma WordStep(c: Config, m: seq<byte>, n: nat, start: nat)
    requires start < n <= |m| && !c.quote && !c.squeeze
    ensures var e := PlainEnd(c, m, n, start);
            var r := Words(c, m, n, e + 1);
            r.Fine? ==> Words(c, m, n, start) == Fine([[Piece(Plain, start, e)]] + r.value)
  {
    hide ScanRest;
    NoQuotes(c, m, n, start);
  }

  /** What is known of the words from start on. */
  predicate CutAt(c: Config, m: seq<byte>, n: nat, start: nat, ss: seq<byte>)
    requires start <= n <= |m|
  {
    var r := Words(c, m, n, start);
    r.Fine? && Segments(r.value, |m|) && Fields(m[start..n], Delims(c), Texts(c, m, r.value), ss)
  }

  lemma NoFields(ds: seq<byte>)
    ensures Fields([], ds, [], [])
  {
  }

  /** A word of plain text in front of what is cut already. */
  lemma FieldMore(s: seq<byte>, ds: seq<byte>, e: nat, ts: seq<seq<byte>>, ss: seq<byte>)
    requires e <= |s| && NoneOf(s[..e], ds)
    ensures e == |s| && s != [] ==> Fields(s, ds, [s], [])
    ensures e < |s| && s[e] in ds && Fields(s[e + 1..], ds, ts, ss) ==> Fields(s, ds, [s[..e]] + ts, [s[e]] + ss)
  {
    assert s[..|s|] == s;
    if e < |s| {
      var ts', ss' := [s[..e]] + ts, [s[e]] + ss;
      assert ts'[1..] == ts && ss'[1..] == ss;
      assert s == s[..e] + [s[e]] + s[e + 1..];
    }
  }

  lemma {:induction false} WordsCut(c: Config, m: seq<byte>, n: nat, start: nat) returns (ss: seq<byte>)
    requires start <= n <= |m| && !c.quote && !c.squeeze
    ensures CutAt(c, m, n, start, ss)
    decreases n - start
  {
    hide PlainEnd, CutAt;
    ss := [];
    if start == n {
      NothingLeft(c, m, n);
    } else if PlainEnd(c, m, n, start) == n {
      LastWord(c, m, n, start);
    } else {
      ss := WordsCut(c, m, n, PlainEnd(c, m, n, start) + 1);
      OneWordMore(c, m, n, start, ss);
      ss := [m[PlainEnd(c, m, n, start)]] + ss;
    }
  }

  lemma NothingLeft(c: Config, m: seq<byte>, n: nat)
    requires n <= |m|
    ensures CutAt(c, m, n, n, [])
  {
    NoFields(Delims(c));
    assert m[n..n] == [];
  }

  lemma LastWord(c: Config, m: seq<byte>, n: nat, start: nat)
    requires start < n <= |m| && !c.quote && !c.squeeze && PlainEnd(c, m, n, start) == n
    ensures CutAt(c, m, n, start, [])
  {
    hide PlainEnd, WordText, Texts, Fields, Delims, Words;
    PlainEndFree(c, m, n, start);
    WordStep(c, m, n, start);
    PastTheEnd(c, m, n);
    CutHere(m, start, n, n, Delims(c));
    var w := [Piece(Plain, start, n)];
    SegmentText(c, m, w[0]);
    TextsFirst(c, m, w, []);
    TextsOfNone(c, m);
    FieldMore(m[start..n], Delims(c), n - start, [], []);
    assert [w] + [] == [w] && [m[start..n]] + [] == [m[start..n]];
  }

  lemma OneWordMore(c: Config, m: seq<byte>, n: nat, start: nat, ss: seq<byte>)
    requires start < n <= |m| && !c.quote && !c.squeeze && PlainEnd(c, m, n, start) < n
    requires CutAt(c, m, n, PlainEnd(c, m, n, start) + 1, ss)
    ensures CutAt(c, m, n, start, [m[PlainEnd(c, m, n, start)]] + ss)
  {
    hide PlainEnd, WordText, Texts, Fields, Delims, Words;
    var e := PlainEnd(c, m, n, start);
    PlainEndFree(c, m, n, start);
    WordStep(c, m, n, start);
    CutHere(m, start, e, n, Delims(c));
    var w, ws := [Piece(Plain, start, e)], Words(c, m, n, e + 1).value;
    SegmentText(c, m, w[0]);
    TextsFirst(c, m, w, ws);
    FieldMore(m[start..n], Delims(c), e - start, Texts(c, m, ws), ss);
  }

  lemma PastTheEnd(c: Config, m: seq<byte>, n: nat)
    requires n <= |m|
    ensures Words(c, m, n, n + 1) == Fine([])
  {
  }

  lemma TextsOfNone(c: Config, m: seq<byte>)
    ensures Texts(c, m, []) == []
  {
  }

  lemma CutHere(m: seq<byte>, start: nat, e: nat, n: nat, ds: seq<byte>)
    requires start <= e <= n <= |m| && forall k :: start <= k < e ==> m[k] !in ds
    ensures m[start..n][..e - start] == m[start..e] && NoneOf(m[start..e], ds)
    ensures e < n ==> m[start..n][e - start] == m[e] && m[start..n][e - start + 1..] == m[e + 1..n]
  {
  }

  /**
   * Without quoting and squeezing, for every text and every ws_delim: no word holds a delimiter (or
   * NUL), the words with the delimiters of the text between them are the text, and there is no other
   * way to see the text as such words and delimiters.
   */
  lemma PlainSplit(c: Config, m: seq<byte>, n: nat, other: seq<seq<byte>>, seps': seq<byte>) returns (seps: seq<byte>)
    requires n <= |m| && !c.quote && !c.squeeze
    ensures ScansSafely(c, m, n) && Split(c, m, n).Fine?
    ensures Fields(m[..n], c.delim + [NUL], Split(c, m, n).value, seps)
    ensures Fields(m[..n], c.delim + [NUL], other, seps') ==> other == Split(c, m, n).value && seps' == seps
  {
    hide Words, Texts, Fields;
    WellFormedText(c, m, n, 0);
    seps := WordsCut(c, m, n, 0);
    assert m[0..n] == m[..n];
    if Fields(m[..n], c.delim + [NUL], other, seps') {
      FieldsAreUnique(m[..n], c.delim + [NUL], other, seps', Split(c, m, n).value, seps);
    }
  }
}
