/** lib/wordsplit.c: what words a text has. The node list that computes them is in WordSplit. */
module Splitting {
  import opened Bytes
  import opened Quoting

  /** The flags that matter here, and ws_delim. WRDSF_NOVAR and WRDSF_NOCMD are set. */
  datatype Config = Config(quote: bool, squeeze: bool, cescapes: bool, delim: seq<byte>) {
    /** ISDELIM: strchr also finds the NUL that ends ws_delim. */
    predicate IsDelim(b: byte) { b == NUL || b in delim }

    predicate IsQuote(b: byte) { quote && (b == SQUOTE || b == DQUOTE) }

    predicate WellFormed() { quote ==> SQUOTE !in delim && DQUOTE !in delim }
  }

  /** WRDSF_DEFFLAGS with the default delimiters. */
  const DEFFLAGS: Config := Config(true, true, true, [SPACE, TAB, NL])

  datatype Kind = Plain | Double | Single

  /** A segment of the text, without its quotes. */
  datatype Piece = Piece(kind: Kind, beg: nat, end: nat)

  /**
   * The pieces of one word and the index where it ends, or the index of an unclosed quote. A word is
   * torn when it closes a quote that is also a delimiter: it ends at that quote.
   */
  datatype Scan = Scanned(pieces: seq<Piece>, endp: nat) | Torn(pieces: seq<Piece>, endp: nat) | Unclosed(at: nat) {
    function After(ps: seq<Piece>): Scan {
      match this
      case Scanned(rest, endp) => Scanned(ps + rest, endp)
      case Torn(rest, endp) => Torn(ps + rest, endp)
      case Unclosed(_) => this
    }

    /** What it adds to the words: a torn word is followed by a segment that ends before it begins. */
    function Listed(): seq<seq<Piece>> {
      match this
      case Scanned(ps, _) => if ps == [] then [] else [ps]
      case Torn(ps, endp) => [ps, [Piece(Plain, endp + 1, endp)]]
      case Unclosed(_) => []
    }
  }

  // Throughout, m is the memory the text lies in and n the length of the text.

  /** Where plain text that has reached i stops: at a quote, at a delimiter or at the end. */
  function PlainEnd(c: Config, m: seq<byte>, n: nat, i: nat): (e: nat)
    requires i <= n <= |m|
    ensures i <= e <= n
    decreases n - i
  {
    if i == n then n
    else if c.quote && m[i] == BACKSLASH then (if i + 1 == n then n else PlainEnd(c, m, n, i + 2))
    else if c.IsQuote(m[i]) || c.IsDelim(m[i]) then i
    else PlainEnd(c, m, n, i + 1)
  }

  lemma {:induction false} PlainEndStops(c: Config, m: seq<byte>, n: nat, i: nat)
    requires i <= n <= |m|
    ensures var e := PlainEnd(c, m, n, i);
            PlainEnd(c, m, n, e) == e && (e < n ==> c.IsQuote(m[e]) || c.IsDelim(m[e]))
    decreases n - i
  {
    if i < n && c.quote && m[i] == BACKSLASH {
      if i + 1 < n {
        PlainEndStops(c, m, n, i + 2);
      }
    } else if i < n && !c.IsQuote(m[i]) && !c.IsDelim(m[i]) {
      PlainEndStops(c, m, n, i + 1);
    }
  }

  /** The closing quote q at or after j, or n. In double quotes a backslash hides the next byte. */
  function QuoteEnd(m: seq<byte>, n: nat, q: byte, j: nat): (e: nat)
    requires n <= |m|
    ensures e <= n && (j <= n ==> j <= e) && (e < n ==> m[e] == q)
    decreases n - j
  {
    if j >= n then n
    else if m[j] == q then j
    else if q == DQUOTE && m[j] == BACKSLASH then QuoteEnd(m, n, q, j + 2)
    else QuoteEnd(m, n, q, j + 1)
  }

  function KindOf(q: byte): Kind { if q == SQUOTE then Single else Double }

  /** The rest of a word, from i on, where plain text is read. */
  function ScanRest(c: Config, m: seq<byte>, n: nat, i: nat): Scan
    requires i <= n <= |m|
    decreases n - i
  {
    var e := PlainEnd(c, m, n, i);
    var head := if i < e then [Piece(Plain, i, e)] else [];
    if e < n && c.IsQuote(m[e]) then
      var j := QuoteEnd(m, n, m[e], e + 1);
      var quoted := [Piece(KindOf(m[e]), e + 1, j)];
      if j == n then Unclosed(e)
      else if c.IsDelim(m[e]) then Torn(head + quoted, j)
      else ScanRest(c, m, n, j + 1).After(head + quoted)
    else Scanned(head, e)
  }

  /** scan_word */
  function ScanWord(c: Config, m: seq<byte>, n: nat, start: nat): Scan
    requires start < n <= |m|
  {
    if c.IsDelim(m[start]) then Scanned(if c.squeeze then [] else [Piece(Plain, start, start)], start)
    else ScanRest(c, m, n, start)
  }

  /** The first index at or after i that holds no delimiter, or n. */
  function DelimEnd(c: Config, m: seq<byte>, n: nat, i: nat): (e: nat)
    requires i <= n <= |m|
    ensures i <= e <= n
    decreases n - i
  {
    if i < n && c.IsDelim(m[i]) then DelimEnd(c, m, n, i + 1) else i
  }

  /** skip_delim */
  function SkipDelim(c: Config, m: seq<byte>, n: nat, endp: nat): (start: nat)
    requires endp <= n <= |m|
    ensures endp < start
  {
    if c.squeeze && endp < n then DelimEnd(c, m, n, endp + 1) else endp + 1
  }

  lemma {:induction false} ScanRestEnds(c: Config, m: seq<byte>, n: nat, i: nat)
    requires i <= n <= |m|
    ensures !ScanRest(c, m, n, i).Unclosed? ==> i <= ScanRest(c, m, n, i).endp <= n
    decreases n - i
  {
    var e := PlainEnd(c, m, n, i);
    if e < n && c.IsQuote(m[e]) {
      var j := QuoteEnd(m, n, m[e], e + 1);
      if j < n {
        ScanRestEnds(c, m, n, j + 1);
      }
    }
  }

  lemma ScanWordEnds(c: Config, m: seq<byte>, n: nat, start: nat)
    requires start < n <= |m|
    ensures !ScanWord(c, m, n, start).Unclosed? ==> start <= ScanWord(c, m, n, start).endp <= n
  {
    ScanRestEnds(c, m, n, start);
  }

  datatype Outcome<T> = Fine(value: T) | BadQuote(at: nat)

  /** The words of the text from start on, as lists of pieces, or the index of an unclosed quote. */
  function Words(c: Config, m: seq<byte>, n: nat, start: nat): Outcome<seq<seq<Piece>>>
    requires n <= |m|
    decreases n - start
  {
    if start >= n then Fine([])
    else
      ScanWordEnds(c, m, n, start);
      var s := ScanWord(c, m, n, start);
      if s.Unclosed? then BadQuote(s.at)
      else
        match Words(c, m, n, SkipDelim(c, m, n, s.endp))
        case BadQuote(at) => BadQuote(at)
        case Fine(ws) => Fine(s.Listed() + ws)
  }

  /** The words ws and then the outcome of the rest of the text. */
  function Prefixed(ws: seq<seq<Piece>>, r: Outcome<seq<seq<Piece>>>): Outcome<seq<seq<Piece>>> {
    match r
    case Fine(rest) => Fine(ws + rest)
    case BadQuote(_) => r
  }

  lemma PrefixedByNone(r: Outcome<seq<seq<Piece>>>)
    ensures Prefixed([], r) == r
  {
    if r.Fine? {
      assert [] + r.value == r.value;
    }
  }

  /** No word that is scanned from start on closes a quote that is also a delimiter. */
  predicate SafeText(c: Config, m: seq<byte>, n: nat, start: nat)
    requires n <= |m|
    decreases n - start
  {
    start < n ==>
      (ScanWordEnds(c, m, n, start);
       var s := ScanWord(c, m, n, start);
       !s.Torn? && (s.Scanned? ==> SafeText(c, m, n, SkipDelim(c, m, n, s.endp))))
  }

  /** A scan that ends without an unclosed quote has not torn a word. */
  predicate ScansSafely(c: Config, m: seq<byte>, n: nat)
    requires n <= |m|
  {
    Words(c, m, n, 0).Fine? ==> SafeText(c, m, n, 0)
  }

  lemma {:induction false} WellFormedRest(c: Config, m: seq<byte>, n: nat, i: nat)
    requires i <= n <= |m| && c.WellFormed()
    ensures !ScanRest(c, m, n, i).Torn?
    decreases n - i
  {
    hide PlainEnd, QuoteEnd;
    var e := PlainEnd(c, m, n, i);
    if e < n && c.IsQuote(m[e]) && QuoteEnd(m, n, m[e], e + 1) < n {
      WellFormedRest(c, m, n, QuoteEnd(m, n, m[e], e + 1) + 1);
    }
  }

  /** Every text is safe when no quote is a delimiter. */
  lemma {:induction false} WellFormedText(c: Config, m: seq<byte>, n: nat, start: nat)
    requires n <= |m| && c.WellFormed()
    ensures SafeText(c, m, n, start)
    decreases n - start
  {
    hide ScanRest, SkipDelim, Config.IsDelim;
    if start < n {
      WellFormedRest(c, m, n, start);
      ScanWordEnds(c, m, n, start);
      if ScanWord(c, m, n, start).Scanned? {
        WellFormedText(c, m, n, SkipDelim(c, m, n, ScanWord(c, m, n, start).endp));
      }
    }
  }

  // ---- what a word says ----

  /** The unquoted text, before it is cut at its first NUL. */
  function RawText(c: Config, m: seq<byte>, beg: nat, end: nat): seq<byte>
    requires end <= |m|
  {
    if c.cescapes then CUnquote(m, beg, end) else ShUnquote(m, beg, end)
  }

  function Unquoted(c: Config, m: seq<byte>, beg: nat, end: nat): seq<byte>
    requires end <= |m|
  {
    CString(RawText(c, m, beg, end))
  }

  predicate Fits(p: Piece, n: nat) { p.beg <= p.end <= n }

  function PieceText(c: Config, m: seq<byte>, p: Piece): seq<byte>
    requires Fits(p, |m|)
  {
    if c.quote && p.kind != Single then Unquoted(c, m, p.beg, p.end) else m[p.beg..p.end]
  }

  predicate AllFit(w: seq<Piece>, n: nat) { forall i :: 0 <= i < |w| ==> Fits(w[i], n) }

  /** The texts of the pieces, one after the other. */
  function Joined(c: Config, m: seq<byte>, w: seq<Piece>): seq<byte>
    requires AllFit(w, |m|)
  {
    if w == [] then [] else PieceText(c, m, w[0]) + Joined(c, m, w[1..])
  }

  /** A lone piece is copied with its length, joined pieces become a C string. */
  function WordText(c: Config, m: seq<byte>, w: seq<Piece>): seq<byte>
    requires AllFit(w, |m|)
  {
    if |w| == 1 then PieceText(c, m, w[0]) else CString(Joined(c, m, w))
  }

  /** t is s, or s up to its first NUL. */
  predicate CutAtNul(t: seq<byte>, s: seq<byte>) { Free(t, NUL) && t <= s && (t == s || s[|t|] == NUL) }

  /**
   * What has been unquoted or joined becomes a C string and ends at its first NUL; a lone piece that
   * is not unquoted is copied whole, with any NUL in it.
   */
  lemma NulEndsText(c: Config, m: seq<byte>, w: seq<Piece>)
    requires AllFit(w, |m|)
    ensures |w| != 1 ==> CutAtNul(WordText(c, m, w), Joined(c, m, w))
    ensures |w| == 1 && c.quote && w[0].kind != Single ==>
              CutAtNul(WordText(c, m, w), RawText(c, m, w[0].beg, w[0].end))
    ensures |w| == 1 && (!c.quote || w[0].kind == Single) ==> WordText(c, m, w) == m[w[0].beg..w[0].end]
    ensures c.quote ==> forall i :: 0 <= i < |w| && w[i].kind != Single ==>
                          CutAtNul(PieceText(c, m, w[i]), RawText(c, m, w[i].beg, w[i].end))
  {
    hide RawText, Joined;
  }

  predicate WordsFit(ws: seq<seq<Piece>>, n: nat) {
    forall i :: 0 <= i < |ws| ==> ws[i] != [] && AllFit(ws[i], n)
  }

  function Texts(c: Config, m: seq<byte>, ws: seq<seq<Piece>>): (r: seq<seq<byte>>)
    requires WordsFit(ws, |m|)
    ensures |r| == |ws| && forall i :: 0 <= i < |ws| ==> r[i] == WordText(c, m, ws[i])
  {
    seq(|ws|, i requires 0 <= i < |ws| => WordText(c, m, ws[i]))
  }

  // ---- segments are ordered ----

  /** Disjoint segments between lo and hi, in order. */
  predicate InOrder(ps: seq<Piece>, lo: nat, hi: nat) {
    && (forall i :: 0 <= i < |ps| ==> lo <= ps[i].beg <= ps[i].end <= hi)
    && (forall i, j :: 0 <= i < j < |ps| ==> ps[i].end <= ps[j].beg)
  }

  lemma InOrderAppend(a: seq<Piece>, b: seq<Piece>, lo: nat, mid: nat, mid': nat, hi: nat)
    requires InOrder(a, lo, mid) && InOrder(b, mid', hi) && lo <= mid <= mid' <= hi
    ensures InOrder(a + b, lo, hi)
  {
  }

  lemma {:induction false} ScanRestInOrder(c: Config, m: seq<byte>, n: nat, i: nat)
    requires i <= n <= |m|
    ensures var r := ScanRest(c, m, n, i);
            !r.Unclosed? ==> r.endp <= n && (r.Torn? ==> r.pieces != []) && InOrder(r.pieces, i, r.endp)
    decreases n - i
  {
    hide PlainEnd, QuoteEnd, InOrder, Config.IsDelim, KindOf;
    var e := PlainEnd(c, m, n, i);
    HeadInOrder(i, e);
    if e < n && c.IsQuote(m[e]) {
      var j := QuoteEnd(m, n, m[e], e + 1);
      QuotedInOrder(i, e, KindOf(m[e]), j);
      if j < n && !c.IsDelim(m[e]) {
        ScanRestInOrder(c, m, n, j + 1);
        ScanRestEnds(c, m, n, j + 1);
        var r := ScanRest(c, m, n, j + 1);
        if !r.Unclosed? {
          var head := if i < e then [Piece(Plain, i, e)] else [];
          InOrderAppend(head + [Piece(KindOf(m[e]), e + 1, j)], r.pieces, i, j, j + 1, r.endp);
        }
      }
    }
  }

  lemma HeadInOrder(i: nat, e: nat)
    requires i <= e
    ensures InOrder(if i < e then [Piece(Plain, i, e)] else [], i, e)
  {
  }

  lemma QuotedInOrder(i: nat, e: nat, kind: Kind, j: nat)
    requires i <= e < j
    ensures InOrder((if i < e then [Piece(Plain, i, e)] else []) + [Piece(kind, e + 1, j)], i, j)
  {
  }

  function Flat(ws: seq<seq<Piece>>): seq<Piece> {
    if ws == [] then [] else ws[0] + Flat(ws[1..])
  }

  lemma OneWordFirst(ps: seq<Piece>, ws: seq<seq<Piece>>, start: nat, endp: nat, next: nat, n: nat)
    requires InOrder(ps, start, endp) && start <= endp < next && endp <= n && WordsFit(ws, n)
    requires if next <= n then InOrder(Flat(ws), next, n) else ws == []
    ensures var all := (if ps == [] then [] else [ps]) + ws; WordsFit(all, n) && InOrder(Flat(all), start, n)
  {
    hide InOrder, Flat;
    assert [] + ws == ws && ps + [] == ps && [] + Flat(ws) == Flat(ws);
    FlatFirst(ps, ws);
    InOrderWider(ps, start, endp, n);
    if next <= n {
      InOrderAppend(ps, Flat(ws), start, endp, next, n);
    } else {
      FlatNone();
    }
  }

  lemma InOrderWider(ps: seq<Piece>, lo: nat, hi: nat, hi': nat)
    requires InOrder(ps, lo, hi) && hi <= hi'
    ensures InOrder(ps, lo, hi')
  {
  }

  lemma FlatFirst(w: seq<Piece>, ws: seq<seq<Piece>>)
    ensures Flat([w] + ws) == w + Flat(ws)
  {
    assert ([w] + ws)[1..] == ws;
  }

  lemma FlatNone()
    ensures Flat([]) == []
  {
  }

  /** In a safe text the segments of all words lie in order, and no word is without one. */
  lemma {:induction false} WordsInOrder(c: Config, m: seq<byte>, n: nat, start: nat)
    requires n <= |m| && SafeText(c, m, n, start)
    ensures var r := Words(c, m, n, start);
            r.Fine? ==> WordsFit(r.value, n) && (start <= n ==> InOrder(Flat(r.value), start, n))
    decreases n - start
  {
    hide ScanWord, WordsFit, InOrder, Flat, SkipDelim;
    if start < n {
      ScanWordEnds(c, m, n, start);
      ScanWordInOrder(c, m, n, start);
      var s := ScanWord(c, m, n, start);
      if s.Scanned? {
        var next := SkipDelim(c, m, n, s.endp);
        WordsInOrder(c, m, n, next);
        var r := Words(c, m, n, next);
        if r.Fine? {
          OneWordFirst(s.pieces, r.value, start, s.endp, next, n);
        }
      }
    } else {
      NoWordsInOrder(start, n);
    }
  }

  /** The segment added behind a torn word. */
  predicate Reversed(w: seq<Piece>) { |w| == 1 && w[0].beg == w[0].end + 1 }

  predicate AnyReversed(ws: seq<seq<Piece>>) { exists k :: 0 <= k < |ws| && Reversed(ws[k]) }

  /** A scan that does not fail has a segment that ends before it begins exactly when the text is not safe. */
  lemma {:induction false} SafeExactly(c: Config, m: seq<byte>, n: nat, start: nat)
    requires n <= |m| && Words(c, m, n, start).Fine?
    ensures !SafeText(c, m, n, start) <==> AnyReversed(Words(c, m, n, start).value)
    ensures SafeText(c, m, n, start) <==> WordsFit(Words(c, m, n, start).value, n)
    decreases n - start
  {
    hide ScanWord, SkipDelim, WordsFit, AnyReversed;
    if SafeText(c, m, n, start) {
      WordsInOrder(c, m, n, start);
    } else {
      ScanWordEnds(c, m, n, start);
      var s := ScanWord(c, m, n, start);
      var next := SkipDelim(c, m, n, s.endp);
      SafeExactly(c, m, n, next);
      OneReversed(s, Words(c, m, n, next).value);
    }
    ReversedDoesNotFit(Words(c, m, n, start).value, n);
  }

  lemma OneReversed(s: Scan, ws: seq<seq<Piece>>)
    requires s.Torn? || AnyReversed(ws)
    ensures AnyReversed(s.Listed() + ws)
  {
    var l, all := s.Listed(), s.Listed() + ws;
    if s.Torn? {
      assert Reversed(all[1]);
    } else {
      var k :| 0 <= k < |ws| && Reversed(ws[k]);
      assert Reversed(all[|l| + k]);
    }
  }

  lemma ReversedDoesNotFit(ws: seq<seq<Piece>>, n: nat)
    ensures AnyReversed(ws) ==> !WordsFit(ws, n)
  {
    if AnyReversed(ws) {
      var k :| 0 <= k < |ws| && Reversed(ws[k]);
      assert !Fits(ws[k][0], n);
    }
  }

  /** With the double quote a delimiter, the text of one letter and two quotes ends in the segment (3, 2). */
  lemma TornExample(c: Config, m: seq<byte>)
    requires c == Config(true, true, true, [DQUOTE]) && m == [97, DQUOTE, DQUOTE]
    ensures Words(c, m, 3, 0) == Fine([[Piece(Plain, 0, 1), Piece(Double, 2, 2)], [Piece(Plain, 3, 2)]])
    ensures !SafeText(c, m, 3, 0)
  {
    assert PlainEnd(c, m, 3, 1) == 1 && PlainEnd(c, m, 3, 0) == 1;
    assert QuoteEnd(m, 3, DQUOTE, 2) == 2;
    var s := ScanWord(c, m, 3, 0);
    assert s == Torn([Piece(Plain, 0, 1), Piece(Double, 2, 2)], 2);
    assert DelimEnd(c, m, 3, 3) == 3;
    assert SkipDelim(c, m, 3, 2) == 3 && Words(c, m, 3, 3) == Fine([]);
    assert s.Listed() + [] == s.Listed();
  }

  lemma NoWordsInOrder(lo: nat, hi: nat)
    ensures WordsFit([], hi) && InOrder(Flat([]), lo, hi)
  {
  }

  lemma ScanWordInOrder(c: Config, m: seq<byte>, n: nat, start: nat)
    requires start < n <= |m|
    ensures var s := ScanWord(c, m, n, start);
            !s.Unclosed? ==> InOrder(s.pieces, start, s.endp) && (s.Torn? ==> s.pieces != [])
  {
    ScanRestInOrder(c, m, n, start);
  }

  /** What wordsplit_len makes of the text: the words, or the index of an unclosed quote. */
  function Split(c: Config, m: seq<byte>, n: nat): Outcome<seq<seq<byte>>>
    requires n <= |m| && ScansSafely(c, m, n)
  {
    match Words(c, m, n, 0)
    case Fine(ws) =>
      WordsInOrder(c, m, n, 0);
      Fine(Texts(c, m, ws))
    case BadQuote(at) => BadQuote(at)
  }

  // ---- the steps of a scan ----

  /** The quoted part of a scan that has reached e. */
  function ScanQuote(c: Config, m: seq<byte>, n: nat, e: nat): Scan
    requires e <= n <= |m|
  {
    if e < n && c.IsQuote(m[e]) then
      var j := QuoteEnd(m, n, m[e], e + 1);
      var quoted := [Piece(KindOf(m[e]), e + 1, j)];
      if j == n then Unclosed(e)
      else if c.IsDelim(m[e]) then Torn(quoted, j)
      else ScanRest(c, m, n, j + 1).After(quoted)
    else Scanned([], e)
  }

  lemma ScanRestStep(c: Config, m: seq<byte>, n: nat, i: nat)
    requires i <= n <= |m|
    ensures var e := PlainEnd(c, m, n, i);
            ScanRest(c, m, n, i) == ScanQuote(c, m, n, e).After(if i < e then [Piece(Plain, i, e)] else [])
  {
    hide PlainEnd, QuoteEnd, Config.IsDelim, KindOf;
    var e := PlainEnd(c, m, n, i);
    var head := if i < e then [Piece(Plain, i, e)] else [];
    if e < n && c.IsQuote(m[e]) {
      var j := QuoteEnd(m, n, m[e], e + 1);
      if j < n {
        AfterAfter(ScanRest(c, m, n, j + 1), head, [Piece(KindOf(m[e]), e + 1, j)]);
      }
    } else {
      assert head + [] == head;
    }
  }

  lemma ScanPlainText(c: Config, m: seq<byte>, n: nat, i: nat)
    requires i <= n <= |m|
    ensures var e := PlainEnd(c, m, n, i);
            ScanRest(c, m, n, i) == ScanRest(c, m, n, e).After(if i < e then [Piece(Plain, i, e)] else [])
  {
    hide PlainEnd, ScanRest, ScanQuote;
    PlainEndStops(c, m, n, i);
    ScanRestStep(c, m, n, i);
    var e := PlainEnd(c, m, n, i);
    ScanRestStep(c, m, n, e);
    AfterNothing(ScanQuote(c, m, n, e));
  }

  lemma AfterNothing(s: Scan)
    ensures s.After([]) == s
  {
    if !s.Unclosed? {
      assert [] + s.pieces == s.pieces;
    }
  }

  lemma AfterAfter(s: Scan, a: seq<Piece>, b: seq<Piece>)
    ensures s.After(b).After(a) == s.After(a + b)
  {
    if !s.Unclosed? {
      Assoc(a, b, s.pieces);
    }
  }

  lemma ScanQuoted(c: Config, m: seq<byte>, n: nat, i: nat)
    requires i < n <= |m| && c.IsQuote(m[i])
    ensures var j := QuoteEnd(m, n, m[i], i + 1);
            var quoted := [Piece(KindOf(m[i]), i + 1, j)];
            ScanRest(c, m, n, i) == if j == n then Unclosed(i)
                                    else if c.IsDelim(m[i]) then Torn(quoted, j)
                                    else ScanRest(c, m, n, j + 1).After(quoted)
  {
    hide QuoteEnd, ScanRest;
    ScanRestStep(c, m, n, i);
    assert PlainEnd(c, m, n, i) == i;
    AfterNothing(ScanQuote(c, m, n, i));
  }

  lemma ScanStops(c: Config, m: seq<byte>, n: nat, i: nat)
    requires i <= n <= |m| && PlainEnd(c, m, n, i) == i && (i < n ==> !c.IsQuote(m[i]))
    ensures ScanRest(c, m, n, i) == Scanned([], i)
  {
  }

  // ---- room for the unquoted text ----

  /** Read in pairs, the text from i to n does not end in the middle of one. */
  predicate Paired(m: seq<byte>, i: nat, n: nat)
    requires n <= |m|
    decreases if i < n then n - i else 0
  {
    if i >= n then i == n else Paired(m, if m[i] == BACKSLASH then i + 2 else i + 1, n)
  }

  lemma {:induction false} PlainEndPaired(c: Config, m: seq<byte>, n: nat, i: nat)
    requires i <= n <= |m| && c.quote
    ensures var e := PlainEnd(c, m, n, i); e < n ==> Paired(m, i, e)
    decreases n - i
  {
    if i + 1 < n && m[i] == BACKSLASH {
      PlainEndPaired(c, m, n, i + 2);
    } else if i < n && m[i] != BACKSLASH && !c.IsQuote(m[i]) && !c.IsDelim(m[i]) {
      PlainEndPaired(c, m, n, i + 1);
    }
  }

  lemma {:induction false} QuoteEndPaired(m: seq<byte>, n: nat, j: nat)
    requires n <= |m|
    ensures var e := QuoteEnd(m, n, DQUOTE, j); e < n ==> Paired(m, j, e)
    decreases n - j
  {
    if j < n && m[j] != DQUOTE {
      QuoteEndPaired(m, n, if m[j] == BACKSLASH then j + 2 else j + 1);
    }
  }

  /** A segment of a quoting configuration ends between two pairs, unless it ends with the text. */
  predicate Sound(m: seq<byte>, n: nat, p: Piece)
    requires n <= |m|
  {
    Fits(p, n) && (p.kind == Single || p.end == n || Paired(m, p.beg, p.end))
  }

  predicate AllSound(m: seq<byte>, n: nat, w: seq<Piece>)
    requires n <= |m|
  {
    forall i :: 0 <= i < |w| ==> Sound(m, n, w[i])
  }

  lemma {:induction false} ScanRestSound(c: Config, m: seq<byte>, n: nat, i: nat)
    requires i <= n <= |m| && c.quote
    ensures var r := ScanRest(c, m, n, i); !r.Unclosed? ==> AllSound(m, n, r.pieces)
    decreases n - i
  {
    hide PlainEnd, QuoteEnd, Paired, Config.IsDelim;
    PlainEndPaired(c, m, n, i);
    var e := PlainEnd(c, m, n, i);
    if e < n && c.IsQuote(m[e]) {
      var j := QuoteEnd(m, n, m[e], e + 1);
      QuoteEndPaired(m, n, e + 1);
      if j < n {
        ScanRestSound(c, m, n, j + 1);
      }
    }
  }

  /** Every segment of every word of a safe text is sound. */
  lemma {:induction false} WordsSound(c: Config, m: seq<byte>, n: nat, start: nat)
    requires n <= |m| && c.quote && SafeText(c, m, n, start)
    ensures var r := Words(c, m, n, start); r.Fine? ==> forall k :: 0 <= k < |r.value| ==> AllSound(m, n, r.value[k])
    decreases n - start
  {
    hide ScanRest, Config.IsDelim, DelimEnd;
    if start < n {
      ScanWordEnds(c, m, n, start);
      ScanRestSound(c, m, n, start);
      var s := ScanWord(c, m, n, start);
      if s.Scanned? {
        GapSound(m, n, start);
        WordsSound(c, m, n, SkipDelim(c, m, n, s.endp));
      }
    }
  }

  lemma GapSound(m: seq<byte>, n: nat, i: nat)
    requires i <= n <= |m|
    ensures Sound(m, n, Piece(Plain, i, i))
  {
  }

  /** Digits taken by an escape do not disturb the pairs. */
  lemma {:induction false} NumberPaired(m: seq<byte>, i: nat, n: nat, base: nat, cnt: nat, val: int)
    requires i <= n <= |m| && Paired(m, i, n) && base <= 16
    ensures var next := i + Number(m, i, base, cnt, val).1; next <= n ==> Paired(m, next, n)
    decreases cnt
  {
    if cnt > 0 && IsNum(Peek(m, i), base) && i < n {
      NumberPaired(m, i + 1, n, base, cnt - 1, val * base + ToNum(Peek(m, i)));
    }
  }

  lemma EscapePaired(m: seq<byte>, i: nat, n: nat)
    requires i < n <= |m| && m[i] == BACKSLASH && Paired(m, i, n)
    ensures i + 2 <= n
    ensures var r := CEscape(m, i + 1, n);
            |r.out| <= 2 && (r.next <= n ==> Paired(m, r.next, n) && |r.out| <= r.next - i)
    ensures var r := CEscape(m, i + 1, n); r.next > n ==> |r.out| == 1
  {
    hide Number, UnquoteChar;
    assert Paired(m, i + 2, n);
    assert i + 2 <= n;
    NumberPaired(m, i + 2, n, 16, 2, 0);
    if IsDigit(m[i + 1]) {
      NumberPaired(m, i + 1, n, 8, 3, 0);
    }
  }

  /** A text that ends between two pairs shrinks, whatever follows it in memory. */
  lemma {:induction false} PairedFits(m: seq<byte>, i: nat, n: nat)
    requires i <= n <= |m| && Paired(m, i, n)
    ensures |CUnquote(m, i, n)| <= n - i
    decreases n - i
  {
    hide CEscape;
    if i < n {
      if m[i] != BACKSLASH {
        PairedFits(m, i + 1, n);
      } else {
        EscapePaired(m, i, n);
        var r := CEscape(m, i + 1, n);
        if r.next <= n {
          PairedFits(m, r.next, n);
        }
      }
    }
  }

  /** A segment that ends with the text, is full and goes on in the byte behind the text. */
  predicate Overflows(c: Config, m: seq<byte>, n: nat, p: Piece)
    requires n <= |m|
  {
    c.cescapes && p.kind != Single && p.end == n && Full(m, p.beg, n) && Extends(Peek(m, n))
  }

  /** Quote removal of a scanned segment needs more bytes than the segment has exactly when it overflows. */
  lemma SoundFits(c: Config, m: seq<byte>, n: nat, p: Piece)
    requires n <= |m| && Sound(m, n, p) && p.kind != Single
    ensures |RawText(c, m, p.beg, p.end)| > p.end - p.beg <==> Overflows(c, m, n, p)
  {
    hide CUnquote, ShUnquote, Paired, Extends, Full;
    if !c.cescapes {
      ShUnquoteFits(m, p.beg, p.end);
    } else if p.end == n {
      CUnquoteFits(m, p.beg, n);
    } else {
      PairedFits(m, p.beg, p.end);
    }
  }
}
