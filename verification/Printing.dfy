/** Printing words so that wordsplit_len reads the same words back. */
module Printing {
  import opened Bytes
  import opened Quoting
  import opened Splitting

  /** How a byte is written: as it is, or as a backslash and a letter. */
  datatype Mark = AsIs | Escape(letter: byte)

  function ShowMarked(t: seq<byte>, marks: seq<Mark>): seq<byte>
    requires |t| == |marks|
  {
    if t == [] then []
    else (if marks[0].AsIs? then [t[0]] else [BACKSLASH, marks[0].letter]) + ShowMarked(t[1..], marks[1..])
  }

  /** What escapes may stand for: that of the C letter, or in a shell-like text that of any byte itself. */
  predicate Stand(c: Config, t: seq<byte>, marks: seq<Mark>) {
    && |t| == |marks|
    && forall k :: 0 <= k < |t| && marks[k].Escape? ==>
         var e := marks[k].letter;
         c.quote && if c.cescapes then Stands(e, t[k]) || (t[k] == e && NoLetter(e) && !Extends(e)) else t[k] == e
  }

  /** The bytes that are written as they are are none that plain text ends with. */
  predicate PlainAsIs(c: Config, t: seq<byte>, marks: seq<Mark>) {
    && |t| == |marks|
    && forall k :: 0 <= k < |t| && marks[k].AsIs? ==>
         t[k] !in c.delim && !(c.quote && (t[k] == SQUOTE || t[k] == DQUOTE || t[k] == BACKSLASH))
  }

  /** They are none that end double quotes or begin an escape. */
  predicate QuotedAsIs(t: seq<byte>, marks: seq<Mark>) {
    |t| == |marks| && forall k :: 0 <= k < |t| && marks[k].AsIs? ==> t[k] != DQUOTE && t[k] != BACKSLASH
  }

  /**
   * One way of writing part of a word: bare, in double quotes, as wordsplit_c_quote_copy does in
   * double quotes, or in single quotes.
   */
  datatype Chunk =
    | Bare(text: seq<byte>, marks: seq<Mark>)
    | InDouble(text: seq<byte>, marks: seq<Mark>)
    | Quoted(text: seq<byte>)
    | InSingle(text: seq<byte>)
  {
    function Show(): seq<byte> {
      match this
      case Bare(t, marks) => if |t| == |marks| then ShowMarked(t, marks) else []
      case InDouble(t, marks) => [DQUOTE] + (if |t| == |marks| then ShowMarked(t, marks) else []) + [DQUOTE]
      case Quoted(t) => [DQUOTE] + CQuote(t, false) + [DQUOTE]
      case InSingle(t) => [SQUOTE] + t + [SQUOTE]
    }

    /** The text can be written this way. */
    predicate Fit(c: Config) {
      && Free(text, NUL)
      && match this
         case Bare(t, marks) =>
           && t != [] && Stand(c, t, marks) && PlainAsIs(c, t, marks)
           && (marks[0].Escape? ==> BACKSLASH !in c.delim)
         case InDouble(t, marks) => c.quote && Stand(c, t, marks) && QuotedAsIs(t, marks)
         case Quoted(t) => c.quote && c.cescapes
         case InSingle(t) => c.quote && Free(t, SQUOTE)
    }
  }

  /** A word as it is written: its chunks, where bare text never touches bare text. */
  predicate Writable(c: Config, w: seq<Chunk>) {
    && (forall k :: 0 <= k < |w| ==> w[k].Fit(c))
    && (forall k :: 0 < k < |w| ==> !w[k - 1].Bare? || !w[k].Bare?)
  }

  function ShowWord(w: seq<Chunk>): seq<byte> { if w == [] then [] else w[0].Show() + ShowWord(w[1..]) }

  function Said(w: seq<Chunk>): seq<byte> { if w == [] then [] else w[0].text + Said(w[1..]) }

  /** A gap behind every word, or behind every word but the last. */
  predicate Alternate(ws: seq<seq<Chunk>>, gaps: seq<seq<byte>>) {
    |gaps| == |ws| || |gaps| + 1 == |ws|
  }

  /** The words written one after the other, with their gaps. */
  function ShowWords(ws: seq<seq<Chunk>>, gaps: seq<seq<byte>>): seq<byte>
    requires Alternate(ws, gaps)
  {
    if ws == [] then []
    else if gaps == [] then ShowWord(ws[0])
    else ShowWord(ws[0]) + gaps[0] + ShowWords(ws[1..], gaps[1..])
  }

  /** m holds t from at on. */
  predicate Holds(m: seq<byte>, at: nat, t: seq<byte>) { at + |t| <= |m| && m[at..at + |t|] == t }

  lemma HoldsParts(m: seq<byte>, at: nat, a: seq<byte>, b: seq<byte>)
    requires Holds(m, at, a + b)
    ensures Holds(m, at, a) && Holds(m, at + |a|, b)
  {
    assert m[at..at + |a + b|][..|a|] == a;
    assert m[at..at + |a + b|][|a|..] == b;
  }

  lemma HoldsBounds(m: seq<byte>, at: nat, t: seq<byte>)
    requires Holds(m, at, t)
    ensures at + |t| <= |m|
  {
  }

  lemma HoldsByte(m: seq<byte>, at: nat, t: seq<byte>, k: nat)
    requires Holds(m, at, t) && k < |t|
    ensures m[at + k] == t[k]
  {
    assert m[at..at + |t|][k] == t[k];
  }

  // ---- reading double quotes ----

  lemma ReadOn(m: seq<byte>, n: nat, j: nat)
    requires j < n <= |m| && m[j] != DQUOTE && m[j] != BACKSLASH
    ensures QuoteEnd(m, n, DQUOTE, j) == QuoteEnd(m, n, DQUOTE, j + 1)
  {
  }

  lemma ReadPair(m: seq<byte>, n: nat, j: nat)
    requires j < n <= |m| && m[j] == BACKSLASH
    ensures QuoteEnd(m, n, DQUOTE, j) == QuoteEnd(m, n, DQUOTE, j + 2)
  {
  }

  lemma QuotedByteRead(m: seq<byte>, n: nat, j: nat, b: byte)
    requires Holds(m, j, QuoteByte(b, false)) && j + |QuoteByte(b, false)| <= n <= |m|
    ensures QuoteEnd(m, n, DQUOTE, j) == QuoteEnd(m, n, DQUOTE, j + |QuoteByte(b, false)|)
  {
    hide QuoteEnd, QuoteChar, Holds;
    var q := QuoteByte(b, false);
    HoldsByte(m, j, q, 0);
    if Verbatim(b) {
      ReadOn(m, n, j);
    } else {
      ReadPair(m, n, j);
      if b != DQUOTE && QuoteChar(b) == None {
        HoldsByte(m, j, q, 2);
        HoldsByte(m, j, q, 3);
        ReadOn(m, n, j + 2);
        ReadOn(m, n, j + 3);
      }
    }
  }

  /** A quoted text does not close the quotes it stands in. */
  lemma {:induction false} QuotedTextRead(m: seq<byte>, n: nat, j: nat, t: seq<byte>)
    requires Holds(m, j, CQuote(t, false) + [DQUOTE]) && j + |CQuote(t, false)| < n <= |m|
    ensures QuoteEnd(m, n, DQUOTE, j) == j + |CQuote(t, false)|
    decreases |t|
  {
    hide QuoteByte;
    if t == [] {
      HoldsByte(m, j, [] + [DQUOTE], 0);
    } else {
      var q, rest := QuoteByte(t[0], false), CQuote(t[1..], false);
      Assoc(q, rest, [DQUOTE]);
      HoldsParts(m, j, q, rest + [DQUOTE]);
      QuotedByteRead(m, n, j, t[0]);
      QuotedTextRead(m, n, j + |q|, t[1..]);
    }
  }

  lemma {:induction false} SingleRead(m: seq<byte>, n: nat, j: nat, t: seq<byte>)
    requires Holds(m, j, t + [SQUOTE]) && Free(t, SQUOTE) && j + |t| < n <= |m|
    ensures QuoteEnd(m, n, SQUOTE, j) == j + |t|
    decreases |t|
  {
    HoldsByte(m, j, t + [SQUOTE], 0);
    if t != [] {
      assert t + [SQUOTE] == [t[0]] + (t[1..] + [SQUOTE]);
      HoldsParts(m, j, [t[0]], t[1..] + [SQUOTE]);
      SingleRead(m, n, j + 1, t[1..]);
    }
  }

  /** Marked text does not close the double quotes it stands in. */
  lemma {:induction false} MarkedRead(m: seq<byte>, n: nat, j: nat, t: seq<byte>, marks: seq<Mark>)
    requires QuotedAsIs(t, marks) && Holds(m, j, ShowMarked(t, marks)) && j + |ShowMarked(t, marks)| <= n <= |m|
    ensures QuoteEnd(m, n, DQUOTE, j) == QuoteEnd(m, n, DQUOTE, j + |ShowMarked(t, marks)|)
    decreases |t|
  {
    hide Holds, QuoteEnd;
    if t != [] {
      var q := if marks[0].AsIs? then [t[0]] else [BACKSLASH, marks[0].letter];
      HoldsParts(m, j, q, ShowMarked(t[1..], marks[1..]));
      HoldsByte(m, j, q, 0);
      if marks[0].AsIs? {
        ReadOn(m, n, j);
      } else {
        ReadPair(m, n, j);
      }
      MarkedRead(m, n, j + |q|, t[1..], marks[1..]);
    }
  }

  /** Plain text goes on to the byte behind its last one if that is one that it ends with. */
  lemma {:induction false} BareRead(c: Config, m: seq<byte>, n: nat, j: nat, t: seq<byte>, marks: seq<Mark>)
    requires |t| == |marks| && Holds(m, j, ShowMarked(t, marks))
    requires forall k :: 0 <= k < |t| ==> if marks[k].AsIs? then Ordinary(c, t[k]) else c.quote
    requires Stop(c, m, n, j + |ShowMarked(t, marks)|)
    ensures PlainEnd(c, m, n, j) == j + |ShowMarked(t, marks)|
    decreases |t|
  {
    hide Holds, Config.IsDelim, Config.IsQuote;
    if t != [] {
      var q := if marks[0].AsIs? then [t[0]] else [BACKSLASH, marks[0].letter];
      HoldsParts(m, j, q, ShowMarked(t[1..], marks[1..]));
      HoldsByte(m, j, q, 0);
      BareRead(c, m, n, j + |q|, t[1..], marks[1..]);
    }
  }

  /** A byte that plain text can have as it is. */
  predicate Ordinary(c: Config, b: byte) { !c.IsDelim(b) && !c.IsQuote(b) && !(c.quote && b == BACKSLASH) }

  /** Where plain text ends: at the end of the text, a quote or a delimiter. */
  predicate Stop(c: Config, m: seq<byte>, n: nat, i: nat) {
    i <= n <= |m| && (i < n ==> (c.IsDelim(m[i]) || c.IsQuote(m[i])) && !(c.quote && m[i] == BACKSLASH))
  }

  // ---- the texts of pieces ----

  lemma {:induction false} AllAsIs(t: seq<byte>, marks: seq<Mark>)
    requires |t| == |marks| && forall k :: 0 <= k < |t| ==> marks[k].AsIs?
    ensures ShowMarked(t, marks) == t
  {
    if t != [] {
      AllAsIs(t[1..], marks[1..]);
    }
  }

  /** Escapes are read as what they stand for. */
  lemma {:induction false} MarkedText(c: Config, m: seq<byte>, i: nat, t: seq<byte>, marks: seq<Mark>)
    requires Stand(c, t, marks) && Holds(m, i, ShowMarked(t, marks))
    requires forall k :: 0 <= k < |t| && marks[k].AsIs? ==> t[k] != BACKSLASH
    ensures RawText(c, m, i, i + |ShowMarked(t, marks)|) == t
    decreases |t|
  {
    hide CUnquote, ShUnquote, Holds;
    HoldsBounds(m, i, ShowMarked(t, marks));
    if t == [] {
      Ended(m, i, i);
    } else {
      var q, rest := if marks[0].AsIs? then [t[0]] else [BACKSLASH, marks[0].letter], ShowMarked(t[1..], marks[1..]);
      var n := i + |q| + |rest|;
      HoldsParts(m, i, q, rest);
      HoldsByte(m, i, q, 0);
      if marks[0].Escape? {
        HoldsByte(m, i, q, 1);
      }
      FirstUnquoted(c, m, i, n, t[0], marks[0]);
      MarkedText(c, m, i + |q|, t[1..], marks[1..]);
      assert t == [t[0]] + t[1..];
    }
  }

  lemma FirstUnquoted(c: Config, m: seq<byte>, i: nat, n: nat, b: byte, mark: Mark)
    requires Stand(c, [b], [mark]) && i + (if mark.AsIs? then 1 else 2) <= n <= |m|
    requires if mark.AsIs? then m[i] == b != BACKSLASH else m[i] == BACKSLASH && m[i + 1] == mark.letter
    ensures RawText(c, m, i, n) == [b] + RawText(c, m, i + if mark.AsIs? then 1 else 2, n)
  {
    hide CUnquote, ShUnquote, UnquoteChar, Number;
    assert [b][0] == b && [mark][0] == mark;
    ShUnquoteStep(m, i, n);
    if mark.AsIs? {
      PlainByte(m, i, n);
    } else if c.cescapes {
      EscapeLetters(mark.letter, b);
      assert !Extends(mark.letter);
      PairOfBytes(m, i, n);
    }
  }

  lemma BareText(c: Config, m: seq<byte>, i: nat, t: seq<byte>, marks: seq<Mark>)
    requires Bare(t, marks).Fit(c) && Holds(m, i, ShowMarked(t, marks))
    ensures Fits(Piece(Plain, i, i + |ShowMarked(t, marks)|), |m|)
    ensures PieceText(c, m, Piece(Plain, i, i + |ShowMarked(t, marks)|)) == t
  {
    hide Config.IsDelim, Config.IsQuote, RawText;
    if c.quote {
      MarkedText(c, m, i, t, marks);
      CStringOfText(t);
    } else {
      AllAsIs(t, marks);
    }
  }

  lemma InDoubleText(c: Config, m: seq<byte>, i: nat, t: seq<byte>, marks: seq<Mark>)
    requires InDouble(t, marks).Fit(c) && Holds(m, i, ShowMarked(t, marks))
    ensures Fits(Piece(Double, i, i + |ShowMarked(t, marks)|), |m|)
    ensures PieceText(c, m, Piece(Double, i, i + |ShowMarked(t, marks)|)) == t
  {
    hide Config.IsDelim, Config.IsQuote, RawText;
    MarkedText(c, m, i, t, marks);
    CStringOfText(t);
  }

  lemma QuotedText(c: Config, m: seq<byte>, i: nat, t: seq<byte>)
    requires Holds(m, i, CQuote(t, false)) && Quoted(t).Fit(c)
    ensures Fits(Piece(Double, i, i + |CQuote(t, false)|), |m|)
    ensures PieceText(c, m, Piece(Double, i, i + |CQuote(t, false)|)) == t
  {
    hide CQuote, CUnquote, CString, Config.IsDelim, Config.IsQuote;
    QuoteRoundTrip(m, i, t);
    CStringOfText(t);
  }

  /** The piece that the scanner makes of a chunk written at i. */
  function PieceAt(ch: Chunk, i: nat): Piece {
    match ch
    case Bare(_, _) => Piece(Plain, i, i + |ch.Show()|)
    case InDouble(_, _) => Piece(Double, i + 1, i + |ch.Show()| - 1)
    case Quoted(t) => Piece(Double, i + 1, i + 1 + |CQuote(t, false)|)
    case InSingle(t) => Piece(Single, i + 1, i + 1 + |t|)
  }

  function PiecesAt(w: seq<Chunk>, i: nat): (r: seq<Piece>)
    ensures |r| == |w|
    decreases |w|
  {
    if w == [] then [] else [PieceAt(w[0], i)] + PiecesAt(w[1..], i + |w[0].Show()|)
  }

  lemma PieceAtSays(c: Config, m: seq<byte>, i: nat, ch: Chunk)
    requires Holds(m, i, ch.Show()) && ch.Fit(c)
    ensures Fits(PieceAt(ch, i), |m|) && PieceText(c, m, PieceAt(ch, i)) == ch.text
  {
    hide PieceText, Chunk.Fit, Chunk.Show, Holds, PieceAt, Fits;
    match ch
    case Bare(_, _) => BareSays(c, m, i, ch);
    case InDouble(_, _) => InDoubleSays(c, m, i, ch);
    case Quoted(_) => QuotedSays(c, m, i, ch);
    case InSingle(_) => InSingleSays(c, m, i, ch);
  }

  lemma BareSays(c: Config, m: seq<byte>, i: nat, ch: Chunk)
    requires Holds(m, i, ch.Show()) && ch.Fit(c) && ch.Bare?
    ensures Fits(PieceAt(ch, i), |m|) && PieceText(c, m, PieceAt(ch, i)) == ch.text
  {
    hide PieceText, Holds, ShowMarked, PlainAsIs;
    BareText(c, m, i, ch.text, ch.marks);
  }

  lemma InDoubleSays(c: Config, m: seq<byte>, i: nat, ch: Chunk)
    requires Holds(m, i, ch.Show()) && ch.Fit(c) && ch.InDouble?
    ensures Fits(PieceAt(ch, i), |m|) && PieceText(c, m, PieceAt(ch, i)) == ch.text
  {
    hide PieceText, Holds, ShowMarked;
    var q := ShowMarked(ch.text, ch.marks);
    HoldsInside(m, i, q, DQUOTE);
    InDoubleText(c, m, i + 1, ch.text, ch.marks);
    assert i + |ch.Show()| - 1 == i + 1 + |q|;
  }

  lemma QuotedSays(c: Config, m: seq<byte>, i: nat, ch: Chunk)
    requires Holds(m, i, ch.Show()) && ch.Fit(c) && ch.Quoted?
    ensures Fits(PieceAt(ch, i), |m|) && PieceText(c, m, PieceAt(ch, i)) == ch.text
  {
    hide PieceText, Holds, CQuote;
    HoldsInside(m, i, CQuote(ch.text, false), DQUOTE);
    QuotedText(c, m, i + 1, ch.text);
  }

  lemma InSingleSays(c: Config, m: seq<byte>, i: nat, ch: Chunk)
    requires Holds(m, i, ch.Show()) && ch.Fit(c) && ch.InSingle?
    ensures Fits(PieceAt(ch, i), |m|) && PieceText(c, m, PieceAt(ch, i)) == ch.text
  {
    hide PieceText, Holds;
    HoldsInside(m, i, ch.text, SQUOTE);
    SingleText(c, m, i + 1, ch.text);
  }

  lemma HoldsInside(m: seq<byte>, i: nat, t: seq<byte>, q: byte)
    requires Holds(m, i, [q] + t + [q])
    ensures Holds(m, i + 1, t) && Holds(m, i + 1, t + [q])
    ensures i + 1 + |t| < |m| && m[i] == q && m[i + 1 + |t|] == q
  {
    Assoc([q], t, [q]);
    HoldsParts(m, i, [q], t + [q]);
    HoldsParts(m, i + 1, t, [q]);
    HoldsByte(m, i, [q], 0);
    HoldsByte(m, i + 1 + |t|, [q], 0);
  }

  lemma SingleText(c: Config, m: seq<byte>, i: nat, t: seq<byte>)
    requires Holds(m, i, t)
    ensures Fits(Piece(Single, i, i + |t|), |m|)
    ensures PieceText(c, m, Piece(Single, i, i + |t|)) == t
  {
  }

  // ---- reading what was written ----

  lemma FirstByte(c: Config, w: seq<Chunk>)
    requires w != [] && w[0].Fit(c) && c.WellFormed()
    ensures ShowWord(w) != [] && !c.IsDelim(ShowWord(w)[0])
    ensures !w[0].Bare? ==> c.IsQuote(ShowWord(w)[0])
  {
    hide Stand, QuotedAsIs, CQuote;
    assert w[0].Show() != [] && w[0].Show()[0] == ShowWord(w)[0];
  }

  /** What may follow a word: the end of the text or a delimiter. */
  predicate WordEnd(c: Config, m: seq<byte>, n: nat, i: nat) {
    i <= n <= |m| && (i < n ==> c.IsDelim(m[i]) && !(c.quote && m[i] == BACKSLASH))
  }

  /** The scanner finds the chunks, and goes on behind them. */
  lemma {:induction false} ScanChunks(c: Config, m: seq<byte>, n: nat, at: nat, w: seq<Chunk>)
    requires c.WellFormed() && Writable(c, w) && Holds(m, at, ShowWord(w)) && Stop(c, m, n, at + |ShowWord(w)|)
    ensures ScanRest(c, m, n, at) == ScanRest(c, m, n, at + |ShowWord(w)|).After(PiecesAt(w, at))
    decreases |w|
  {
    hide ScanRest, PlainEnd, QuoteEnd, Chunk.Fit, Chunk.Show, Config.IsDelim, Config.IsQuote, Holds, PieceAt;
    hide Scan.After;
    HoldsBounds(m, at, ShowWord(w));
    if w == [] {
      AfterNothing(ScanRest(c, m, n, at));
    } else {
      var next, endp := at + |w[0].Show()|, at + |ShowWord(w)|;
      HoldsParts(m, at, w[0].Show(), ShowWord(w[1..]));
      ScanChunks(c, m, n, next, w[1..]);
      AfterAfter(ScanRest(c, m, n, endp), [PieceAt(w[0], at)], PiecesAt(w[1..], next));
      if w[0].Bare? {
        BareThen(c, m, n, at, w);
      } else {
        QuotedThen(c, m, n, at, w[0]);
      }
    }
  }

  lemma ScanWritten(c: Config, m: seq<byte>, n: nat, at: nat, w: seq<Chunk>)
    requires c.WellFormed() && Writable(c, w) && Holds(m, at, ShowWord(w)) && WordEnd(c, m, n, at + |ShowWord(w)|)
    ensures ScanRest(c, m, n, at) == Scanned(PiecesAt(w, at), at + |ShowWord(w)|)
  {
    hide ScanRest, ShowWord, Holds, Writable, Config.IsDelim, Config.IsQuote, PiecesAt;
    ScanChunks(c, m, n, at, w);
    NothingToRead(c, m, n, at + |ShowWord(w)|);
    assert PiecesAt(w, at) + [] == PiecesAt(w, at);
  }

  lemma NothingToRead(c: Config, m: seq<byte>, n: nat, at: nat)
    requires c.WellFormed() && WordEnd(c, m, n, at)
    ensures ScanRest(c, m, n, at) == Scanned([], at)
  {
    assert PlainEnd(c, m, n, at) == at;
    ScanStops(c, m, n, at);
  }

  lemma BareThen(c: Config, m: seq<byte>, n: nat, at: nat, w: seq<Chunk>)
    requires c.WellFormed() && Writable(c, w) && Holds(m, at, ShowWord(w)) && Stop(c, m, n, at + |ShowWord(w)|)
    requires w != [] && w[0].Bare?
    ensures ScanRest(c, m, n, at) == ScanRest(c, m, n, at + |w[0].Show()|).After([PieceAt(w[0], at)])
  {
    hide ScanRest, PlainEnd, Holds, CQuote, Config.IsDelim, ShowMarked;
    var t, marks, rest := w[0].text, w[0].marks, w[1..];
    HoldsBounds(m, at, ShowWord(w));
    HoldsParts(m, at, w[0].Show(), ShowWord(rest));
    if rest != [] {
      FirstByte(c, rest);
      HoldsByte(m, at + |w[0].Show()|, ShowWord(rest), 0);
      assert rest[0] == w[1];
    }
    BareIsPlain(c, t, marks);
    BareRead(c, m, n, at, t, marks);
    BareShown(t, marks);
    ScanPlainText(c, m, n, at);
  }

  lemma BareShown(t: seq<byte>, marks: seq<Mark>)
    requires |t| == |marks| && t != []
    ensures ShowMarked(t, marks) != []
  {
  }

  lemma BareIsPlain(c: Config, t: seq<byte>, marks: seq<Mark>)
    requires Bare(t, marks).Fit(c)
    ensures |t| == |marks| && forall k :: 0 <= k < |t| ==> if marks[k].AsIs? then Ordinary(c, t[k]) else c.quote
  {
  }

  lemma QuotedThen(c: Config, m: seq<byte>, n: nat, at: nat, ch: Chunk)
    requires c.WellFormed() && ch.Fit(c) && !ch.Bare? && Holds(m, at, ch.Show()) && at + |ch.Show()| <= n <= |m|
    ensures ScanRest(c, m, n, at) == ScanRest(c, m, n, at + |ch.Show()|).After([PieceAt(ch, at)])
  {
    hide ScanRest, QuoteEnd, Holds, Chunk.Fit, Chunk.Show, Config.WellFormed, Scan.After, KindOf, PieceAt;
    ScanQuotedHere(c, m, n, at, ch);
    QuotedEnds(c, m, n, at, ch);
    PieceOfQuoted(ch, at);
  }

  lemma PieceOfQuoted(ch: Chunk, at: nat)
    requires !ch.Bare?
    ensures |ch.Show()| >= 2
    ensures PieceAt(ch, at) == Piece(KindOf(if ch.InSingle? then SQUOTE else DQUOTE), at + 1, at + |ch.Show()| - 1)
  {
    hide CQuote, ShowMarked;
  }

  /** The quotes of a chunk end with its last byte. */
  lemma QuotedEnds(c: Config, m: seq<byte>, n: nat, at: nat, ch: Chunk)
    requires ch.Fit(c) && !ch.Bare? && Holds(m, at, ch.Show()) && at + |ch.Show()| <= n <= |m|
    ensures 2 <= |ch.Show()|
    ensures QuoteEnd(m, n, if ch.InSingle? then SQUOTE else DQUOTE, at + 1) == at + |ch.Show()| - 1
  {
    hide QuoteEnd, CQuote, Holds, ShowMarked, Stand;
    if ch.Quoted? {
      HoldsInside(m, at, CQuote(ch.text, false), DQUOTE);
      QuotedTextRead(m, n, at + 1, ch.text);
    } else if ch.InDouble? {
      HoldsInside(m, at, ShowMarked(ch.text, ch.marks), DQUOTE);
      InDoubleRead(m, n, at + 1, ch.text, ch.marks);
    } else {
      HoldsInside(m, at, ch.text, SQUOTE);
      SingleRead(m, n, at + 1, ch.text);
    }
  }

  lemma InDoubleRead(m: seq<byte>, n: nat, j: nat, t: seq<byte>, marks: seq<Mark>)
    requires QuotedAsIs(t, marks) && Holds(m, j, ShowMarked(t, marks) + [DQUOTE])
    requires j + |ShowMarked(t, marks)| < n <= |m|
    ensures QuoteEnd(m, n, DQUOTE, j) == j + |ShowMarked(t, marks)|
  {
    hide Holds, QuoteEnd, ShowMarked;
    var q := ShowMarked(t, marks);
    HoldsParts(m, j, q, [DQUOTE]);
    HoldsByte(m, j + |q|, [DQUOTE], 0);
    MarkedRead(m, n, j, t, marks);
    ReadEnd(m, n, j + |q|);
  }

  lemma ReadEnd(m: seq<byte>, n: nat, j: nat)
    requires j < n <= |m| && m[j] == DQUOTE
    ensures QuoteEnd(m, n, DQUOTE, j) == j
  {
  }

  lemma ScanQuotedHere(c: Config, m: seq<byte>, n: nat, at: nat, ch: Chunk)
    requires c.WellFormed() && ch.Fit(c) && !ch.Bare? && Holds(m, at, ch.Show()) && at + |ch.Show()| <= n <= |m|
    ensures m[at] == if ch.InSingle? then SQUOTE else DQUOTE
    ensures var j := QuoteEnd(m, n, m[at], at + 1);
            ScanRest(c, m, n, at) == if j == n then Unclosed(at)
                                     else ScanRest(c, m, n, j + 1).After([Piece(KindOf(m[at]), at + 1, j)])
  {
    hide ScanRest, QuoteEnd, CQuote;
    HoldsByte(m, at, ch.Show(), 0);
    ScanQuoted(c, m, n, at);
  }

  lemma {:induction false} WordSays(c: Config, m: seq<byte>, at: nat, w: seq<Chunk>)
    requires Writable(c, w) && Holds(m, at, ShowWord(w))
    ensures AllFit(PiecesAt(w, at), |m|) && Joined(c, m, PiecesAt(w, at)) == Said(w) && Free(Said(w), NUL)
    decreases |w|
  {
    hide PieceText, Chunk.Show, PieceAt;
    if w != [] {
      HoldsParts(m, at, w[0].Show(), ShowWord(w[1..]));
      PieceAtSays(c, m, at, w[0]);
      WordSays(c, m, at + |w[0].Show()|, w[1..]);
      assert PiecesAt(w, at)[1..] == PiecesAt(w[1..], at + |w[0].Show()|);
    }
  }

  /** A written word is understood as the texts of its chunks, one after the other. */
  lemma WordTextIsSaid(c: Config, m: seq<byte>, at: nat, w: seq<Chunk>)
    requires Writable(c, w) && Holds(m, at, ShowWord(w)) && w != []
    ensures AllFit(PiecesAt(w, at), |m|) && WordText(c, m, PiecesAt(w, at)) == Said(w)
  {
    hide PieceText, Chunk.Show, CString;
    WordSays(c, m, at, w);
    CStringOfText(Said(w));
    if |w| == 1 {
      PieceAtSays(c, m, at, w[0]);
      assert w[1..] == [];
      HoldsParts(m, at, w[0].Show(), []);
    }
  }

  // ---- lists of words ----

  /** Words that can be written; one of no chunks needs a delimiter behind it, and none are squeezed. */
  predicate AllWritable(c: Config, ws: seq<seq<Chunk>>, gaps: seq<seq<byte>>) {
    forall k :: 0 <= k < |ws| ==> Writable(c, ws[k]) && (ws[k] == [] ==> !c.squeeze && k < |gaps|)
  }

  /** What can stand behind a word: one delimiter, or any number of them if delimiters are squeezed. */
  predicate Gap(c: Config, g: seq<byte>) {
    && g != [] && (|g| == 1 || c.squeeze)
    && (forall k :: 0 <= k < |g| ==> g[k] in c.delim)
    && !(c.quote && g[0] == BACKSLASH)
  }

  predicate AllGaps(c: Config, gaps: seq<seq<byte>>) { forall k :: 0 <= k < |gaps| ==> Gap(c, gaps[k]) }

  /** Words and gaps that can be written and that m holds from at on. */
  predicate Written(c: Config, m: seq<byte>, at: nat, ws: seq<seq<Chunk>>, gaps: seq<seq<byte>>) {
    && c.WellFormed() && Alternate(ws, gaps) && AllGaps(c, gaps) && AllWritable(c, ws, gaps)
    && Holds(m, at, ShowWords(ws, gaps))
  }

  /** The pieces of a word; one of no chunks is a gap. */
  function WordPieces(w: seq<Chunk>, at: nat): (r: seq<Piece>)
    ensures r != []
  {
    if w == [] then [Piece(Plain, at, at)] else PiecesAt(w, at)
  }

  function PiecesOf(ws: seq<seq<Chunk>>, gaps: seq<seq<byte>>, at: nat): (r: seq<seq<Piece>>)
    requires Alternate(ws, gaps)
    ensures |r| == |ws|
  {
    if ws == [] then []
    else if gaps == [] then [WordPieces(ws[0], at)]
    else [WordPieces(ws[0], at)] + PiecesOf(ws[1..], gaps[1..], at + |ShowWord(ws[0])| + |gaps[0]|)
  }

  lemma StartOfWords(c: Config, ws: seq<seq<Chunk>>, gaps: seq<seq<byte>>)
    requires c.WellFormed() && AllWritable(c, ws, gaps) && ws != [] && Alternate(ws, gaps) && c.squeeze
    ensures ShowWords(ws, gaps) != [] && !c.IsDelim(ShowWords(ws, gaps)[0])
  {
    hide Config.IsDelim, Config.IsQuote, Chunk.Fit, ShowWord;
    FirstByte(c, ws[0]);
  }

  lemma ScanWrittenWord(c: Config, m: seq<byte>, n: nat, at: nat, w: seq<Chunk>)
    requires c.WellFormed() && Writable(c, w) && (w == [] ==> !c.squeeze && at < n <= |m| && c.IsDelim(m[at]))
    requires Holds(m, at, ShowWord(w)) && WordEnd(c, m, n, at + |ShowWord(w)|)
    ensures at < n && ScanWord(c, m, n, at) == Scanned(WordPieces(w, at), at + |ShowWord(w)|)
  {
    hide Config.IsDelim, Config.IsQuote, ScanRest, PiecesAt, Chunk.Fit, ShowWord;
    if w == [] {
      NoChunks();
    } else {
      FirstByte(c, w);
      HoldsByte(m, at, ShowWord(w), 0);
      ScanWritten(c, m, n, at, w);
    }
  }

  /** The text goes on behind the written words, if at all, with a byte that is not squeezed. */
  predicate Behind(c: Config, m: seq<byte>, n: nat, at: nat, ws: seq<seq<Chunk>>, gaps: seq<seq<byte>>)
    requires Alternate(ws, gaps)
  {
    var end := at + |ShowWords(ws, gaps)|;
    end <= n <= |m| && (|gaps| < |ws| ==> end == n) && (c.squeeze && end < n ==> !c.IsDelim(m[end]))
  }

  /** The words that were written are the words that are scanned, and the scan goes on behind them. */
  lemma {:induction false} ScanWrittenWords(c: Config, m: seq<byte>, n: nat, at: nat,
                                            ws: seq<seq<Chunk>>, gaps: seq<seq<byte>>)
    requires Written(c, m, at, ws, gaps) && Behind(c, m, n, at, ws, gaps)
    ensures var end := at + |ShowWords(ws, gaps)|;
            end <= n <= |m| && Words(c, m, n, at) == Prefixed(PiecesOf(ws, gaps, at), Words(c, m, n, end))
    decreases |ws|
  {
    hide ScanWord, Config.IsDelim, WordPieces, ShowWord, AllWritable, Holds, AllGaps, Splitting.SkipDelim, Words;
    hide Prefixed, Config.WellFormed, WordEnd;
    if ws == [] {
      PrefixedByNone(Words(c, m, n, at));
    } else {
      var ps, endp := WordPieces(ws[0], at), at + |ShowWord(ws[0])|;
      WordThenMore(c, m, n, at, ws, gaps);
      FirstWritable(c, m, n, at, ws, gaps);
      ScanWrittenWord(c, m, n, at, ws[0]);
      OneWordThen(c, m, n, at, ps, endp);
      if gaps == [] {
        NothingAtTheEnd(c, m, n);
      } else {
        var next := endp + |gaps[0]|;
        ScanWrittenWords(c, m, n, next, ws[1..], gaps[1..]);
        PrefixedTwice([ps], PiecesOf(ws[1..], gaps[1..], next), Words(c, m, n, at + |ShowWords(ws, gaps)|));
      }
    }
  }

  lemma FirstWritable(c: Config, m: seq<byte>, n: nat, at: nat, ws: seq<seq<Chunk>>, gaps: seq<seq<byte>>)
    requires Written(c, m, at, ws, gaps) && ws != [] && n <= |m| && (gaps != [] ==> at + |ShowWord(ws[0])| < n)
    requires WordEnd(c, m, n, at + |ShowWord(ws[0])|)
    ensures Writable(c, ws[0]) && (ws[0] == [] ==> !c.squeeze && at < n && c.IsDelim(m[at]))
  {
    hide Config.IsDelim, Writable, Holds, ShowWords;
    if ws[0] == [] {
      NoChunks();
    }
  }

  lemma OneWordThen(c: Config, m: seq<byte>, n: nat, at: nat, ps: seq<Piece>, endp: nat)
    requires at < n <= |m| && ScanWord(c, m, n, at) == Scanned(ps, endp) && ps != [] && at <= endp <= n
    ensures Words(c, m, n, at) == Prefixed([ps], Words(c, m, n, SkipDelim(c, m, n, endp)))
  {
  }

  lemma NothingAtTheEnd(c: Config, m: seq<byte>, n: nat)
    requires n <= |m|
    ensures Words(c, m, n, n + 1) == Words(c, m, n, n)
  {
  }

  lemma PrefixedTwice(a: seq<seq<Piece>>, b: seq<seq<Piece>>, r: Outcome<seq<seq<Piece>>>)
    ensures Prefixed(a, Prefixed(b, r)) == Prefixed(a + b, r)
  {
    if r.Fine? {
      Assoc(a, b, r.value);
    }
  }

  lemma {:induction false} GapEnd(c: Config, m: seq<byte>, n: nat, at: nat, g: seq<byte>)
    requires Holds(m, at, g) && at + |g| <= n <= |m| && forall k :: 0 <= k < |g| ==> c.IsDelim(g[k])
    requires at + |g| < n ==> !c.IsDelim(m[at + |g|])
    ensures DelimEnd(c, m, n, at) == at + |g|
    decreases |g|
  {
    hide Config.IsDelim;
    if g != [] {
      HoldsByte(m, at, g, 0);
      assert g == [g[0]] + g[1..];
      HoldsParts(m, at, [g[0]], g[1..]);
      GapEnd(c, m, n, at + 1, g[1..]);
    }
  }

  /** After the first word comes the end, or a gap and the other words. */
  lemma WordThenMore(c: Config, m: seq<byte>, n: nat, at: nat, ws: seq<seq<Chunk>>, gaps: seq<seq<byte>>)
    requires Written(c, m, at, ws, gaps) && ws != [] && Behind(c, m, n, at, ws, gaps)
    ensures var endp := at + |ShowWord(ws[0])|;
            && n <= |m| && Holds(m, at, ShowWord(ws[0])) && WordEnd(c, m, n, endp)
            && (gaps == [] ==> n == endp && SkipDelim(c, m, n, endp) == n + 1)
            && (gaps != [] ==>
                  var next := endp + |gaps[0]|;
                  && endp < n && SkipDelim(c, m, n, endp) == next && Written(c, m, next, ws[1..], gaps[1..])
                  && next + |ShowWords(ws[1..], gaps[1..])| == at + |ShowWords(ws, gaps)|
                  && Behind(c, m, n, next, ws[1..], gaps[1..]))
  {
    hide Config.IsDelim, ShowWord, ShowWords, Holds, Gap, AllWritable, WordEnd, Splitting.SkipDelim;
    var first := ShowWord(ws[0]);
    HoldsBounds(m, at, ShowWords(ws, gaps));
    ShownFirst(ws, gaps);
    if gaps == [] {
      AtTheEnd(c, m, at + |first|);
    } else {
      var g, rest := gaps[0], ShowWords(ws[1..], gaps[1..]);
      HoldsParts(m, at, first + g, rest);
      HoldsParts(m, at, first, g);
      RestWritable(c, ws, gaps);
      if ws[1..] == [] {
        NothingShown(gaps[1..]);
      } else if c.squeeze {
        StartOfWords(c, ws[1..], gaps[1..]);
        HoldsByte(m, at + |first| + |g|, rest, 0);
      }
      GapSkipped(c, m, n, at + |first|, g);
    }
  }

  lemma RestWritable(c: Config, ws: seq<seq<Chunk>>, gaps: seq<seq<byte>>)
    requires AllWritable(c, ws, gaps) && ws != [] && gaps != []
    ensures AllWritable(c, ws[1..], gaps[1..])
  {
    hide Writable;
    assert forall k :: 0 <= k < |ws| - 1 ==> ws[1..][k] == ws[k + 1];
  }

  lemma ShownFirst(ws: seq<seq<Chunk>>, gaps: seq<seq<byte>>)
    requires Alternate(ws, gaps) && ws != []
    ensures gaps == [] ==> ShowWords(ws, gaps) == ShowWord(ws[0])
    ensures gaps != [] ==> ShowWords(ws, gaps) == ShowWord(ws[0]) + gaps[0] + ShowWords(ws[1..], gaps[1..])
  {
  }

  lemma AtTheEnd(c: Config, m: seq<byte>, n: nat)
    requires n <= |m|
    ensures WordEnd(c, m, n, n) && SkipDelim(c, m, n, n) == n + 1
  {
  }

  lemma GapSkipped(c: Config, m: seq<byte>, n: nat, endp: nat, g: seq<byte>)
    requires Gap(c, g) && Holds(m, endp, g) && endp + |g| <= n <= |m|
    requires c.squeeze && endp + |g| < n ==> !c.IsDelim(m[endp + |g|])
    ensures WordEnd(c, m, n, endp) && SkipDelim(c, m, n, endp) == endp + |g| && g != []
  {
    hide DelimEnd, Holds;
    assert forall k :: 0 <= k < |g| ==> c.IsDelim(g[k]);
    HoldsByte(m, endp, g, 0);
    assert g == [g[0]] + g[1..];
    HoldsParts(m, endp, [g[0]], g[1..]);
    if c.squeeze {
      GapEnd(c, m, n, endp + 1, g[1..]);
    }
  }

  lemma FirstSays(c: Config, m: seq<byte>, at: nat, w: seq<Chunk>, ws: seq<seq<Chunk>>, gaps: seq<seq<byte>>)
    requires AllWritable(c, ws, gaps) && ws != [] && w == ws[0] && Holds(m, at, ShowWord(w))
    ensures AllFit(WordPieces(w, at), |m|) && WordText(c, m, WordPieces(w, at)) == Said(w)
  {
    hide ShowWord, Holds, WordText, PiecesAt, Writable;
    HoldsBounds(m, at, ShowWord(w));
    if w == [] {
      GapText(c, m, at);
    } else {
      WordTextIsSaid(c, m, at, w);
    }
  }

  lemma GapText(c: Config, m: seq<byte>, at: nat)
    requires at <= |m|
    ensures WordText(c, m, [Piece(Plain, at, at)]) == []
  {
    Ended(m, at, at);
  }

  lemma {:induction false} WordsSay(c: Config, m: seq<byte>, at: nat, ws: seq<seq<Chunk>>, gaps: seq<seq<byte>>, k: nat)
    requires Written(c, m, at, ws, gaps) && k < |ws|
    ensures PiecesOf(ws, gaps, at)[k] != [] && AllFit(PiecesOf(ws, gaps, at)[k], |m|)
    ensures WordText(c, m, PiecesOf(ws, gaps, at)[k]) == Said(ws[k])
    decreases |ws|
  {
    hide Config.IsDelim, ShowWord, ShowWords, Holds, WordText, WordPieces, AllWritable, AllFit, Gap;
    HoldsBounds(m, at, ShowWords(ws, gaps));
    WordThenMore(c, m, at + |ShowWords(ws, gaps)|, at, ws, gaps);
    if k == 0 {
      FirstSays(c, m, at, ws[0], ws, gaps);
    } else {
      WordsSay(c, m, at + |ShowWord(ws[0])| + |gaps[0]|, ws[1..], gaps[1..], k - 1);
    }
  }

  function AllSaid(ws: seq<seq<Chunk>>): (r: seq<seq<byte>>)
    ensures |r| == |ws| && forall k :: 0 <= k < |ws| ==> r[k] == Said(ws[k])
  {
    seq(|ws|, k requires 0 <= k < |ws| => Said(ws[k]))
  }

  /** Delimiters before the first word, which only squeezing passes over. */
  predicate Lead(c: Config, lead: seq<byte>) {
    lead == [] || (c.squeeze && forall k :: 0 <= k < |lead| ==> lead[k] in c.delim)
  }

  /**
   * Writing words and reading them back: for every list of words, each written as any mix of bare,
   * double-quoted and single-quoted chunks, with one delimiter behind each of them (behind the last
   * one or not), any of them each time; and with any number of them each time, also before the first
   * word, if delimiters are squeezed. If they are not, words may also be left empty.
   */
  lemma ReadBack(c: Config, m: seq<byte>, lead: seq<byte>, ws: seq<seq<Chunk>>, gaps: seq<seq<byte>>)
    requires Lead(c, lead) && Holds(m, 0, lead) && Written(c, m, |lead|, ws, gaps)
    ensures var n := |lead| + |ShowWords(ws, gaps)|;
            n <= |m| && ScansSafely(c, m, n) && Split(c, m, n) == Fine(AllSaid(ws))
  {
    hide ShowWords, PiecesOf, Words, SafeText, Texts, AllSaid, WordsFit, Holds, Config.WellFormed, Lead;
    WrittenBounds(c, m, |lead|, ws, gaps);
    var n := |lead| + |ShowWords(ws, gaps)|;
    WellFormedText(c, m, n, 0);
    WordsStart(c, m, |lead|, ws, gaps);
    hide Written;
    ScanWrittenWords(c, m, n, |lead|, ws, gaps);
    NoneAtTheEnd(c, m, n, PiecesOf(ws, gaps, |lead|));
    PiecesSay(c, m, |lead|, ws, gaps);
    LeadSkipped(c, m, n, lead);
  }

  /** If delimiters are squeezed, written words start with a byte that is none. */
  lemma WordsStart(c: Config, m: seq<byte>, at: nat, ws: seq<seq<Chunk>>, gaps: seq<seq<byte>>)
    requires Written(c, m, at, ws, gaps)
    ensures ws == [] ==> ShowWords(ws, gaps) == []
    ensures ws != [] && c.squeeze ==> at < |m| && !c.IsDelim(m[at])
  {
    hide ShowWords, Config.IsDelim, Holds;
    if ws == [] {
      NothingShown(gaps);
    } else if c.squeeze {
      StartOfWords(c, ws, gaps);
      HoldsBounds(m, at, ShowWords(ws, gaps));
      HoldsByte(m, at, ShowWords(ws, gaps), 0);
    }
  }

  lemma NoneAtTheEnd(c: Config, m: seq<byte>, n: nat, ws: seq<seq<Piece>>)
    requires n <= |m|
    ensures Prefixed(ws, Words(c, m, n, n)) == Fine(ws)
  {
    assert ws + [] == ws;
  }

  lemma WrittenBounds(c: Config, m: seq<byte>, at: nat, ws: seq<seq<Chunk>>, gaps: seq<seq<byte>>)
    requires Written(c, m, at, ws, gaps)
    ensures c.WellFormed() && Alternate(ws, gaps) && at + |ShowWords(ws, gaps)| <= |m|
  {
  }

  /** Delimiters before the words make no word. */
  lemma LeadSkipped(c: Config, m: seq<byte>, n: nat, lead: seq<byte>)
    requires Lead(c, lead) && Holds(m, 0, lead) && |lead| <= n <= |m|
    requires c.squeeze && |lead| < n ==> !c.IsDelim(m[|lead|])
    ensures Words(c, m, n, 0) == Words(c, m, n, |lead|)
  {
    hide DelimEnd;
    if lead != [] {
      assert forall k :: 0 <= k < |lead| ==> c.IsDelim(lead[k]);
      HoldsByte(m, 0, lead, 0);
      assert lead == [lead[0]] + lead[1..];
      HoldsParts(m, 0, [lead[0]], lead[1..]);
      GapEnd(c, m, n, 1, lead[1..]);
      assert ScanWord(c, m, n, 0) == Scanned([], 0);
      NoWordFirst(Words(c, m, n, |lead|));
    }
  }

  lemma NothingShown(gaps: seq<seq<byte>>)
    requires gaps == []
    ensures ShowWords([], gaps) == []
  {
  }

  lemma NoWordFirst(r: Outcome<seq<seq<Piece>>>)
    ensures r.Fine? ==> [] + r.value == r.value
  {
  }

  /**
   * A text behind an opening quote q that does not close it: no other single quote; or no double one
   * but behind a backslash, and maybe a lone backslash at the end.
   */
  predicate Open(q: byte, t: seq<byte>, marks: seq<Mark>, lone: bool) {
    if q == SQUOTE then Free(t, SQUOTE) && !lone else q == DQUOTE && QuotedAsIs(t, marks)
  }

  function ShowOpen(q: byte, t: seq<byte>, marks: seq<Mark>, lone: bool): seq<byte>
    requires Open(q, t, marks, lone)
  {
    if q == SQUOTE then t else ShowMarked(t, marks) + if lone then [BACKSLASH] else []
  }

  lemma OpenRead(m: seq<byte>, j: nat, q: byte, t: seq<byte>, marks: seq<Mark>, lone: bool)
    requires Open(q, t, marks, lone) && Holds(m, j, ShowOpen(q, t, marks, lone))
    ensures var n := j + |ShowOpen(q, t, marks, lone)|; n <= |m| && QuoteEnd(m, n, q, j) == n
  {
    var shown := ShowOpen(q, t, marks, lone);
    var n := j + |shown|;
    if q == SQUOTE {
      NoneThere(m, n, j, t);
    } else {
      var tail := if lone then [BACKSLASH] else [];
      HoldsParts(m, j, ShowMarked(t, marks), tail);
      MarkedRead(m, n, j, t, marks);
      if lone {
        HoldsByte(m, n - 1, tail, 0);
      }
    }
  }

  lemma {:induction false} NoneThere(m: seq<byte>, n: nat, j: nat, t: seq<byte>)
    requires Holds(m, j, t) && Free(t, SQUOTE) && n == j + |t|
    ensures QuoteEnd(m, n, SQUOTE, j) == n
    decreases |t|
  {
    if t != [] {
      HoldsByte(m, j, t, 0);
      assert t == [t[0]] + t[1..];
      HoldsParts(m, j, [t[0]], t[1..]);
      NoneThere(m, n, j + 1, t[1..]);
    }
  }

  /** The last word of the text has the chunks w and then a quote q at i that is not closed before n. */
  lemma ScanOpen(c: Config, m: seq<byte>, n: nat, at: nat, w: seq<Chunk>, q: byte)
    requires c.WellFormed() && Writable(c, w) && Holds(m, at, ShowWord(w) + [q]) && c.IsQuote(q)
    requires at + |ShowWord(w)| < n <= |m| && QuoteEnd(m, n, q, at + |ShowWord(w)| + 1) == n
    ensures !c.IsDelim(m[at]) && Words(c, m, n, at) == BadQuote(at + |ShowWord(w)|)
  {
    hide ScanRest, QuoteEnd, PlainEnd, ShowWord, PiecesAt, Holds, Writable;
    var i := at + |ShowWord(w)|;
    HoldsParts(m, at, ShowWord(w), [q]);
    HoldsByte(m, i, [q], 0);
    ScanChunks(c, m, n, at, w);
    ScanQuoted(c, m, n, i);
    if w != [] {
      FirstFits(c, w);
      FirstByte(c, w);
      HoldsByte(m, at, ShowWord(w), 0);
    } else {
      NoChunks();
    }
  }

  lemma FirstFits(c: Config, w: seq<Chunk>)
    requires Writable(c, w) && w != []
    ensures w[0].Fit(c)
  {
  }

  lemma NoChunks()
    ensures ShowWord([]) == []
  {
  }

  /**
   * The other outcome: any words as they are read back, then any chunks of a word and a quote that
   * nothing closes. The scan fails, and reports that quote.
   */
  lemma ReadUnclosed(c: Config, m: seq<byte>, lead: seq<byte>, ws: seq<seq<Chunk>>, gaps: seq<seq<byte>>,
                     w: seq<Chunk>, q: byte, t: seq<byte>, marks: seq<Mark>, lone: bool)
    requires |gaps| == |ws| && Open(q, t, marks, lone)
    requires Lead(c, lead) && Holds(m, 0, lead) && Written(c, m, |lead|, ws, gaps) && c.quote && Writable(c, w)
    requires Holds(m, |lead| + |ShowWords(ws, gaps)|, ShowWord(w) + [q] + ShowOpen(q, t, marks, lone))
    ensures var i := |lead| + |ShowWords(ws, gaps)| + |ShowWord(w)|;
            var n := i + 1 + |ShowOpen(q, t, marks, lone)|;
            n <= |m| && ScansSafely(c, m, n) && Split(c, m, n) == BadQuote(i)
  {
    hide ShowWords, ShowWord, PiecesOf, Words, SafeText, WordsFit, Holds, Config.WellFormed, Lead, Writable, ShowOpen;
    var at, rest := |lead| + |ShowWords(ws, gaps)|, ShowOpen(q, t, marks, lone);
    var n := at + |ShowWord(w)| + 1 + |rest|;
    WrittenBounds(c, m, |lead|, ws, gaps);
    HoldsBounds(m, at, ShowWord(w) + [q] + rest);
    HoldsParts(m, at, ShowWord(w) + [q], rest);
    OpenRead(m, at + |ShowWord(w)| + 1, q, t, marks, lone);
    ScanOpen(c, m, n, at, w, q);
    WordsStart(c, m, |lead|, ws, gaps);
    WellFormedText(c, m, n, 0);
    ScanWrittenWords(c, m, n, |lead|, ws, gaps);
    LeadSkipped(c, m, n, lead);
  }

  /** What the pieces of the written words say. */
  lemma PiecesSay(c: Config, m: seq<byte>, at: nat, ws: seq<seq<Chunk>>, gaps: seq<seq<byte>>)
    requires Written(c, m, at, ws, gaps)
    ensures WordsFit(PiecesOf(ws, gaps, at), |m|) && Texts(c, m, PiecesOf(ws, gaps, at)) == AllSaid(ws)
  {
    hide Config.IsDelim, ShowWords, ShowWord, WordText, PiecesAt, Writable, AllFit, PiecesOf, Said, Holds;
    var ps := PiecesOf(ws, gaps, at);
    forall k | 0 <= k < |ws|
      ensures ps[k] != [] && AllFit(ps[k], |m|)
      ensures WordText(c, m, ps[k]) == Said(ws[k])
    {
      WordsSay(c, m, at, ws, gaps, k);
    }
  }

  /** A list of words in double quotes: what wordsplit_c_quote_copy is for. */
  function Quote(words: seq<seq<byte>>): seq<seq<Chunk>> {
    seq(|words|, k requires 0 <= k < |words| => [Quoted(words[k])])
  }

  /** A space between any two words. */
  function Spaces(words: seq<seq<byte>>): seq<seq<byte>> {
    seq(if words == [] then 0 else |words| - 1, _ => [SPACE])
  }

  function Print(words: seq<seq<byte>>): seq<byte> { ShowWords(Quote(words), Spaces(words)) }

  lemma HoldsString(m: seq<byte>)
    ensures Holds(m, 0, CString(m))
  {
  }

  lemma PrintWritten(m: seq<byte>, words: seq<seq<byte>>)
    requires Holds(m, 0, Print(words)) && forall k :: 0 <= k < |words| ==> Free(words[k], NUL)
    ensures Alternate(Quote(words), Spaces(words))
    ensures Written(DEFFLAGS, m, 0, Quote(words), Spaces(words)) && Holds(m, 0, []) && Lead(DEFFLAGS, [])
    ensures Print(words) == ShowWords(Quote(words), Spaces(words))
  {
    hide ShowWords;
  }

  lemma QuotedSay(words: seq<seq<byte>>)
    ensures AllSaid(Quote(words)) == words
  {
    var ws := Quote(words);
    forall k | 0 <= k < |ws|
      ensures Said(ws[k]) == words[k]
    {
      assert ws[k][1..] == [];
      assert words[k] + [] == words[k];
    }
  }

  /** Printed words that m holds are read back, whatever follows them. */
  lemma PrintParseAt(m: seq<byte>, words: seq<seq<byte>>)
    requires Holds(m, 0, Print(words)) && forall k :: 0 <= k < |words| ==> Free(words[k], NUL)
    ensures ScansSafely(DEFFLAGS, m, |Print(words)|) && Split(DEFFLAGS, m, |Print(words)|) == Fine(words)
  {
    hide Holds, Written, Lead, Print, ShowWords, Quote, Spaces, AllSaid, Split, ScansSafely;
    PrintWritten(m, words);
    ReadBack(DEFFLAGS, m, [], Quote(words), Spaces(words));
    QuotedSay(words);
  }

  /** The same on a C string, with more memory behind the text. */
  lemma PrintParseIn(m: seq<byte>, words: seq<seq<byte>>)
    requires CString(m) == Print(words)
    requires forall k :: 0 <= k < |words| ==> Free(words[k], NUL)
    ensures ScansSafely(DEFFLAGS, m, |Print(words)|) && Split(DEFFLAGS, m, |Print(words)|) == Fine(words)
  {
    hide Holds, Print, Split, ScansSafely, CString;
    HoldsString(m);
    PrintParseAt(m, words);
  }

  /** Print then parse with the default flags gives back every list of NUL-free words, empty ones included. */
  lemma PrintParse(words: seq<seq<byte>>)
    requires forall k :: 0 <= k < |words| ==> Free(words[k], NUL)
    ensures ScansSafely(DEFFLAGS, Print(words), |Print(words)|)
    ensures Split(DEFFLAGS, Print(words), |Print(words)|) == Fine(words)
  {
    hide Print, Split, ScansSafely;
    assert Holds(Print(words), 0, Print(words));
    PrintParseAt(Print(words), words);
  }

  lemma OneChunk(ch: Chunk)
    ensures ShowWord([ch]) == ch.Show() && Said([ch]) == ch.text
  {
    assert [ch][1..] == [];
  }

  lemma ShowMore(w: seq<Chunk>, g: seq<byte>, ws: seq<seq<Chunk>>, gaps: seq<seq<byte>>)
    requires Alternate(ws, gaps)
    ensures Alternate([w] + ws, [g] + gaps)
    ensures ShowWords([w] + ws, [g] + gaps) == ShowWord(w) + g + ShowWords(ws, gaps)
    ensures ShowWords([w], []) == ShowWord(w)
  {
    assert ([w] + ws)[1..] == ws && ([g] + gaps)[1..] == gaps;
  }

  lemma ExampleChunks(c: Config, a: Chunk, b: Chunk, d: Chunk, e: Chunk)
    requires c == DEFFLAGS && a == Bare([97], [AsIs]) && b == InSingle([98, 32, 99])
    requires d == Bare([100, 32], [AsIs, Escape(32)]) && e == InDouble([101], [AsIs])
    ensures Writable(c, [a]) && ShowWord([a]) == [97] && Said([a]) == [97]
    ensures Writable(c, [b]) && ShowWord([b]) == [39, 98, 32, 99, 39] && Said([b]) == [98, 32, 99]
    ensures Writable(c, [d]) && ShowWord([d]) == [100, 92, 32] && Said([d]) == [100, 32]
    ensures Writable(c, [e]) && ShowWord([e]) == [34, 101, 34] && Said([e]) == [101]
  {
    assert ShowMarked([32], [Escape(32)]) == [92, 32];
    assert d.text[1..] == [32] && d.marks[1..] == [Escape(32)];
    assert a.Fit(c) && b.Fit(c) && d.Fit(c) && e.Fit(c);
    OneChunk(a);
    OneChunk(b);
    OneChunk(d);
    OneChunk(e);
  }

  /** Four words with two spaces, a tab and a newline between them. */
  lemma FourWords(a: seq<Chunk>, b: seq<Chunk>, d: seq<Chunk>, e: seq<Chunk>)
    returns (ws: seq<seq<Chunk>>, gaps: seq<seq<byte>>)
    ensures ws == [a, b, d, e] && gaps == [[32, 32], [9], [10]] && Alternate(ws, gaps)
    ensures ShowWords(ws, gaps) == ShowWord(a) + [32, 32] + ShowWord(b) + [9] + ShowWord(d) + [10] + ShowWord(e)
    ensures AllSaid(ws) == [Said(a), Said(b), Said(d), Said(e)]
  {
    hide ShowWord, ShowWords, Said;
    ws, gaps := [e], [];
    ShowMore(e, [], [], []);
    ShowMore(d, [10], ws, gaps);
    ws, gaps := [d] + ws, [[10]] + gaps;
    ShowMore(b, [9], ws, gaps);
    ws, gaps := [b] + ws, [[9]] + gaps;
    ShowMore(a, [32, 32], ws, gaps);
    ws, gaps := [a] + ws, [[32, 32]] + gaps;
  }

  lemma ExampleWords() returns (ws: seq<seq<Chunk>>, gaps: seq<seq<byte>>)
    ensures Alternate(ws, gaps) && AllWritable(DEFFLAGS, ws, gaps) && gaps == [[32, 32], [9], [10]]
    ensures ShowWords(ws, gaps) ==
              [97] + [32, 32] + [39, 98, 32, 99, 39] + [9] + [100, 92, 32] + [10] + [34, 101, 34]
    ensures AllSaid(ws) == [[97], [98, 32, 99], [100, 32], [101]]
  {
    var a, b := Bare([97], [AsIs]), InSingle([98, 32, 99]);
    var d, e := Bare([100, 32], [AsIs, Escape(32)]), InDouble([101], [AsIs]);
    ExampleChunks(DEFFLAGS, a, b, d, e);
    hide ShowWord, ShowWords, Said, Writable, AllSaid;
    ws, gaps := FourWords([a], [b], [d], [e]);
  }

  lemma ExampleWritten(m: seq<byte>, ws: seq<seq<Chunk>>, gaps: seq<seq<byte>>)
    requires Alternate(ws, gaps) && ShowWords(ws, gaps) == m && gaps == [[32, 32], [9], [10]]
    requires AllWritable(DEFFLAGS, ws, gaps)
    ensures Written(DEFFLAGS, m, 0, ws, gaps) && Holds(m, 0, []) && Lead(DEFFLAGS, [])
  {
    hide ShowWords, AllWritable;
  }

  /**
   * A line as a user may write it, byte by byte: a, two spaces, quoted b c, tab, d and an escaped space,
   * newline, e in double quotes. It has four words.
   */
  lemma SplitExample(m: seq<byte>)
    requires m == [97, 32, 32, 39, 98, 32, 99, 39, 9, 100, 92, 32, 10, 34, 101, 34]
    ensures ScansSafely(DEFFLAGS, m, 16) && Split(DEFFLAGS, m, 16) == Fine([[97], [98, 32, 99], [100, 32], [101]])
  {
    hide ShowWords, SafeText, Words, Texts, Holds, Split, ScansSafely, Written, AllSaid, AllWritable, Lead;
    var ws, gaps := ExampleWords();
    assert m == [97] + [32, 32] + [39, 98, 32, 99, 39] + [9] + [100, 92, 32] + [10] + [34, 101, 34];
    ExampleWritten(m, ws, gaps);
    ReadBack(DEFFLAGS, m, [], ws, gaps);
  }
}
