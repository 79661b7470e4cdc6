/** lib/wordsplit.c: the C-style quoter and the two unquoters. */
module Quoting {
  import opened Bytes

  const PERCENT: byte := 37
  const LOWER_X: byte := 120
  const UPPER_X: byte := 88
  const DEL: byte := 127

  /** quote_transtab: pairs of an escape letter and the byte it stands for. */
  const TRANSTAB: seq<byte> := [92, 92, 97, 7, 98, 8, 102, 12, 110, 10, 114, 13, 116, 9, 118, 11]

  function LetterFrom(c: byte, p: nat): byte
    decreases |TRANSTAB| - p
  {
    if p >= |TRANSTAB| - 1 then c
    else if TRANSTAB[p] == c then TRANSTAB[p + 1]
    else LetterFrom(c, p + 2)
  }

  /** What the escape letter c stands for. */
  function UnquoteChar(c: byte): byte { LetterFrom(c, 0) }

  function EscapeFrom(c: byte, p: nat): Option<byte>
    requires p <= |TRANSTAB|
  {
    if p < 2 then None
    else if TRANSTAB[p - 1] == c then Some(TRANSTAB[p - 2])
    else EscapeFrom(c, p - 2)
  }

  /** The escape letter for c, if there is one. */
  function QuoteChar(c: byte): Option<byte> { EscapeFrom(c, |TRANSTAB|) }

  /** The escape letters and the bytes they stand for: those of the C language, but for the quotes. */
  predicate Stands(letter: byte, value: byte) {
    || (letter == BACKSLASH && value == BACKSLASH)
    || (letter == 'a' as int && value == 7)
    || (letter == 'b' as int && value == 8)
    || (letter == 't' as int && value == TAB)
    || (letter == 'n' as int && value == NL)
    || (letter == 'v' as int && value == 11)
    || (letter == 'f' as int && value == 12)
    || (letter == 'r' as int && value == 13)
  }

  predicate NoLetter(c: byte) { forall v: byte :: !Stands(c, v) }

  /** The table has exactly these letters, in both directions. */
  lemma EscapeLetters(c: byte, v: byte)
    ensures QuoteChar(v) == Some(c) <==> Stands(c, v)
    ensures UnquoteChar(c) == v <==> Stands(c, v) || (v == c && NoLetter(c))
  {
    LetterOf(c);
    EscapeOf(v);
    hide UnquoteChar, QuoteChar;
    assert Stands(c, UnquoteChar(c)) || NoLetter(c);
  }

  lemma LetterOf(c: byte)
    ensures UnquoteChar(c) ==
              if c == 92 then 92 else if c == 97 then 7 else if c == 98 then 8 else if c == 102 then 12
              else if c == 110 then 10 else if c == 114 then 13 else if c == 116 then 9 else if c == 118 then 11
              else c
  {
    assert LetterFrom(c, 12) == if c == 116 then 9 else if c == 118 then 11 else c;
    assert LetterFrom(c, 8) == if c == 110 then 10 else if c == 114 then 13 else LetterFrom(c, 12);
    assert LetterFrom(c, 4) == if c == 98 then 8 else if c == 102 then 12 else LetterFrom(c, 8);
  }

  lemma EscapeOf(v: byte)
    ensures QuoteChar(v) ==
              if v == 92 then Some(92) else if v == 7 then Some(97) else if v == 8 then Some(98)
              else if v == 12 then Some(102) else if v == 10 then Some(110) else if v == 13 then Some(114)
              else if v == 9 then Some(116) else if v == 11 then Some(118) else None
  {
    assert EscapeFrom(v, 2) == if v == 92 then Some(92) else None;
    assert EscapeFrom(v, 6) == if v == 8 then Some(98) else if v == 7 then Some(97) else EscapeFrom(v, 2);
    assert EscapeFrom(v, 10) == if v == 10 then Some(110) else if v == 12 then Some(102) else EscapeFrom(v, 6);
    assert EscapeFrom(v, 14) == if v == 9 then Some(116) else if v == 13 then Some(114) else EscapeFrom(v, 10);
  }

  method CUnquoteChar(c: byte) returns (r: byte)
    ensures r == UnquoteChar(c)
    ensures Stands(c, r) || (r == c && NoLetter(c))
  {
    EscapeLetters(c, UnquoteChar(c));
    var p := 0;
    assert UnquoteChar(c) == LetterFrom(c, p);
    hide LetterFrom, UnquoteChar, Stands, NoLetter;
    while p < |TRANSTAB|
      invariant p <= |TRANSTAB| && p % 2 == 0 && UnquoteChar(c) == LetterFrom(c, p)
    {
      LetterStep(c, p);
      if TRANSTAB[p] == c {
        return TRANSTAB[p + 1];
      }
      p := p + 2;
    }
    LetterStep(c, p);
    return c;
  }

  lemma LetterStep(c: byte, p: nat)
    ensures LetterFrom(c, p) == if p >= |TRANSTAB| - 1 then c
                                else if TRANSTAB[p] == c then TRANSTAB[p + 1]
                                else LetterFrom(c, p + 2)
  {
  }

  /** wordsplit_c_quote_char, with None for -1. */
  method CQuoteChar(c: byte) returns (r: Option<byte>)
    ensures r == QuoteChar(c)
    ensures forall letter: byte :: r == Some(letter) <==> Stands(letter, c)
  {
    forall letter: byte
      ensures QuoteChar(c) == Some(letter) <==> Stands(letter, c)
    {
      EscapeLetters(letter, c);
    }
    var p := |TRANSTAB|;
    while p > 0
      invariant 0 <= p <= |TRANSTAB| && p % 2 == 0 && QuoteChar(c) == EscapeFrom(c, p)
    {
      if TRANSTAB[p - 1] == c {
        return Some(TRANSTAB[p - 2]);
      }
      p := p - 2;
    }
    return None;
  }

  lemma {:induction false} EscapeAt(c: byte, p: nat) returns (j: nat)
    requires p <= |TRANSTAB| && p % 2 == 0 && EscapeFrom(c, p).Some?
    ensures j % 2 == 0 && j < p && TRANSTAB[j + 1] == c && EscapeFrom(c, p).value == TRANSTAB[j]
  {
    j := p - 2;
    if TRANSTAB[p - 1] != c {
      j := EscapeAt(c, p - 2);
    }
  }

  lemma {:induction false} LetterAt(j: nat, p: nat)
    requires p <= j < |TRANSTAB| && p % 2 == 0 && j % 2 == 0
    ensures LetterFrom(TRANSTAB[j], p) == TRANSTAB[j + 1]
    decreases j - p
  {
    if p < j {
      LetterAt(j, p + 2);
    }
  }

  /** An escape letter is read back as the byte it was written for, and never starts a number. */
  lemma LettersAreInverse(c: byte)
    requires QuoteChar(c).Some?
    ensures UnquoteChar(QuoteChar(c).value) == c && !Extends(QuoteChar(c).value)
  {
    var j := EscapeAt(c, |TRANSTAB|);
    LetterAt(j, 0);
  }

  /** c is the digit of value d, in base 16 at most. */
  predicate Digit(c: byte, d: nat) {
    || (d < 10 && c == '0' as int + d)
    || (10 <= d < 16 && (c == 'a' as int + d - 10 || c == 'A' as int + d - 10))
  }

  /** ISPRINT and the two exceptions: the bytes that are copied as they are. */
  predicate Verbatim(c: byte) {
    c != TAB && c != BACKSLASH && c != DQUOTE && SPACE <= c <= DEL
  }

  function HexDigit(d: nat): byte
    requires d < 16
  {
    if d < 10 then ZERO + d else 55 + d
  }

  /** "%XX" */
  function HexCode(c: byte): seq<byte> { [PERCENT, HexDigit(c / 16), HexDigit(c % 16)] }

  /** "ooo" */
  function OctalDigits(c: byte): seq<byte> { [ZERO + c / 64, ZERO + c / 8 % 8, ZERO + c % 8] }

  function QuoteByte(c: byte, hex: bool): seq<byte> {
    if c == DQUOTE then [BACKSLASH, c]
    else if Verbatim(c) then [c]
    else if hex then HexCode(c)
    else match QuoteChar(c)
      case Some(e) => [BACKSLASH, e]
      case None => [BACKSLASH] + OctalDigits(c)
  }

  /**
   * How each byte is quoted: printable bytes but for the double quote and the backslash stand for
   * themselves; others get an escape letter if they have one and three octal digits if not, or with
   * quote_hex a percent sign and two upper-case hexadecimal digits.
   */
  lemma QuoteForms(c: byte, hex: bool)
    ensures var q := QuoteByte(c, hex);
            if c == '"' as int then q == [BACKSLASH, c]
            else if ' ' as int <= c <= 127 && c != '\\' as int then q == [c]
            else if hex then
              && |q| == 3 && q[0] == '%' as int
              && Digit(q[1], c / 16) && q[1] <= 'F' as int && Digit(q[2], c % 16) && q[2] <= 'F' as int
            else if |q| == 2 then q[0] == BACKSLASH && Stands(q[1], c)
            else
              && |q| == 4 && q[0] == BACKSLASH && (forall letter: byte :: !Stands(letter, c))
              && Digit(q[1], c / 64) && Digit(q[2], c / 8 % 8) && Digit(q[3], c % 8)
  {
    EscapeOf(c);
    hide QuoteChar;
  }

  /** The text wordsplit_c_quote_copy writes for s. */
  function CQuote(s: seq<byte>, hex: bool): seq<byte> {
    if s == [] then [] else QuoteByte(s[0], hex) + CQuote(s[1..], hex)
  }

  lemma CQuoteStep(s: seq<byte>, i: nat, hex: bool)
    requires i < |s|
    ensures CQuote(s[i..], hex) == QuoteByte(s[i], hex) + CQuote(s[i + 1..], hex)
  {
    assert s[i..][1..] == s[i + 1..];
  }

  /** wordsplit_c_quoted_length: the exact length of what the quoter writes, for either quote_hex. */
  method CQuotedLength(str: array<byte>, hex: bool) returns (len: nat, quote: bool)
    requires NUL in str[..]
    ensures len == |CQuote(CString(str[..]), hex)|
    ensures quote <==> SPACE in CString(str[..]) || DQUOTE in CString(str[..])
  {
    ghost var s := CString(str[..]);
    var i := 0;
    len, quote := 0, false;
    while str[i] != NUL
      invariant i <= |s| && str[i] == if i < |s| then s[i] else NUL
      invariant len + |CQuote(s[i..], hex)| == |CQuote(s, hex)|
      invariant quote <==> SPACE in s[..i] || DQUOTE in s[..i]
      decreases |s| - i
    {
      CQuoteStep(s, i, hex);
      assert s[..i + 1] == s[..i] + [s[i]];
      if str[i] == SPACE || str[i] == DQUOTE {
        quote := true;
      }
      if str[i] == SPACE {
        len := len + 1;
      } else if str[i] == DQUOTE {
        len := len + 2;
      } else if str[i] != TAB && str[i] != BACKSLASH && SPACE <= str[i] <= DEL {
        len := len + 1;
      } else if hex {
        len := len + 3;
      } else {
        var e := CQuoteChar(str[i]);
        len := len + if e.Some? then 2 else 4;
      }
      i := i + 1;
    }
    assert s[..i] == s;
  }

  /** memcpy of a short text to dst. */
  method Put(dst: array<byte>, k: nat, text: seq<byte>) returns (k': nat)
    requires k + |text| <= dst.Length
    modifies dst
    ensures k' == k + |text| && dst[..] == old(dst[..])[..k] + text + old(dst[..])[k'..]
  {
    k' := k;
    while k' < k + |text|
      invariant k <= k' <= k + |text|
      invariant forall j :: 0 <= j < dst.Length ==>
                  dst[j] == if k <= j < k' then text[j - k] else old(dst[j])
    {
      dst[k'] := text[k' - k];
      k' := k' + 1;
    }
  }

  lemma Spliced(done: seq<byte>, text: seq<byte>, was: seq<byte>)
    requires |done| + |text| <= |was|
    ensures (done + was[|done|..])[..|done|] + text + (done + was[|done|..])[|done| + |text|..]
         == (done + text) + was[|done + text|..]
  {
  }

  /** What one turn of the quoter's loop writes. */
  method QuoteOne(c: byte, hex: bool) returns (text: seq<byte>)
    ensures text == QuoteByte(c, hex)
  {
    if c == DQUOTE {
      return [BACKSLASH, c];
    } else if c != TAB && c != BACKSLASH && SPACE <= c <= DEL {
      return [c];
    } else if hex {
      return HexCode(c);
    }
    var e := CQuoteChar(c);
    return [BACKSLASH] + if e.Some? then [e.value] else OctalDigits(c);
  }

  /** dst, once was, has received done, and with rest it will have received q. */
  ghost predicate Receiving(dst: array<byte>, was: seq<byte>, done: seq<byte>, rest: seq<byte>, q: seq<byte>)
    reads dst
  {
    |q| <= |was| == dst.Length && done + rest == q && dst[..] == done + was[|done|..]
  }

  /** Storing the next piece of a quoted text. */
  method PutNext(dst: array<byte>, k: nat, text: seq<byte>,
                 ghost was: seq<byte>, ghost done: seq<byte>, ghost rest: seq<byte>, ghost q: seq<byte>)
    returns (k': nat)
    requires Receiving(dst, was, done, text + rest, q) && k == |done|
    modifies dst
    ensures k' == |done + text| && Receiving(dst, was, done + text, rest, q)
  {
    OneMore(done, text, rest, q);
    k' := Put(dst, k, text);
    Spliced(done, text, was);
  }

  /** wordsplit_c_quote_copy: exactly the quoted text is written, and no terminating NUL. */
  method CQuoteCopy(dst: array<byte>, src: array<byte>, hex: bool)
    requires dst != src && NUL in src[..] && |CQuote(CString(src[..]), hex)| <= dst.Length
    modifies dst
    ensures dst[..] == CQuote(CString(src[..]), hex) + old(dst[|CQuote(CString(src[..]), hex)|..])
  {
    hide QuoteByte, CQuote, CString, Receiving;
    ghost var s := CString(src[..]);
    InCString(src);
    ghost var q := CQuote(s, hex);
    ghost var done, was := [], dst[..];
    var i, k := 0, 0;
    assert s[0..] == s;
    StartReceiving(dst, q);
    while src[i] != NUL
      invariant i <= |s| && src[i] == if i < |s| then s[i] else NUL
      invariant k == |done| && Receiving(dst, was, done, CQuote(s[i..], hex), q)
      decreases |s| - i
    {
      CQuoteStep(s, i, hex);
      var text := QuoteOne(src[i], hex);
      k := PutNext(dst, k, text, was, done, CQuote(s[i + 1..], hex), q);
      done := done + text;
      i := i + 1;
    }
    CQuoteEnd(s, hex);
    AllReceived(dst, was, done, q);
  }

  lemma StartReceiving(dst: array<byte>, q: seq<byte>)
    requires |q| <= dst.Length
    ensures Receiving(dst, dst[..], [], q, q)
  {
    assert [] + q == q;
  }

  lemma AllReceived(dst: array<byte>, was: seq<byte>, done: seq<byte>, q: seq<byte>)
    requires Receiving(dst, was, done, [], q)
    ensures |q| <= |was| && dst[..] == q + was[|q|..]
  {
    assert done + [] == done;
  }

  lemma InCString(src: array<byte>)
    requires NUL in src[..]
    ensures var s := CString(src[..]);
            |s| < src.Length && src[|s|] == NUL && forall i :: 0 <= i < |s| ==> src[i] == s[i] != NUL
  {
  }

  lemma CQuoteEnd(s: seq<byte>, hex: bool)
    ensures CQuote(s[|s|..], hex) == []
  {
  }

  // ---- unquoting ----

  /** A byte of memory. What lies past the known part is taken to be NUL. */
  function Peek(m: seq<byte>, i: nat): byte { if i < |m| then m[i] else NUL }

  /** to_num. ISXDIGIT accepts NUL, whose value comes out as 0 - 'A' + 10. */
  function ToNum(c: byte): int {
    if IsDigit(c) then c - ZERO
    else if 97 <= c <= 102 then c - 87
    else if 65 <= c <= 70 || c == NUL then c - 55
    else 255
  }

  predicate IsNum(c: byte, base: nat) { c <= 127 && ToNum(c) < base }

  /** xtonum: the number after val, and how many of at most cnt digits it took. */
  function Number(m: seq<byte>, i: nat, base: nat, cnt: nat, val: int): (r: (int, nat))
    ensures r.1 <= cnt
    ensures r.1 > 0 <==> cnt > 0 && IsNum(Peek(m, i), base)
    decreases cnt
  {
    if cnt == 0 || !IsNum(Peek(m, i), base) then (val, 0)
    else
      var r := Number(m, i + 1, base, cnt - 1, val * base + ToNum(Peek(m, i)));
      (r.0, r.1 + 1)
  }

  /** What one escape yields, and where the text goes on. */
  datatype Step = Step(out: seq<byte>, next: nat)

  /** The escape whose letter is at i, in a text that ends at n. */
  function CEscape(m: seq<byte>, i: nat, n: nat): (r: Step)
    requires i <= n
    ensures r.next > i && 1 <= |r.out| <= 2 && |r.out| <= r.next - i + 1
  {
    var c := Peek(m, i);
    var same := Step([BACKSLASH, c], i + 1);
    if c == LOWER_X || c == UPPER_X then
      if n - i < 2 then same
      else
        var r := Number(m, i + 1, 16, 2, 0);
        if r.1 == 0 then same else Step([r.0 % 256], i + 1 + r.1)
    else if IsDigit(c) then
      if n - i < 1 then same
      else
        var r := Number(m, i, 8, 3, 0);
        if r.1 == 0 then same else Step([r.0 % 256], i + r.1)
    else Step([UnquoteChar(c)], i + 1)
  }

  /** The text wordsplit_c_unquote_copy makes of the bytes of m from i to n. */
  function CUnquote(m: seq<byte>, i: nat, n: nat): seq<byte>
    requires n <= |m|
    decreases if i < n then n - i else 0
  {
    if i >= n then []
    else if m[i] != BACKSLASH then [m[i]] + CUnquote(m, i + 1, n)
    else var r := CEscape(m, i + 1, n); r.out + CUnquote(m, r.next, n)
  }

  /** The text wordsplit_sh_unquote_copy makes of the bytes of m from i to n. */
  function ShUnquote(m: seq<byte>, i: nat, n: nat): seq<byte>
    requires n <= |m|
    decreases if i < n then n - i else 0
  {
    if i >= n then []
    else if m[i] != BACKSLASH then [m[i]] + ShUnquote(m, i + 1, n)
    else [Peek(m, i + 1)] + ShUnquote(m, i + 2, n)
  }

  /** The byte at i can make an escape two bytes long when it follows a final backslash. */
  predicate Extends(c: byte) { c == LOWER_X || c == UPPER_X || IsDigit(c) }

  /** From i to n no escape is shorter read than written, and the text ends with a lone backslash. */
  predicate Full(m: seq<byte>, i: nat, n: nat)
    requires n <= |m|
    decreases n - i
  {
    if i >= n then false
    else if m[i] != BACKSLASH then Full(m, i + 1, n)
    else if i + 1 == n then true
    else
      var r := CEscape(m, i + 1, n);
      r.next <= n && |r.out| == r.next - i && Full(m, r.next, n)
  }

  /**
   * The result needs more bytes than its source has, and then one more, exactly when the source is
   * full and the byte after it is an x or a digit.
   */
  lemma {:induction false} CUnquoteFits(m: seq<byte>, i: nat, n: nat)
    requires i <= n <= |m|
    ensures |CUnquote(m, i, n)| <= n - i + 1
    ensures |CUnquote(m, i, n)| > n - i <==> Full(m, i, n) && Extends(Peek(m, n))
    decreases n - i
  {
    hide Number, UnquoteChar;
    if i < n {
      if m[i] != BACKSLASH {
        CUnquoteFits(m, i + 1, n);
      } else {
        var r := CEscape(m, i + 1, n);
        if i + 1 == n {
          Ended(m, r.next, n);
        } else if r.next <= n {
          CUnquoteFits(m, r.next, n);
        } else {
          Ended(m, r.next, n);
          PastEnd(m, i + 1, n);
        }
      }
    }
  }

  /** Only a number reaches past the end, and it yields one byte. */
  lemma PastEnd(m: seq<byte>, i: nat, n: nat)
    requires i < n <= |m| && CEscape(m, i, n).next > n
    ensures |CEscape(m, i, n).out| == 1
  {
    hide Number, UnquoteChar;
  }

  /** A lone backslash with an x or a digit behind it makes two bytes out of one. */
  lemma CUnquoteOverflows(c: byte)
    requires Extends(c)
    ensures |CUnquote([BACKSLASH, c], 0, 1)| == 2
  {
    CUnquoteFits([BACKSLASH, c], 0, 1);
  }

  /** An escape before it that shrinks leaves room. */
  lemma ShrunkBefore()
    ensures |CUnquote([BACKSLASH, 110, BACKSLASH, LOWER_X], 0, 3)| <= 3
  {
    var m := [BACKSLASH, 110, BACKSLASH, LOWER_X];
    assert CEscape(m, 1, 3) == Step([UnquoteChar(110)], 2);
    assert !Full(m, 0, 3);
    CUnquoteFits(m, 0, 3);
  }

  lemma {:induction false} ShUnquoteFits(m: seq<byte>, i: nat, n: nat)
    requires i <= n <= |m|
    ensures |ShUnquote(m, i, n)| <= n - i
    decreases n - i
  {
    if i + 1 < n {
      ShUnquoteFits(m, i + if m[i] == BACKSLASH then 2 else 1, n);
    }
  }

  lemma PlainByte(m: seq<byte>, i: nat, n: nat)
    requires i < n <= |m| && m[i] != BACKSLASH
    ensures CUnquote(m, i, n) == [m[i]] + CUnquote(m, i + 1, n)
  {
  }

  /** A backslash before a byte that does not start a number. */
  lemma PairOfBytes(m: seq<byte>, i: nat, n: nat)
    requires i + 2 <= n <= |m| && m[i] == BACKSLASH && !Extends(m[i + 1])
    ensures CUnquote(m, i, n) == [UnquoteChar(m[i + 1])] + CUnquote(m, i + 2, n)
  {
    hide UnquoteChar;
    assert CEscape(m, i + 1, n) == Step([UnquoteChar(m[i + 1])], i + 2);
  }

  lemma OctalCode(m: seq<byte>, i: nat, c: byte, n: nat)
    requires i + 4 <= n <= |m| && m[i] == BACKSLASH && m[i + 1..i + 4] == OctalDigits(c)
    ensures CUnquote(m, i, n) == [c] + CUnquote(m, i + 4, n)
  {
    hide Number, UnquoteChar;
    OctalNumber(m, i + 1, c);
    assert m[i + 1] == OctalDigits(c)[0];
    assert CEscape(m, i + 1, n) == Step([c], i + 4);
  }

  /** Where the quoter wrote c, the unquoter reads c. */
  lemma QuotedByte(m: seq<byte>, i: nat, c: byte, n: nat)
    requires i + |QuoteByte(c, false)| <= n <= |m| && m[i..i + |QuoteByte(c, false)|] == QuoteByte(c, false)
    ensures CUnquote(m, i, n) == [c] + CUnquote(m, i + |QuoteByte(c, false)|, n)
  {
    hide CUnquote, UnquoteChar, QuoteChar;
    var q := QuoteByte(c, false);
    assert m[i] == q[0];
    if c == DQUOTE {
      assert m[i + 1] == q[1];
      PairOfBytes(m, i, n);
      DquoteIsItself();
    } else if Verbatim(c) {
      PlainByte(m, i, n);
    } else if QuoteChar(c).Some? {
      assert m[i + 1] == q[1];
      LettersAreInverse(c);
      PairOfBytes(m, i, n);
    } else {
      assert m[i + 1..i + 4] == m[i..i + 4][1..];
      OctalCode(m, i, c, n);
    }
  }

  lemma DquoteIsItself()
    ensures UnquoteChar(DQUOTE) == DQUOTE
  {
    assert LetterFrom(DQUOTE, 8) == DQUOTE;
  }

  lemma OctalNumber(m: seq<byte>, i: nat, c: byte)
    requires i + 3 <= |m| && m[i..i + 3] == OctalDigits(c)
    ensures Number(m, i, 8, 3, 0) == (c, 3)
  {
    var d := OctalDigits(c);
    assert m[i] == d[0] && m[i + 1] == d[1] && m[i + 2] == d[2];
    assert Number(m, i + 3, 8, 0, c) == (c, 0);
    assert c == (c / 64 * 8 + c / 8 % 8) * 8 + c % 8;
    assert Number(m, i + 2, 8, 1, c / 64 * 8 + c / 8 % 8) == (c, 1);
    assert Number(m, i + 1, 8, 2, c / 64) == (c, 2);
  }

  // ---- what escapes there are ----

  /** No number of this base goes on with c: neither a digit nor the NUL that passes for one. */
  predicate EndsNumber(c: byte, base: nat) { c != NUL && forall d :: 0 <= d < base ==> !Digit(c, d) }

  /** What a text is made of: plain bytes, escape letters, numbers, and pairs that are no escapes. */
  datatype Token =
    | Itself(b: byte)
    | Letter(e: byte, v: byte)
    | Hex(x: byte, cs: seq<byte>, ds: seq<nat>)
    | Octal(cs: seq<byte>, ds: seq<nat>)
    | NoEscape(c: byte)
  {
    function Show(): (r: seq<byte>)
      ensures r != []
    {
      match this
      case Itself(b) => [b]
      case Letter(e, _) => [BACKSLASH, e]
      case Hex(x, cs, _) => [BACKSLASH, x] + cs
      case Octal(cs, _) => [BACKSLASH] + cs
      case NoEscape(c) => [BACKSLASH, c]
    }

    function Meaning(): seq<byte> {
      match this
      case Itself(b) => [b]
      case Letter(_, v) => [v]
      case Hex(_, _, ds) => [Positional(ds, 16) % 256]
      case Octal(_, ds) => [Positional(ds, 8) % 256]
      case NoEscape(c) => [BACKSLASH, c]
    }

    /** It can stand before the byte next. */
    predicate Before(next: byte) {
      match this
      case Itself(b) => b != BACKSLASH
      case Letter(e, v) => Stands(e, v) || (v == e && NoLetter(e) && !Extends(e))
      case Hex(x, cs, ds) =>
        && (x == 'x' as int || x == 'X' as int)
        && (|cs| == 2 || (|cs| == 1 && EndsNumber(next, 16))) && AreDigits(cs, ds, 16)
      case Octal(cs, ds) => (|cs| == 3 || (0 < |cs| < 3 && EndsNumber(next, 8))) && AreDigits(cs, ds, 8)
      case NoEscape(c) =>
        || c == '8' as int || c == '9' as int
        || ((c == 'x' as int || c == 'X' as int) && EndsNumber(next, 16))
    }
  }

  predicate AreDigits(cs: seq<byte>, ds: seq<nat>, base: nat) {
    |cs| == |ds| && forall k :: 0 <= k < |cs| ==> ds[k] < base && Digit(cs[k], ds[k])
  }

  function Positional(ds: seq<nat>, base: nat): nat {
    if ds == [] then 0 else Positional(ds[..|ds| - 1], base) * base + ds[|ds| - 1]
  }

  function ShowTokens(ts: seq<Token>): seq<byte> { if ts == [] then [] else ts[0].Show() + ShowTokens(ts[1..]) }

  function Meanings(ts: seq<Token>): seq<byte> { if ts == [] then [] else ts[0].Meaning() + Meanings(ts[1..]) }

  /** From i to n, m holds the tokens, each of them in its place. */
  predicate Reads(m: seq<byte>, i: nat, n: nat, ts: seq<Token>)
    requires n <= |m|
    decreases |ts|
  {
    if ts == [] then i == n
    else
      var next := i + |ts[0].Show()|;
      next <= n && m[i..next] == ts[0].Show() && ts[0].Before(Peek(m, next)) && Reads(m, next, n, ts[1..])
  }

  lemma DigitIsNum(c: byte, d: nat, base: nat)
    requires d < base <= 16 && Digit(c, d)
    ensures IsNum(c, base) && ToNum(c) == d
  {
  }

  lemma NumberEnds(c: byte, base: nat)
    requires EndsNumber(c, base) && base <= 16
    ensures !IsNum(c, base)
  {
    if c <= 127 && 0 <= ToNum(c) < 16 {
      assert Digit(c, ToNum(c));
    }
  }

  lemma NumberStep(m: seq<byte>, i: nat, base: nat, cnt: nat, val: int)
    ensures Number(m, i, base, cnt, val) ==
              if cnt == 0 || !IsNum(Peek(m, i), base) then (val, 0)
              else
                var r := Number(m, i + 1, base, cnt - 1, val * base + ToNum(Peek(m, i)));
                (r.0, r.1 + 1)
  {
  }

  /** The digits of a number are read up to the last one that it can have or to the first other byte. */
  lemma {:induction false} DigitsRead(m: seq<byte>, i: nat, cs: seq<byte>, ds: seq<nat>, base: nat, cnt: nat, k: nat)
    requires i + |cs| <= |m| && m[i..i + |cs|] == cs && AreDigits(cs, ds, base) && base <= 16 && k <= |cs| <= cnt
    requires |cs| == cnt || EndsNumber(Peek(m, i + |cs|), base)
    ensures Number(m, i + k, base, cnt - k, Positional(ds[..k], base)) == (Positional(ds, base), |cs| - k)
    decreases |cs| - k
  {
    hide Digit, EndsNumber, IsNum, ToNum, Number;
    NumberStep(m, i + k, base, cnt - k, Positional(ds[..k], base));
    if k == |cs| {
      assert ds[..k] == ds;
      if |cs| < cnt {
        NumberEnds(Peek(m, i + |cs|), base);
      }
    } else {
      assert m[i + k] == cs[k];
      DigitIsNum(cs[k], ds[k], base);
      DigitsRead(m, i, cs, ds, base, cnt, k + 1);
      assert ds[..k + 1][..k] == ds[..k] && ds[..k + 1][k] == ds[k];
    }
  }

  lemma TokenRead(m: seq<byte>, i: nat, n: nat, t: Token)
    requires i + |t.Show()| <= n <= |m| && m[i..i + |t.Show()|] == t.Show() && t.Before(Peek(m, i + |t.Show()|))
    ensures CUnquote(m, i, n) == t.Meaning() + CUnquote(m, i + |t.Show()|, n)
  {
    hide Number, UnquoteChar, CUnquote;
    var q := t.Show();
    assert m[i] == q[0] && (|q| > 1 ==> m[i + 1] == q[1]);
    match t
    case Itself(_) => PlainByte(m, i, n);
    case Letter(e, v) =>
      EscapeLetters(e, v);
      assert !Extends(e);
      PairOfBytes(m, i, n);
    case Hex(_, cs, ds) =>
      assert m[i + 2..i + 2 + |cs|] == q[2..] == cs;
      HexRead(m, i, n, cs, ds);
    case Octal(cs, ds) =>
      assert m[i + 1..i + 1 + |cs|] == q[1..] == cs;
      OctalStart(cs[0], ds[0]);
      OctalRead(m, i, n, cs, ds);
    case NoEscape(c) =>
      NotRead(m, i, n, c);
      EscapeRead(m, i, n);
  }

  lemma HexRead(m: seq<byte>, i: nat, n: nat, cs: seq<byte>, ds: seq<nat>)
    requires i + 2 + |cs| <= n <= |m| && m[i] == BACKSLASH && (m[i + 1] == LOWER_X || m[i + 1] == UPPER_X)
    requires m[i + 2..i + 2 + |cs|] == cs && AreDigits(cs, ds, 16)
    requires |cs| == 2 || (|cs| == 1 && EndsNumber(Peek(m, i + 2 + |cs|), 16))
    ensures CUnquote(m, i, n) == [Positional(ds, 16) % 256] + CUnquote(m, i + 2 + |cs|, n)
  {
    hide Number, UnquoteChar, CUnquote, Positional, AreDigits, EndsNumber;
    NoDigits(ds, 16);
    DigitsRead(m, i + 2, cs, ds, 16, 2, 0);
    EscapeRead(m, i, n);
  }

  lemma OctalRead(m: seq<byte>, i: nat, n: nat, cs: seq<byte>, ds: seq<nat>)
    requires i + 1 + |cs| <= n <= |m| && m[i] == BACKSLASH && i + 1 < n && IsDigit(m[i + 1])
    requires m[i + 1..i + 1 + |cs|] == cs && AreDigits(cs, ds, 8)
    requires |cs| == 3 || (0 < |cs| < 3 && EndsNumber(Peek(m, i + 1 + |cs|), 8))
    ensures CUnquote(m, i, n) == [Positional(ds, 8) % 256] + CUnquote(m, i + 1 + |cs|, n)
  {
    hide Number, UnquoteChar, CUnquote, Positional, AreDigits, EndsNumber, CEscape, IsDigit, Peek;
    NoDigits(ds, 8);
    DigitsRead(m, i + 1, cs, ds, 8, 3, 0);
    OctalStep(m, i + 1, n);
    EscapeRead(m, i, n);
  }

  lemma OctalStep(m: seq<byte>, i: nat, n: nat)
    requires i < n <= |m| && IsDigit(m[i]) && Number(m, i, 8, 3, 0).1 > 0
    ensures var r := Number(m, i, 8, 3, 0); CEscape(m, i, n) == Step([r.0 % 256], i + r.1)
  {
    hide Number, UnquoteChar;
  }

  lemma NoDigits(ds: seq<nat>, base: nat)
    ensures Positional(ds[..0], base) == 0
  {
  }

  lemma OctalStart(c: byte, d: nat)
    requires d < 8 && Digit(c, d)
    ensures IsDigit(c)
  {
  }

  lemma EscapeRead(m: seq<byte>, i: nat, n: nat)
    requires i < n <= |m| && m[i] == BACKSLASH
    ensures var r := CEscape(m, i + 1, n); CUnquote(m, i, n) == r.out + CUnquote(m, r.next, n)
  {
  }

  lemma NotRead(m: seq<byte>, i: nat, n: nat, c: byte)
    requires i + 2 <= n <= |m| && m[i + 1] == c && NoEscape(c).Before(Peek(m, i + 2))
    ensures CEscape(m, i + 1, n) == Step([BACKSLASH, c], i + 2)
  {
    if c == 'x' as int || c == 'X' as int {
      NumberEnds(Peek(m, i + 2), 16);
    }
  }

  /**
   * Every text made of plain bytes, escapes and other pairs is unquoted byte by byte and escape by
   * escape: letters as in C, one or two hexadecimal digits behind an x, one to three octal ones.
   */
  lemma {:induction false} TokensRead(m: seq<byte>, i: nat, n: nat, ts: seq<Token>)
    requires n <= |m| && Reads(m, i, n, ts)
    ensures CUnquote(m, i, n) == Meanings(ts)
    decreases |ts|
  {
    hide CUnquote;
    if ts == [] {
      Ended(m, i, n);
    } else {
      TokenRead(m, i, n, ts[0]);
      TokensRead(m, i + |ts[0].Show()|, n, ts[1..]);
    }
  }

  // ---- shell-like escapes ----

  /** Every byte that is marked, with a backslash before it. */
  function ShMarked(s: seq<byte>, marked: seq<bool>): seq<byte>
    requires |s| == |marked|
  {
    if s == [] then []
    else (if marked[0] then [BACKSLASH, s[0]] else [s[0]]) + ShMarked(s[1..], marked[1..])
  }

  /** Shell-like unquoting takes away one backslash before any byte, and nothing else. */
  lemma {:induction false} ShRoundTrip(m: seq<byte>, i: nat, s: seq<byte>, marked: seq<bool>)
    requires |s| == |marked| && forall k :: 0 <= k < |s| && s[k] == BACKSLASH ==> marked[k]
    requires i + |ShMarked(s, marked)| <= |m| && m[i..i + |ShMarked(s, marked)|] == ShMarked(s, marked)
    ensures ShUnquote(m, i, i + |ShMarked(s, marked)|) == s
    decreases |s|
  {
    if s != [] {
      var q, rest := if marked[0] then [BACKSLASH, s[0]] else [s[0]], ShMarked(s[1..], marked[1..]);
      var n := i + |q| + |rest|;
      assert m[i..i + |q|] == m[i..n][..|q|] == q;
      assert m[i + |q|..n] == m[i..n][|q|..] == rest;
      assert m[i] == q[0] && (marked[0] ==> m[i + 1] == q[1]);
      ShRoundTrip(m, i + |q|, s[1..], marked[1..]);
    }
  }

  /** Quoting with quote_hex 0 is undone, wherever the quoted text lies in memory. */
  lemma {:induction false} QuoteRoundTrip(m: seq<byte>, i: nat, s: seq<byte>)
    requires i + |CQuote(s, false)| <= |m| && m[i..i + |CQuote(s, false)|] == CQuote(s, false)
    ensures CUnquote(m, i, i + |CQuote(s, false)|) == s
    decreases |s|
  {
    hide CEscape, QuoteByte;
    if s != [] {
      var q, rest := QuoteByte(s[0], false), CQuote(s[1..], false);
      var n := i + |q| + |rest|;
      assert m[i..i + |q|] == m[i..n][..|q|] == q;
      assert m[i + |q|..n] == m[i..n][|q|..] == rest;
      QuotedByte(m, i, s[0], n);
      QuoteRoundTrip(m, i + |q|, s[1..]);
    }
  }

  /** No byte of s needs a code: what makes quoting with quote_hex 1 reversible. */
  predicate NoCodes(s: seq<byte>) { forall i :: 0 <= i < |s| ==> Verbatim(s[i]) || s[i] == DQUOTE }

  /** What the unquoter makes of one byte quoted with quote_hex 1: a code stays as it is. */
  function HexLeft(c: byte): seq<byte> { if Verbatim(c) || c == DQUOTE then [c] else HexCode(c) }

  lemma HexByte(m: seq<byte>, i: nat, c: byte, n: nat)
    requires i + |QuoteByte(c, true)| <= n <= |m| && m[i..i + |QuoteByte(c, true)|] == QuoteByte(c, true)
    ensures CUnquote(m, i, n) == HexLeft(c) + CUnquote(m, i + |QuoteByte(c, true)|, n)
  {
    hide CUnquote, UnquoteChar;
    var q := QuoteByte(c, true);
    assert forall j :: 0 <= j < |q| ==> m[i + j] == q[j];
    if c == DQUOTE {
      PairOfBytes(m, i, n);
      DquoteIsItself();
    } else if Verbatim(c) {
      PlainByte(m, i, n);
    } else {
      PlainByte(m, i, n);
      PlainByte(m, i + 1, n);
      PlainByte(m, i + 2, n);
    }
  }

  lemma {:induction false} HexText(m: seq<byte>, i: nat, s: seq<byte>)
    requires i + |CQuote(s, true)| <= |m| && m[i..i + |CQuote(s, true)|] == CQuote(s, true)
    ensures |CUnquote(m, i, i + |CQuote(s, true)|)| >= |s|
    ensures |CUnquote(m, i, i + |CQuote(s, true)|)| == |s| <==> NoCodes(s)
    ensures NoCodes(s) ==> CUnquote(m, i, i + |CQuote(s, true)|) == s
    decreases |s|
  {
    hide CEscape, CUnquote, QuoteByte, Verbatim, NoCodes, HexLeft;
    NoCodesFirst(s);
    if s == [] {
      Ended(m, i, i);
    } else {
      var q, rest := QuoteByte(s[0], true), CQuote(s[1..], true);
      var n := i + |q| + |rest|;
      assert m[i..i + |q|] == m[i..n][..|q|] == q;
      assert m[i + |q|..n] == m[i..n][|q|..] == rest;
      HexByte(m, i, s[0], n);
      HexLeftSize(s[0]);
      HexText(m, i + |q|, s[1..]);
    }
  }

  lemma NoCodesFirst(s: seq<byte>)
    ensures NoCodes(s) <==> s == [] || ((Verbatim(s[0]) || s[0] == DQUOTE) && NoCodes(s[1..]))
  {
    hide Verbatim;
  }

  lemma HexLeftSize(c: byte)
    ensures if Verbatim(c) || c == DQUOTE then HexLeft(c) == [c] else |HexLeft(c)| == 3
  {
  }

  /** With quote_hex 1 the unquoter restores exactly the strings that needed no %XX code. */
  lemma HexRoundTrip(s: seq<byte>)
    ensures CUnquote(CQuote(s, true), 0, |CQuote(s, true)|) == s <==> NoCodes(s)
  {
    var q := CQuote(s, true);
    assert q[0..|q|] == q;
    HexText(q, 0, s);
  }

  // ---- what follows the text in memory ----

  /** Texts that begin alike are full alike: what follows them does not matter. */
  lemma {:induction false} FullAgrees(m: seq<byte>, m': seq<byte>, i: nat, n: nat)
    requires n <= |m| && n <= |m'| && m[..n] == m'[..n]
    ensures Full(m, i, n) == Full(m', i, n)
    decreases n - i
  {
    hide CEscape;
    if i < n {
      assert m[i] == m[..n][i] == m'[i];
      if m[i] != BACKSLASH {
        FullAgrees(m, m', i + 1, n);
      } else if i + 1 < n {
        ShapeAgrees(m, m', i + 1, n);
        var r := CEscape(m, i + 1, n);
        if r.next <= n && |r.out| == r.next - i {
          FullAgrees(m, m', r.next, n);
        }
      }
    }
  }

  /** Whether an escape keeps its length is settled by its own first two bytes. */
  lemma ShapeAgrees(m: seq<byte>, m': seq<byte>, i: nat, n: nat)
    requires i < n <= |m| && n <= |m'| && m[..n] == m'[..n]
    ensures var r, r' := CEscape(m, i, n), CEscape(m', i, n);
            |r.out| == r.next - i + 1 || |r'.out| == r'.next - i + 1 ==> r.next == r'.next && |r.out| == |r'.out|
  {
    hide Number, UnquoteChar;
    assert forall j :: 0 <= j < n ==> m[j] == m[..n][j] == m'[j];
    FirstDigit(m, m', i, n);
  }

  lemma FirstDigit(m: seq<byte>, m': seq<byte>, i: nat, n: nat)
    requires i < n <= |m| && n <= |m'| && forall j :: 0 <= j < n ==> m[j] == m'[j]
    ensures i + 1 < n ==> (Number(m, i + 1, 16, 2, 0).1 == 0 <==> Number(m', i + 1, 16, 2, 0).1 == 0)
    ensures Number(m, i, 8, 3, 0).1 == 0 <==> Number(m', i, 8, 3, 0).1 == 0
  {
  }

  /** When unquoting the n bytes of s needs more than n bytes, whatever follows s in memory. */
  lemma UnquoteRoom(s: seq<byte>, rest: seq<byte>)
    ensures |CUnquote(s + rest, 0, |s|)| > |s| <==> Full(s, 0, |s|) && Extends(Peek(rest, 0))
  {
    assert (s + rest)[..|s|] == s[..|s|] == s;
    FullAgrees(s, s + rest, 0, |s|);
    CUnquoteFits(s + rest, 0, |s|);
  }

  /** A number that starts at i and may take cnt digits would take more than the text has. */
  predicate CutShort(m: seq<byte>, i: nat, n: nat, base: nat, cnt: nat)
    requires n <= |m|
    decreases cnt
  {
    cnt > 0 && (i >= n || (IsNum(m[i], base) && CutShort(m, i + 1, n, base, cnt - 1)))
  }

  /** The escape with the letter at i is a number with digits still to take at the end of the text. */
  predicate NumberCut(m: seq<byte>, i: nat, n: nat)
    requires i < n <= |m|
  {
    if m[i] == LOWER_X || m[i] == UPPER_X then n - i >= 2 && CutShort(m, i + 1, n, 16, 2)
    else IsDigit(m[i]) && CutShort(m, i, n, 8, 3)
  }

  /** From i on no lone backslash and no number with digits still to take reaches the end of the text. */
  predicate Complete(m: seq<byte>, i: nat, n: nat)
    requires n <= |m|
    decreases if i < n then n - i else 0
  {
    if i >= n then i == n
    else if m[i] != BACKSLASH then Complete(m, i + 1, n)
    else i + 1 < n && !NumberCut(m, i + 1, n) && Complete(m, CEscape(m, i + 1, n).next, n)
  }

  lemma {:induction false} NumberAgrees(m: seq<byte>, m': seq<byte>, i: nat, n: nat, base: nat, cnt: nat, val: int)
    requires i <= n <= |m| && n <= |m'| && m[..n] == m'[..n] && !CutShort(m, i, n, base, cnt)
    ensures Number(m, i, base, cnt, val) == Number(m', i, base, cnt, val)
    ensures i + Number(m, i, base, cnt, val).1 <= n
    decreases cnt
  {
    if cnt > 0 {
      assert m[i] == m[..n][i] == m'[i];
      if IsNum(m[i], base) {
        NumberAgrees(m, m', i + 1, n, base, cnt - 1, val * base + ToNum(m[i]));
      }
    }
  }

  lemma EscapeAgrees(m: seq<byte>, m': seq<byte>, i: nat, n: nat)
    requires i < n <= |m| && n <= |m'| && m[..n] == m'[..n] && !NumberCut(m, i, n)
    ensures CEscape(m, i, n) == CEscape(m', i, n) && CEscape(m, i, n).next <= n
  {
    hide Number, CutShort, UnquoteChar;
    assert m[i] == m[..n][i] == m'[i];
    if m[i] == LOWER_X || m[i] == UPPER_X {
      if n - i >= 2 {
        NumberAgrees(m, m', i + 1, n, 16, 2, 0);
      }
    } else if IsDigit(m[i]) {
      NumberAgrees(m, m', i, n, 8, 3, 0);
    }
  }

  lemma {:induction false} CompleteAgrees(m: seq<byte>, m': seq<byte>, i: nat, n: nat)
    requires n <= |m| && n <= |m'| && m[..n] == m'[..n] && Complete(m, i, n)
    ensures CUnquote(m, i, n) == CUnquote(m', i, n)
    decreases if i < n then n - i else 0
  {
    hide CEscape, NumberCut;
    if i < n {
      assert m[i] == m[..n][i] == m'[i];
      if m[i] != BACKSLASH {
        CompleteAgrees(m, m', i + 1, n);
      } else {
        EscapeAgrees(m, m', i + 1, n);
        CompleteAgrees(m, m', CEscape(m, i + 1, n).next, n);
      }
    }
  }

  const ONE: byte := 49

  /** A number that is cut short takes one digit more when a 1 follows than when a space follows. */
  lemma {:induction false} CutNumbers(s: seq<byte>, i: nat, base: nat, cnt: nat, val: int)
    requires i <= |s| && CutShort(s, i, |s|, base, cnt) && 2 <= base <= 16
    ensures var r := Number(s + [SPACE], i, base, cnt, val);
            && r.1 == |s| - i < cnt
            && Number(s + [ONE, SPACE], i, base, cnt, val) == (r.0 * base + 1, r.1 + 1)
    decreases cnt
  {
    if i < |s| {
      CutNumbers(s, i + 1, base, cnt - 1, val * base + ToNum(s[i]));
    } else {
      var m := s + [ONE, SPACE];
      assert Number(m, i + 1, base, cnt - 1, val * base + 1) == (val * base + 1, 0);
    }
  }

  /** The two numbers differ as bytes. */
  lemma CutBytes(s: seq<byte>, i: nat)
    requires i < |s| && NumberCut(s, i, |s|)
    ensures var m, m' := s + [SPACE], s + [ONE, SPACE];
            && CEscape(m, i, |s|).next == |s| && CEscape(m', i, |s|).next == |s| + 1
            && CEscape(m, i, |s|).out != CEscape(m', i, |s|).out
  {
    hide CutShort, UnquoteChar;
    var m, m', n := s + [SPACE], s + [ONE, SPACE], |s|;
    if s[i] == LOWER_X || s[i] == UPPER_X {
      CutNumbers(s, i + 1, 16, 2, 0);
      var v := Number(m, i + 1, 16, 2, 0).0;
      HexCutValue(s, i + 1);
      Differ(v, 16);
    } else {
      CutNumbers(s, i, 8, 3, 0);
      var v := Number(m, i, 8, 3, 0).0;
      OctalCutValue(s, i);
      Differ(v, 8);
    }
  }

  /** The numbers a cut code can have: a NUL among the digits counts as -55. */
  predicate CutValue(v: int, base: nat) {
    if base == 16 then 0 <= v < 16 || v == -55
    else 0 <= v < 64 || (-55 <= v <= 1 && (v + 55) % 8 == 0)
  }

  lemma Differ(v: int, base: nat)
    requires (base == 16 || base == 8) && CutValue(v, base)
    ensures v % 256 != (v * base + 1) % 256
  {
  }

  lemma HexCutValue(s: seq<byte>, i: nat)
    requires i < |s| && CutShort(s, i, |s|, 16, 2)
    ensures CutValue(Number(s + [SPACE], i, 16, 2, 0).0, 16)
  {
    assert i + 1 == |s|;
    assert Number(s + [SPACE], i + 1, 16, 1, ToNum(s[i])) == (ToNum(s[i]), 0);
  }

  lemma OctalCutValue(s: seq<byte>, i: nat)
    requires i < |s| && IsDigit(s[i]) && CutShort(s, i, |s|, 8, 3)
    ensures CutValue(Number(s + [SPACE], i, 8, 3, 0).0, 8)
  {
    var m := s + [SPACE];
    if i + 1 == |s| {
      assert Number(m, i + 1, 8, 2, ToNum(s[i])) == (ToNum(s[i]), 0);
    } else {
      assert CutShort(s, i + 1, |s|, 8, 2) && CutShort(s, i + 2, |s|, 8, 1);
      assert i + 2 == |s|;
      assert Number(m, i + 2, 8, 1, ToNum(s[i]) * 8 + ToNum(s[i + 1])) == (ToNum(s[i]) * 8 + ToNum(s[i + 1]), 0);
      assert Number(m, i + 1, 8, 2, ToNum(s[i])) == (ToNum(s[i]) * 8 + ToNum(s[i + 1]), 1);
    }
  }

  /** A text that is not complete reads differently with different bytes after it. */
  lemma {:induction false} IncompleteDiffers(s: seq<byte>, i: nat) returns (r: seq<byte>, r': seq<byte>)
    requires i <= |s| && !Complete(s, i, |s|)
    ensures CUnquote(s + r, i, |s|) != CUnquote(s + r', i, |s|)
    decreases |s| - i
  {
    hide CEscape, NumberCut;
    var n := |s|;
    if s[i] != BACKSLASH {
      r, r' := IncompleteDiffers(s, i + 1);
      SamePlain(s, r, r', i);
    } else if i + 1 == n {
      r, r' := [SPACE], [97];
      LoneBackslash(s);
    } else if NumberCut(s, i + 1, n) {
      r, r' := [SPACE], [ONE, SPACE];
      CutBytes(s, i + 1);
      Ended(s + r, n, n);
      Ended(s + r', n + 1, n);
      CUnquoteStep(s + r, i, n);
      CUnquoteStep(s + r', i, n);
      var out, out' := CEscape(s + r, i + 1, n).out, CEscape(s + r', i + 1, n).out;
      assert out + [] == out && out' + [] == out';
    } else {
      EscapeAgrees(s, s, i + 1, n);
      var e := CEscape(s, i + 1, n);
      r, r' := IncompleteDiffers(s, e.next);
      SameEscape(s, r, i);
      SameEscape(s, r', i);
    }
  }

  lemma SamePlain(s: seq<byte>, r: seq<byte>, r': seq<byte>, i: nat)
    requires i < |s| && s[i] != BACKSLASH && CUnquote(s + r, i + 1, |s|) != CUnquote(s + r', i + 1, |s|)
    ensures CUnquote(s + r, i, |s|) != CUnquote(s + r', i, |s|)
  {
    CUnquoteStep(s + r, i, |s|);
    CUnquoteStep(s + r', i, |s|);
    assert CUnquote(s + r, i, |s|)[1..] == CUnquote(s + r, i + 1, |s|);
    assert CUnquote(s + r', i, |s|)[1..] == CUnquote(s + r', i + 1, |s|);
  }

  lemma SameEscape(s: seq<byte>, r: seq<byte>, i: nat)
    requires i + 1 < |s| && s[i] == BACKSLASH && !NumberCut(s, i + 1, |s|)
    ensures var e := CEscape(s, i + 1, |s|);
            && CUnquote(s + r, i, |s|) == e.out + CUnquote(s + r, e.next, |s|)
            && CUnquote(s + r, i, |s|)[|e.out|..] == CUnquote(s + r, e.next, |s|)
  {
    hide CEscape, NumberCut;
    assert (s + r)[..|s|] == s[..|s|];
    EscapeAgrees(s, s + r, i + 1, |s|);
    CUnquoteStep(s + r, i, |s|);
  }

  lemma LoneBackslash(s: seq<byte>)
    requires s != [] && s[|s| - 1] == BACKSLASH
    ensures CUnquote(s + [SPACE], |s| - 1, |s|) == [SPACE] && CUnquote(s + [97], |s| - 1, |s|) == [7]
  {
    hide CUnquote, UnquoteChar;
    BackslashAtEnd(s + [SPACE], |s|);
    BackslashAtEnd(s + [97], |s|);
    SpaceAndA();
  }

  lemma BackslashAtEnd(m: seq<byte>, n: nat)
    requires 0 < n <= |m| && m[n - 1] == BACKSLASH && !Extends(Peek(m, n))
    ensures CUnquote(m, n - 1, n) == [UnquoteChar(Peek(m, n))]
  {
    hide UnquoteChar, CUnquote;
    assert CEscape(m, n, n) == Step([UnquoteChar(Peek(m, n))], n + 1);
    CUnquoteStep(m, n - 1, n);
    Ended(m, n + 1, n);
  }

  lemma SpaceAndA()
    ensures UnquoteChar(SPACE) == SPACE && UnquoteChar(97) == 7
  {
    assert LetterFrom(SPACE, 8) == SPACE;
  }

  /** What unquoting s yields does not depend on what follows s in memory. */
  ghost predicate Independent(s: seq<byte>) {
    forall r, r' :: CUnquote(s + r, 0, |s|) == CUnquote(s + r', 0, |s|)
  }

  /** Exactly the complete texts are unquoted the same whatever follows them. */
  lemma IndependentExactly(s: seq<byte>)
    ensures Independent(s) <==> Complete(s, 0, |s|)
  {
    hide Complete, CUnquote;
    if Complete(s, 0, |s|) {
      forall r, r'
        ensures CUnquote(s + r, 0, |s|) == CUnquote(s + r', 0, |s|)
      {
        CompleteWith(s, r);
        CompleteWith(s, r');
      }
    } else {
      var r, r' := IncompleteDiffers(s, 0);
    }
  }

  lemma CompleteWith(s: seq<byte>, r: seq<byte>)
    requires Complete(s, 0, |s|)
    ensures CUnquote(s + r, 0, |s|) == CUnquote(s, 0, |s|)
  {
    hide Complete, CUnquote;
    assert (s + r)[..|s|] == s[..|s|];
    CompleteAgrees(s, s + r, 0, |s|);
  }

  /** The quoter writes complete texts only. */
  lemma QuotedIsComplete(s: seq<byte>)
    ensures Complete(CQuote(s, false), 0, |CQuote(s, false)|)
  {
    hide CQuote, CUnquote, Complete;
    var q := CQuote(s, false);
    forall r
      ensures CUnquote(q + r, 0, |q|) == s
    {
      assert (q + r)[0..0 + |q|] == q;
      QuoteRoundTrip(q + r, 0, s);
    }
    IndependentExactly(q);
  }

  /** A hexadecimal code cut short by the end of a C string takes the NUL for a digit. */
  lemma CutShortMisread()
    ensures CUnquote([BACKSLASH, LOWER_X, ONE, NUL], 0, 3) == [217]
    ensures CUnquote([BACKSLASH, LOWER_X, ONE, SPACE], 0, 3) == [1]
  {
    var m, m' := [BACKSLASH, LOWER_X, ONE, NUL], [BACKSLASH, LOWER_X, ONE, SPACE];
    assert Number(m, 4, 16, 0, -39) == (-39, 0);
    assert Number(m, 3, 16, 1, 1) == (-39, 1);
    assert CEscape(m, 1, 3) == Step([217], 4);
    assert Number(m', 3, 16, 1, 1) == (1, 0);
    assert CEscape(m', 1, 3) == Step([1], 3);
  }

  // ---- the unquoters as they run ----

  /** src still holds m from i on. */
  ghost predicate Ahead(src: array<byte>, m: seq<byte>, i: nat)
    reads src
  {
    |m| == src.Length && forall j :: i <= j < |m| ==> src[j] == m[j]
  }

  /** dst, once was, has received done, and src still holds m from i on. */
  ghost predicate Copied(dst: array<byte>, src: array<byte>, m: seq<byte>, was: seq<byte>, done: seq<byte>, i: nat)
    reads dst, src
  {
    |was| == dst.Length && |done| <= dst.Length && dst[..] == done + was[|done|..] && Ahead(src, m, i)
  }

  /** Storing bytes below the next read index keeps the copy in step, even in place. */
  method Store(dst: array<byte>, src: array<byte>, k: nat, out: seq<byte>, ghost i: nat, ghost next: nat,
               ghost m: seq<byte>, ghost was: seq<byte>, ghost done: seq<byte>)
    returns (k': nat)
    requires Copied(dst, src, m, was, done, i) && k == |done|
    requires i <= next && k + |out| <= next && k + |out| < dst.Length
    modifies dst
    ensures k' == k + |out| && Copied(dst, src, m, was, done + out, next) && Ahead(src, m, next)
  {
    k' := Put(dst, k, out);
    Spliced(done, out, was);
    if dst == src {
      forall j | next <= j < |m|
        ensures src[j] == m[j]
      {
        assert dst[..][j] == was[j];
      }
    }
  }

  /** *(unsigned char *) src */
  method Look(src: array<byte>, i: nat, ghost m: seq<byte>) returns (c: byte)
    requires Ahead(src, m, i)
    ensures c == Peek(m, i)
  {
    c := if i < src.Length then src[i] else NUL;
  }

  /** xtonum */
  method XToNum(src: array<byte>, i: nat, base: nat, cnt: nat, ghost m: seq<byte>) returns (val: int, off: nat)
    requires Ahead(src, m, i)
    ensures (val, off) == Number(m, i, base, cnt, 0)
  {
    val, off := 0, 0;
    while off < cnt
      invariant off <= cnt
      invariant var r := Number(m, i + off, base, cnt - off, val);
                Number(m, i, base, cnt, 0) == (r.0, r.1 + off)
    {
      var c := Look(src, i + off, m);
      if c > 127 || ToNum(c) >= base {
        return;
      }
      val := val * base + ToNum(c);
      off := off + 1;
    }
  }

  /** The part of wordsplit_c_unquote_copy after a backslash: what to store, and the new index. */
  method Escape(src: array<byte>, i: nat, n: nat, ghost m: seq<byte>) returns (out: seq<byte>, next: nat)
    requires Ahead(src, m, i) && i <= n
    ensures Step(out, next) == CEscape(m, i, n)
  {
    hide Number, UnquoteChar;
    var c := Look(src, i, m);
    out, next := [BACKSLASH, c], i + 1;
    if c == LOWER_X || c == UPPER_X {
      if n - i >= 2 {
        var val, off := XToNum(src, i + 1, 16, 2, m);
        if off != 0 {
          out, next := [val % 256], i + off + 1;
        }
      }
    } else if IsDigit(c) {
      if n - i >= 1 {
        var val, off := XToNum(src, i, 8, 3, m);
        if off != 0 {
          out, next := [val % 256], i + off;
        }
      }
    } else {
      var d := CUnquoteChar(c);
      out := [d];
    }
  }

  /** The terminating NUL. */
  method Terminate(dst: array<byte>, src: array<byte>, k: nat, ghost m: seq<byte>, ghost was: seq<byte>,
                   ghost done: seq<byte>, ghost i: nat)
    requires Copied(dst, src, m, was, done, i) && k == |done| < dst.Length
    modifies dst
    ensures dst[..] == done + [NUL] + was[|done| + 1..]
  {
    Spliced(done, [NUL], was);
    var _ := Put(dst, k, [NUL]);
  }

  lemma CUnquoteStep(m: seq<byte>, i: nat, n: nat)
    requires i < n <= |m|
    ensures m[i] == BACKSLASH ==>
              CUnquote(m, i, n) == CEscape(m, i + 1, n).out + CUnquote(m, CEscape(m, i + 1, n).next, n)
    ensures m[i] != BACKSLASH ==> CUnquote(m, i, n) == [m[i]] + CUnquote(m, i + 1, n)
  {
  }

  lemma ShUnquoteStep(m: seq<byte>, i: nat, n: nat)
    requires i < n <= |m|
    ensures var next := if m[i] == BACKSLASH then i + 2 else i + 1;
            ShUnquote(m, i, n) == [Peek(m, next - 1)] + ShUnquote(m, next, n)
  {
  }

  /** One piece more of the whole result r, of which rest was still to come. */
  lemma OneMore(done: seq<byte>, out: seq<byte>, rest: seq<byte>, r: seq<byte>)
    requires done + (out + rest) == r
    ensures (done + out) + rest == r && |done| + |out| <= |r|
  {
    Assoc(done, out, rest);
  }

  /** The loop of an unquoter at i has stored done, and with rest it will have stored r. */
  ghost predicate InStep(dst: array<byte>, src: array<byte>, m: seq<byte>, was: seq<byte>, done: seq<byte>,
                         i: nat, at: nat, rest: seq<byte>, r: seq<byte>)
    reads dst, src
  {
    && at <= i && |done| <= i - at && Ahead(src, m, i) && Copied(dst, src, m, was, done, i)
    && done + rest == r && |r| < dst.Length
  }

  /** Storing the next piece out of what was still to come. */
  method StoreNext(dst: array<byte>, src: array<byte>, k: nat, out: seq<byte>, ghost i: nat, ghost next: nat,
                   ghost m: seq<byte>, ghost was: seq<byte>, ghost done: seq<byte>,
                   ghost at: nat, ghost rest: seq<byte>, ghost r: seq<byte>)
    returns (k': nat)
    requires InStep(dst, src, m, was, done, i, at, out + rest, r) && k == |done|
    requires i <= next && |out| <= next - i
    modifies dst
    ensures k' == |done + out| && InStep(dst, src, m, was, done + out, next, at, rest, r)
  {
    hide Copied, Ahead;
    OneMore(done, out, rest, r);
    k' := Store(dst, src, k, out, i, next, m, was, done);
  }

  /** One turn of the loop of wordsplit_c_unquote_copy. */
  method CUnquoteTurn(dst: array<byte>, src: array<byte>, i: nat, k: nat, e: nat, ghost at: nat,
                      ghost m: seq<byte>, ghost was: seq<byte>, ghost done: seq<byte>, ghost r: seq<byte>)
    returns (next: nat, k': nat, ghost done': seq<byte>)
    requires i < e <= |m| && k == |done| && InStep(dst, src, m, was, done, i, at, CUnquote(m, i, e), r)
    modifies dst
    ensures i < next && k' == |done'| && InStep(dst, src, m, was, done', next, at, CUnquote(m, next, e), r)
  {
    hide CEscape, CUnquote, Copied, Ahead;
    CUnquoteStep(m, i, e);
    var c := Look(src, i, m);
    var out;
    out, next := [c], i + 1;
    if c == BACKSLASH {
      AheadOn(src, m, i);
      out, next := Escape(src, i + 1, e, m);
    }
    k' := StoreNext(dst, src, k, out, i, next, m, was, done, at, CUnquote(m, next, e), r);
    done' := done + out;
  }

  /**
   * wordsplit_c_unquote_copy of the n bytes of src from at on. Nothing is asked of how dst and src
   * overlap: run in place it stores what separate buffers would get.
   */
  method CUnquoteCopy(dst: array<byte>, src: array<byte>, at: nat, n: nat)
    requires at + n <= src.Length && |CUnquote(src[..], at, at + n)| < dst.Length
    modifies dst
    ensures var r := CUnquote(old(src[..]), at, at + n); dst[..] == r + [NUL] + old(dst[..])[|r| + 1..]
  {
    hide CUnquote, InStep;
    ghost var m, was, done := src[..], dst[..], [];
    ghost var e := at + n;
    ghost var r := CUnquote(m, at, e);
    var i, k := at, 0;
    Begun(dst, src, at, r);
    while i < at + n
      invariant k == |done| && InStep(dst, src, m, was, done, i, at, CUnquote(m, i, e), r)
      decreases at + n - i
    {
      i, k, done := CUnquoteTurn(dst, src, i, k, at + n, at, m, was, done, r);
    }
    Ended(m, i, e);
    Finish(dst, src, k, m, was, done, i, at, r);
  }

  /** The end of an unquoter. */
  method Finish(dst: array<byte>, src: array<byte>, k: nat, ghost m: seq<byte>, ghost was: seq<byte>,
                ghost done: seq<byte>, ghost i: nat, ghost at: nat, ghost r: seq<byte>)
    requires InStep(dst, src, m, was, done, i, at, [], r) && k == |done|
    modifies dst
    ensures dst[..] == r + [NUL] + was[|r| + 1..]
  {
    hide Copied, Ahead;
    assert done + [] == done;
    Terminate(dst, src, k, m, was, done, i);
  }

  lemma Begun(dst: array<byte>, src: array<byte>, i: nat, r: seq<byte>)
    requires |r| < dst.Length
    ensures InStep(dst, src, src[..], dst[..], [], i, i, r, r)
  {
    assert [] + r == r;
  }

  lemma AheadOn(src: array<byte>, m: seq<byte>, i: nat)
    requires Ahead(src, m, i)
    ensures Ahead(src, m, i + 1)
  {
  }

  lemma Ended(m: seq<byte>, i: nat, n: nat)
    requires n <= i && n <= |m|
    ensures CUnquote(m, i, n) == [] && ShUnquote(m, i, n) == []
  {
  }

  /** One turn of the loop of wordsplit_sh_unquote_copy. */
  method ShUnquoteTurn(dst: array<byte>, src: array<byte>, i: nat, k: nat, e: nat, ghost at: nat,
                       ghost m: seq<byte>, ghost was: seq<byte>, ghost done: seq<byte>, ghost r: seq<byte>)
    returns (next: nat, k': nat, ghost done': seq<byte>)
    requires i < e <= |m| && k == |done| && InStep(dst, src, m, was, done, i, at, ShUnquote(m, i, e), r)
    modifies dst
    ensures i < next && k' == |done'| && InStep(dst, src, m, was, done', next, at, ShUnquote(m, next, e), r)
  {
    hide ShUnquote, Copied, Ahead;
    ShUnquoteStep(m, i, e);
    var c := Look(src, i, m);
    next := i + 1;
    if c == BACKSLASH {
      AheadOn(src, m, i);
      c := Look(src, i + 1, m);
      next := i + 2;
    }
    k' := StoreNext(dst, src, k, [c], i, next, m, was, done, at, ShUnquote(m, next, e), r);
    done' := done + [c];
  }

  /** wordsplit_sh_unquote_copy, with the same freedom to overlap. */
  method ShUnquoteCopy(dst: array<byte>, src: array<byte>, at: nat, n: nat)
    requires at + n <= src.Length && |ShUnquote(src[..], at, at + n)| < dst.Length
    modifies dst
    ensures var r := ShUnquote(old(src[..]), at, at + n); dst[..] == r + [NUL] + old(dst[..])[|r| + 1..]
  {
    hide ShUnquote, InStep;
    ghost var m, was, done := src[..], dst[..], [];
    ghost var e := at + n;
    ghost var r := ShUnquote(m, at, e);
    var i, k := at, 0;
    Begun(dst, src, at, r);
    while i < at + n
      invariant k == |done| && InStep(dst, src, m, was, done, i, at, ShUnquote(m, i, e), r)
      decreases at + n - i
    {
      i, k, done := ShUnquoteTurn(dst, src, i, k, at + n, at, m, was, done, r);
    }
    Ended(m, i, e);
    Finish(dst, src, k, m, was, done, i, at, r);
  }
}
