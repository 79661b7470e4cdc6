/** The decimal length prefix of a sockmap frame: writer (format_len) and reader arithmetic. */
module Decimal {
  import opened Bytes

  /** SIZE_T_STRLEN_BOUND for a 64-bit size_t. */
  const BOUND: nat := 64 * 146 / 485 + 1

  function Pow10(k: nat): (p: nat)
    ensures p >= 1
  {
    if k == 0 then 1 else 10 * Pow10(k - 1)
  }

  /** Decimal digits, most significant first. Zero has no digits. */
  function Digits(n: nat): (s: seq<byte>)
    ensures AllDigits(s, |s|)
  {
    if n == 0 then [] else Digits(n / 10) + [ZERO + n % 10]
  }

  /** The first k bytes of s are digits. */
  predicate AllDigits(s: seq<byte>, k: nat)
    requires k <= |s|
  {
    forall i :: 0 <= i < k ==> IsDigit(s[i])
  }

  /** The number read from the first k bytes of s, left to right. */
  function Value(s: seq<byte>, k: nat): nat
    requires k <= |s| && AllDigits(s, k)
  {
    if k == 0 then 0 else 10 * Value(s, k - 1) + (s[k - 1] - ZERO)
  }

  lemma {:induction false} ValueAgrees(s: seq<byte>, t: seq<byte>, k: nat)
    requires k <= |s| && k <= |t| && AllDigits(s, k)
    requires forall i :: 0 <= i < k ==> s[i] == t[i]
    ensures Value(s, k) == Value(t, k)
  {
    if k > 0 {
      ValueAgrees(s, t, k - 1);
    }
  }

  /** The reader's digit loop undoes format_len. */
  lemma {:induction false} ValueOfDigits(n: nat)
    ensures Value(Digits(n), |Digits(n)|) == n
  {
    if n != 0 {
      ValueOfDigits(n / 10);
      ValueAgrees(Digits(n / 10), Digits(n), |Digits(n)| - 1);
    }
  }

  lemma {:induction false} NoLeadingZero(n: nat)
    ensures n == 0 <==> Digits(n) == []
    ensures n > 0 ==> Digits(n)[0] != ZERO
  {
    if n >= 10 {
      NoLeadingZero(n / 10);
    }
  }

  /** Exactly the numbers below 10^k print in at most k digits. */
  lemma {:induction false} DigitCount(n: nat, k: nat)
    ensures |Digits(n)| <= k <==> n < Pow10(k)
  {
    if n != 0 && k != 0 {
      DigitCount(n / 10, k - 1);
    }
  }

  lemma {:induction false} ValueBound(s: seq<byte>, k: nat)
    requires k <= |s| && AllDigits(s, k)
    ensures Value(s, k) < Pow10(k)
  {
    if k > 0 {
      ValueBound(s, k - 1);
    }
  }

  /** Reading one more digit of a prefix short enough for the reader's buffer does not wrap around. */
  lemma NoWrap(s: seq<byte>, k: nat)
    requires k <= |s| && k <= BOUND - 2 && AllDigits(s, k)
    ensures 10 * Value(s, k) + 9 < TOO_BIG
  {
    ValueBound(s, k);
    Pow10Monotonic(k, BOUND - 2);
    TooBigIsPow10();
    assert Pow10(BOUND - 1) == 10 * Pow10(BOUND - 2);
  }

  lemma ShortValue(s: seq<byte>, k: nat)
    requires k <= |s| && k <= BOUND - 1 && AllDigits(s, k)
    ensures Value(s, k) < TOO_BIG
  {
    ValueBound(s, k);
    Pow10Monotonic(k, BOUND - 1);
    TooBigIsPow10();
  }

  lemma {:induction false} Pow10Monotonic(j: nat, k: nat)
    requires j <= k
    ensures Pow10(j) <= Pow10(k)
  {
    if j < k {
      Pow10Monotonic(j, k - 1);
    }
  }

  /** The first number with too many digits for format_len's buffer: ten to the power BOUND-1. */
  const TOO_BIG: nat := 10_000_000_000_000_000_000

  lemma TooBigIsPow10()
    ensures Pow10(BOUND - 1) == TOO_BIG
  {
    assert Pow10(4) == 10_000;
    assert Pow10(8) == 10_000 * Pow10(4);
    assert Pow10(12) == 10_000 * Pow10(8);
    assert Pow10(16) == 10_000 * Pow10(12);
    assert Pow10(19) == 1_000 * Pow10(16);
  }

  lemma NextDigit(a: nat, p: nat, done: seq<byte>)
    requires a != 0 && a < Pow10(p)
    ensures p > 0 && a / 10 < Pow10(p - 1)
    ensures Digits(a) + done == Digits(a / 10) + ([ZERO + a % 10] + done)
  {
    Assoc(Digits(a / 10), [ZERO + a % 10], done);
  }

  lemma NoDigits(before: seq<byte>, after: seq<byte>)
    ensures Digits(0) == [] && before + [] == before && Digits(0) + after == after
  {
  }

  /** format_len: writes the digits of arg right-aligned before a NUL and returns where they start. */
  method FormatLen(buf: array<byte>, arg: nat) returns (p: nat)
    requires buf.Length == BOUND + 1
    requires arg < TOO_BIG
    modifies buf
    ensures p <= BOUND - 1
    ensures buf[p..BOUND - 1] == Digits(arg) && buf[BOUND - 1] == NUL
    ensures buf[..p] == old(buf[..p]) && buf[BOUND] == old(buf[BOUND])
  {
    hide Digits, Pow10;
    TooBigIsPow10();
    p := BOUND;
    p := p - 1;
    buf[p] := NUL;
    var a: nat := arg;
    NoDigits(Digits(arg), []);
    while a != 0
      invariant p <= BOUND - 1
      invariant a < Pow10(p)
      invariant Digits(arg) == Digits(a) + buf[p..BOUND - 1]
      invariant buf[BOUND - 1] == NUL && buf[BOUND] == old(buf[BOUND])
      invariant buf[..p] == old(buf[..p])
    {
      var n := a % 10;
      ghost var done := buf[p..BOUND - 1];
      NextDigit(a, p, done);
      p := p - 1;
      buf[p] := ZERO + n;
      assert buf[p..BOUND - 1] == [ZERO + n] + done;
      a := a / 10;
    }
    NoDigits([], buf[p..BOUND - 1]);
  }
}
