/** What all components share: bytes, C strings, the size of size_t, and a few facts about sequences. */
module Bytes {
  type byte = x: int | 0 <= x < 256

  datatype Option<T> = None | Some(value: T)

  const NUL: byte := 0
  const TAB: byte := 9
  const NL: byte := 10
  const SPACE: byte := 32
  const DQUOTE: byte := 34
  const SQUOTE: byte := 39
  const COMMA: byte := 44
  const ZERO: byte := 48
  const COLON: byte := 58
  const BACKSLASH: byte := 92

  /** Number of values of a 64-bit size_t, and its largest value. */
  const SIZE_MOD: nat := 0x1_0000_0000_0000_0000
  const SIZE_MAX: nat := SIZE_MOD - 1

  predicate IsDigit(c: byte) { ZERO <= c <= ZERO + 9 }

  /** The first index at or after i that holds c, or |s|. */
  function IndexFrom(s: seq<byte>, c: byte, i: nat): (k: nat)
    requires i <= |s|
    ensures i <= k <= |s|
    ensures forall j :: i <= j < k ==> s[j] != c
    ensures k < |s| ==> s[k] == c
    decreases |s| - i
  {
    if i == |s| || s[i] == c then i else IndexFrom(s, c, i + 1)
  }

  /** memchr: the first index of c in s, or |s| when c does not occur. */
  function IndexOf(s: seq<byte>, c: byte): nat { IndexFrom(s, c, 0) }

  /** The C string held in a buffer: everything before the first NUL. */
  function CString(s: seq<byte>): seq<byte> { s[..IndexOf(s, NUL)] }

  predicate Free(s: seq<byte>, c: byte) { forall i :: 0 <= i < |s| ==> s[i] != c }

  lemma IndexOfIs(s: seq<byte>, c: byte, k: nat)
    requires k <= |s| && forall j :: 0 <= j < k ==> s[j] != c
    requires k < |s| ==> s[k] == c
    ensures IndexOf(s, c) == k
  {
    var i := IndexOf(s, c);
    assert !(i < k) && !(k < i);
  }

  lemma IndexOfAppend(s: seq<byte>, t: seq<byte>, c: byte)
    ensures IndexOf(s + t, c) == if IndexOf(s, c) < |s| then IndexOf(s, c) else |s| + IndexOf(t, c)
  {
    var k := if IndexOf(s, c) < |s| then IndexOf(s, c) else |s| + IndexOf(t, c);
    forall j | 0 <= j < k
      ensures (s + t)[j] != c
    {
      if j >= |s| {
        assert (s + t)[j] == t[j - |s|];
      }
    }
    IndexOfIs(s + t, c, k);
  }

  lemma Assoc<T>(a: seq<T>, b: seq<T>, c: seq<T>)
    ensures (a + b) + c == a + (b + c)
  {
  }

  lemma CStringOfText(s: seq<byte>)
    requires Free(s, NUL)
    ensures CString(s) == s && CString(s + [NUL]) == s
  {
    IndexOfIs(s, NUL, |s|);
    IndexOfIs(s + [NUL], NUL, |s|);
    assert (s + [NUL])[..|s|] == s;
  }

  predicate Unique<T(==)>(s: seq<T>) {
    forall i, j :: 0 <= i < j < |s| ==> s[i] != s[j]
  }

  function Without<T>(s: seq<T>, k: nat): seq<T>
    requires k < |s|
  {
    s[..k] + s[k + 1..]
  }

  lemma UniqueWithout<T>(s: seq<T>, k: nat)
    requires Unique(s) && k < |s|
    ensures Unique(Without(s, k))
  {
  }

  lemma WithoutAt<T>(s: seq<T>, k: nat)
    requires k < |s|
    ensures |Without(s, k)| == |s| - 1
    ensures forall i :: 0 <= i < k ==> Without(s, k)[i] == s[i]
    ensures forall i :: k <= i < |s| - 1 ==> Without(s, k)[i] == s[i + 1]
  {
  }

  lemma OthersDiffer<T>(s: seq<T>, k: nat)
    requires Unique(s) && k < |s|
    ensures forall i :: 0 <= i < |s| && i != k ==> s[i] != s[k]
  {
  }
}
