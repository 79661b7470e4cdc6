/** Byte strings seen as lines: what the stream layer promises about delimiters and pieces. */
module LineText {
  import opened Bytes

  /** Through the first delimiter, or everything when there is none. */
  function LineOf(s: seq<byte>, delim: byte): seq<byte> {
    var k := IndexOf(s, delim);
    if k < |s| then s[..k + 1] else s
  }

  /** delim occurs in s at most as the last byte. */
  predicate OnlyLast(s: seq<byte>, delim: byte) {
    forall i :: 0 <= i < |s| - 1 ==> s[i] != delim
  }

  predicate EndsWith(s: seq<byte>, delim: byte) { s != [] && s[|s| - 1] == delim }

  lemma LineGrows(s: seq<byte>, t: seq<byte>, delim: byte)
    requires Free(s, delim) && OnlyLast(t, delim)
    ensures OnlyLast(s, delim) && OnlyLast(s + t, delim)
    ensures !EndsWith(t, delim) ==> Free(t, delim) && Free(s + t, delim)
  {
  }

  lemma GrowsFree(s: seq<byte>, t: seq<byte>, delim: byte)
    requires Free(s, delim)
    ensures Free(t, delim) ==> Free(s + t, delim)
  {
  }

  lemma GrowsEnd(s: seq<byte>, t: seq<byte>, delim: byte)
    ensures EndsWith(t, delim) ==> EndsWith(s + t, delim)
  {
  }

  lemma LineSplit(s: seq<byte>, n: nat, delim: byte)
    requires OnlyLast(s, delim) && n <= |s|
    ensures OnlyLast(s[..n], delim) && OnlyLast(s[n..], delim) && OnlyLast([], delim)
  {
  }

  lemma LineOfIs(line: seq<byte>, rest: seq<byte>, delim: byte)
    requires OnlyLast(line, delim)
    requires rest == [] || EndsWith(line, delim)
    requires rest == [] ==> EndsWith(line, delim) || Free(line, delim)
    ensures LineOf(line + rest, delim) == line && (line + rest)[|line|..] == rest
  {
    var s := line + rest;
    if EndsWith(line, delim) {
      IndexOfIs(s, delim, |line| - 1);
      assert s[..|line|] == line;
    } else {
      assert s == line;
      IndexOfIs(s, delim, |s|);
    }
  }

  /** The first size bytes of s, or all of them, but nothing after the first newline if lines is set. */
  function Next(s: seq<byte>, size: nat, lines: bool): seq<byte> {
    var l := if lines then LineOf(s, NL) else s;
    if |l| <= size then l else l[..size]
  }

  /** What makes data the next piece of data + rest. */
  lemma NextIs(data: seq<byte>, rest: seq<byte>, size: nat, lines: bool)
    requires |data| <= size && (lines ==> OnlyLast(data, NL))
    requires |data| == size || rest == [] || (lines && EndsWith(data, NL))
    ensures Next(data + rest, size, lines) == data
  {
    var s := data + rest;
    assert s[..|data|] == data && (rest == [] ==> s == data);
    if lines {
      var k := IndexOf(s, NL);
      if EndsWith(data, NL) {
        IndexOfIs(s, NL, |data| - 1);
      } else if k < |data| {
        assert data[k] == NL;
      } else {
        assert LineOf(s, NL)[..|data|] == data;
      }
    }
  }

  function Concat(pieces: seq<seq<byte>>): seq<byte> {
    if pieces == [] then [] else pieces[0] + Concat(pieces[1..])
  }

  lemma {:induction false} ConcatAppend(p: seq<seq<byte>>, q: seq<seq<byte>>)
    ensures Concat(p + q) == Concat(p) + Concat(q)
  {
    if p == [] {
      assert p + q == q;
    } else {
      ConcatAppend(p[1..], q);
      assert (p + q)[1..] == p[1..] + q;
      Assoc(p[0], Concat(p[1..]), Concat(q));
    }
  }

  lemma ConcatOne(p: seq<byte>)
    ensures Concat([p]) == p && Concat([]) == []
  {
    assert p + [] == p;
  }

  /** The complete lines at the front of s, newlines included. */
  function CompleteLines(s: seq<byte>): seq<seq<byte>>
    decreases |s|
  {
    var k := IndexOf(s, NL);
    if k == |s| then [] else [s[..k + 1]] + CompleteLines(s[k + 1..])
  }

  /** What follows the last newline of s. */
  function Tail(s: seq<byte>): seq<byte>
    decreases |s|
  {
    var k := IndexOf(s, NL);
    if k == |s| then s else Tail(s[k + 1..])
  }

  /** Splitting into complete lines and a tail loses and reorders nothing. */
  lemma {:induction false} LinesAndTail(s: seq<byte>)
    ensures Concat(CompleteLines(s)) + Tail(s) == s
    ensures Free(Tail(s), NL) && |Tail(s)| <= |s| && s[|s| - |Tail(s)|..] == Tail(s)
    decreases |s|
  {
    hide Concat;
    var k := IndexOf(s, NL);
    if k < |s| {
      var line, rest := s[..k + 1], s[k + 1..];
      LinesAndTail(rest);
      ConcatFirst(line, CompleteLines(rest));
      Assoc(line, Concat(CompleteLines(rest)), Tail(rest));
      assert s == line + rest;
      assert s[|s| - |Tail(rest)|..] == rest[|rest| - |Tail(rest)|..];
    } else {
      ConcatNone(s);
    }
  }

  /** Each of the complete lines is one line: it ends with its only newline. */
  lemma {:induction false} EachIsALine(s: seq<byte>)
    ensures forall k :: 0 <= k < |CompleteLines(s)| ==>
              OnlyLast(CompleteLines(s)[k], NL) && EndsWith(CompleteLines(s)[k], NL)
    decreases |s|
  {
    var k := IndexOf(s, NL);
    if k < |s| {
      EachIsALine(s[k + 1..]);
    }
  }

  lemma ConcatFirst(p: seq<byte>, ps: seq<seq<byte>>)
    ensures Concat([p] + ps) == p + Concat(ps)
  {
    assert ([p] + ps)[1..] == ps;
  }

  lemma ConcatNone(s: seq<byte>)
    ensures Concat([]) + s == s
  {
  }

  lemma NoLines(s: seq<byte>)
    requires Free(s, NL)
    ensures CompleteLines(s) == [] && Tail(s) == s
  {
    IndexOfIs(s, NL, |s|);
  }

  /** Only a text without newlines is all tail. */
  lemma TailIsAll(s: seq<byte>)
    ensures |Tail(s)| == |s| <==> Free(s, NL)
  {
    var k := IndexOf(s, NL);
    if k < |s| {
      LinesAndTail(s[k + 1..]);
    } else {
      NoLines(s);
    }
  }

  lemma OneLine(s: seq<byte>)
    requires OnlyLast(s, NL) && EndsWith(s, NL)
    ensures CompleteLines(s) == [s] && Tail(s) == []
  {
    IndexOfIs(s, NL, |s| - 1);
    assert s[|s| - 1 + 1..] == [] && s[..|s|] == s;
    NoLines([]);
  }

  /** One step of the flush loop: the line up to the next newline comes off the front. */
  lemma NextLine(s: seq<byte>, k: nat)
    requires k == IndexOf(s, NL) < |s|
    ensures CompleteLines(s) == [s[..k + 1]] + CompleteLines(s[k + 1..])
    ensures Tail(s) == Tail(s[k + 1..])
  {
  }

  /** Sending more pieces keeps what was sent and what is held in order. */
  lemma SendMore(calls: seq<seq<byte>>, more: seq<seq<byte>>, held: seq<byte>, before: seq<byte>)
    requires Concat(more) + held == before
    ensures Concat(calls + more) + held == Concat(calls) + before
  {
    ConcatAppend(calls, more);
    Assoc(Concat(calls), Concat(more), held);
  }

  /** Holding k more bytes of data behind what is held keeps everything in order. */
  lemma HoldMore(sent: seq<byte>, held: seq<byte>, b: seq<byte>, data: seq<byte>, n: nat, k: nat)
    requires n + k <= |data| && sent + held == b + data[..n]
    ensures sent + (held + data[n..n + k]) == b + data[..n + k]
  {
    Assoc(sent, held, data[n..n + k]);
    Assoc(b, data[..n], data[n..n + k]);
    assert data[..n] + data[n..n + k] == data[..n + k];
  }

  /** Of the lines of all, calls are done, and pending is what they are followed by. */
  predicate LinesSoFar(all: seq<byte>, calls: seq<seq<byte>>, pending: seq<byte>) {
    CompleteLines(all) == calls + CompleteLines(pending) && Tail(all) == Tail(pending)
  }

  /** The lines that are held are done, too. */
  lemma LinesDone(all: seq<byte>, calls: seq<seq<byte>>, held: seq<byte>, rest: seq<byte>)
    requires LinesSoFar(all, calls, held + rest)
    ensures LinesSoFar(all, calls + CompleteLines(held), Tail(held) + rest)
  {
    LinesAppend(held, rest);
    Assoc(calls, CompleteLines(held), CompleteLines(Tail(held) + rest));
  }

  /** k bytes of the rest are held, too. */
  lemma LinesHeld(all: seq<byte>, calls: seq<seq<byte>>, held: seq<byte>, rest: seq<byte>, k: nat)
    requires LinesSoFar(all, calls, held + rest) && k <= |rest|
    ensures LinesSoFar(all, calls, held + rest[..k] + rest[k..])
  {
    Assoc(held, rest[..k], rest[k..]);
    assert rest[..k] + rest[k..] == rest;
  }

  /** With nothing left but an incomplete line, all lines are done. */
  lemma LinesAllDone(all: seq<byte>, calls: seq<seq<byte>>, held: seq<byte>)
    requires LinesSoFar(all, calls, held + []) && Free(held, NL)
    ensures calls == CompleteLines(all) && held == Tail(all)
  {
    assert held + [] == held && calls + [] == calls;
    NoLines(held);
  }

  /** A flush: every complete line in a call of its own, then the incomplete one when forced. */
  predicate Flushed(b: seq<byte>, forced: bool, calls: seq<seq<byte>>, left: seq<byte>) {
    && calls == CompleteLines(b) + (if forced then [Tail(b)] else [])
    && left == (if forced then [] else Tail(b))
  }

  lemma FlushConserves(b: seq<byte>, forced: bool, calls: seq<seq<byte>>, left: seq<byte>)
    requires Flushed(b, forced, calls, left)
    ensures Concat(calls) + left == b && Free(left, NL)
    ensures !forced ==> calls == CompleteLines(b)
  {
    LinesAndTail(b);
    ConcatAppend(CompleteLines(b), [Tail(b)]);
    ConcatOne(Tail(b));
    assert CompleteLines(b) + [] == CompleteLines(b);
  }

  /** One operation of a run: it takes put, sends made, and holds left afterwards. */
  lemma RunMore(calls: seq<seq<byte>>, made: seq<seq<byte>>, held: seq<byte>, put: seq<byte>,
                left: seq<byte>, b: seq<byte>, taken: seq<byte>)
    requires Concat(calls) + held == b + taken && Concat(made) + left == held + put
    ensures Concat(calls + made) + left == b + (taken + put)
  {
    SendMore(calls, made, left, held + put);
    Assoc(Concat(calls), held, put);
    Assoc(b, taken, put);
  }

  /** The lines of a text do not depend on where it is cut. */
  lemma {:induction false} LinesAppend(s: seq<byte>, d: seq<byte>)
    ensures CompleteLines(s + d) == CompleteLines(s) + CompleteLines(Tail(s) + d)
    ensures Tail(s + d) == Tail(Tail(s) + d)
    decreases |s|
  {
    var k := IndexOf(s, NL);
    if k == |s| {
      NoLines(s);
    } else {
      var rest := s[k + 1..];
      IndexOfAppend(s, d, NL);
      assert (s + d)[..k + 1] == s[..k + 1] && (s + d)[k + 1..] == rest + d;
      LinesAppend(rest, d);
      Assoc([s[..k + 1]], CompleteLines(rest), CompleteLines(Tail(rest) + d));
    }
  }

  lemma LineNotYet(got: seq<byte>, rest: seq<byte>, delim: byte)
    requires Free(got, delim) && delim in got + rest
    ensures delim in rest && |got| < |LineOf(got + rest, delim)|
  {
    IndexOfAppend(got, rest, delim);
    IndexOfIs(got, delim, |got|);
    var i :| 0 <= i < |rest| && rest[i] == delim;
  }

  /** One more piece of a text that is written in pieces. */
  lemma LinesOfPiece(b: seq<byte>, before: seq<seq<byte>>, last: seq<byte>)
    ensures var tail := Tail(b + Concat(before));
            && CompleteLines(b + Concat(before + [last]))
               == CompleteLines(b + Concat(before)) + CompleteLines(tail + last)
            && Tail(b + Concat(before + [last])) == Tail(tail + last)
  {
    ConcatAppend(before, [last]);
    ConcatOne(last);
    Assoc(b, Concat(before), last);
    LinesAppend(b + Concat(before), last);
  }
}
