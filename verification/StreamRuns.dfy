/** Whole runs of writes and flushes on a line-buffered stream (lib/stream.c). */
module StreamRuns {
  import opened Bytes
  import opened Channels
  import opened Decimal
  import opened LineText
  import opened Sockmap
  import opened Transports
  import opened Streams

  /** What a client does with a line-buffered stream. */
  datatype Op = PutOp(data: seq<byte>) | FlushOp

  function Taken(op: Op): seq<byte> { match op case PutOp(d) => d case FlushOp => [] }

  /** The bytes a run hands to the stream. */
  function Accepted(ops: seq<Op>): seq<byte> {
    if ops == [] then []
    else Accepted(ops[..|ops| - 1]) + Taken(ops[|ops| - 1])
  }

  /**
   * Any run of writes and flushes that succeed: what reached the transport and what is still
   * buffered is what was accepted, in order.
   */
  method RunWrites(s: Stream, ops: seq<Op>) returns (rc: Errno, ghost calls: seq<seq<byte>>)
    requires s.Writable() && !s.expbuf
    modifies s, s.tr.Repr
    ensures s.Valid() && s.SameKind() && s.Excused(rc, old(s.level) + |Accepted(ops)|)
    ensures rc == OK ==>
              && s.Writable() && s.Delivered(calls)
              && Concat(calls) + s.Buffered() == old(s.Buffered()) + Accepted(ops)
              && (ops != [] && ops[|ops| - 1].FlushOp? ==> s.level == 0)
  {
    if ops == [] {
      TookNothing(s.tr.io.Writer?, s.tr.Wire(), s.tr.Frames());
      return OK, [];
    }
    var before, last := ops[..|ops| - 1], ops[|ops| - 1];
    ghost var b := s.Buffered();
    rc, calls := RunWrites(s, before);
    if rc == OK {
      ghost var wire, frames, held := s.tr.Wire(), s.tr.Frames(), s.Buffered();
      ghost var made;
      rc, made := Do(s, last);
      if rc == OK {
        hide Transport.Valid, Transport.Wire, Transport.Frames, Took, Concat;
        TookThen(s.tr.io.Writer?, old(s.tr.Wire()), old(s.tr.Frames()), wire, frames,
                 s.tr.Wire(), s.tr.Frames(), calls, made);
        RunMore(calls, made, held, Taken(last), s.Buffered(), b, Accepted(before));
        calls := calls + made;
      }
    }
  }

  /** One operation of a run. */
  method Do(s: Stream, op: Op) returns (rc: Errno, ghost calls: seq<seq<byte>>)
    requires s.Writable() && !s.expbuf
    modifies s, s.tr.Repr
    ensures s.Valid() && s.SameKind() && s.Excused(rc, old(s.level) + |Taken(op)|)
    ensures rc == OK ==>
              && s.Writable() && s.Delivered(calls)
              && Concat(calls) + s.Buffered() == old(s.Buffered()) + Taken(op)
              && (op.FlushOp? ==> s.level == 0)
  {
    match op
    case PutOp(d) =>
      var n;
      rc, n, calls := s.WriteLines(d);
    case FlushOp =>
      ConcatOne(s.Buffered());
      rc, calls := s.Flush();
  }

  predicate LineChunks(chunks: seq<seq<byte>>) {
    forall i :: 0 <= i < |chunks| ==> OnlyLast(chunks[i], NL)
  }

  /**
   * Any series of writes to an expandable buffer, newlines only at their ends: the transport gets
   * exactly one call for each complete line, in order, however long the lines are and however
   * they were cut into writes; the incomplete line stays in the buffer.
   */
  method RunChunks(s: Stream, chunks: seq<seq<byte>>) returns (rc: Errno, ghost calls: seq<seq<byte>>)
    requires s.Writable() && s.expbuf && LineChunks(chunks)
    modifies s, s.tr.Repr
    ensures s.Valid() && s.SameKind() && s.Excused(rc, old(s.level) + |Concat(chunks)|)
    ensures rc == OK ==>
              && s.Writable() && s.Delivered(calls)
              && calls == CompleteLines(old(s.Buffered()) + Concat(chunks))
              && s.Buffered() == Tail(old(s.Buffered()) + Concat(chunks))
    decreases |chunks|
  {
    hide Transport.Valid, Transport.Wire, Transport.Frames, Took, CompleteLines, Tail;
    ghost var b := s.Buffered();
    if chunks == [] {
      NoLines(b);
      assert b + Concat(chunks) == b;
      TookNothing(s.tr.io.Writer?, s.tr.Wire(), s.tr.Frames());
      return OK, [];
    }
    var before, last := chunks[..|chunks| - 1], chunks[|chunks| - 1];
    assert chunks == before + [last];
    ConcatAppend(before, [last]);
    ConcatOne(last);
    rc, calls := RunChunks(s, before);
    if rc == OK {
      ghost var wire, frames, tail := s.tr.Wire(), s.tr.Frames(), s.Buffered();
      ghost var made;
      var n;
      OnlyLastNoGap(s.level, s.bufsize, last);
      LinesAndTail(b + Concat(before));
      rc, n, made := s.WriteLines(last);
      if rc == OK {
        TookThen(s.tr.io.Writer?, old(s.tr.Wire()), old(s.tr.Frames()), wire, frames,
                 s.tr.Wire(), s.tr.Frames(), calls, made);
        calls := calls + made;
        LinesOfPiece(b, before, last);
      }
    }
  }

  /** The pieces that reads of these sizes get out of s when none fails. */
  function Cut(s: seq<byte>, sizes: seq<nat>, lines: bool): seq<seq<byte>> {
    if sizes == [] then []
    else
      var d := Next(s, sizes[0], lines);
      [d] + Cut(s[|d|..], sizes[1..], lines)
  }

  lemma {:induction false} CutMore(s: seq<byte>, sizes: seq<nat>, size: nat, lines: bool, left: seq<byte>)
    requires Concat(Cut(s, sizes, lines)) + left == s
    ensures Cut(s, sizes + [size], lines) == Cut(s, sizes, lines) + [Next(left, size, lines)]
    decreases |sizes|
  {
    hide Next;
    var all := sizes + [size];
    if sizes == [] {
      NextSize(s, size, lines);
      assert [] + left == left && all[1..] == [];
      assert Cut(s[|Next(s, size, lines)|..], [], lines) == [];
    } else {
      NextSize(s, sizes[0], lines);
      var d, rest := Next(s, sizes[0], lines), Cut(s[|Next(s, sizes[0], lines)|..], sizes[1..], lines);
      assert all[1..] == sizes[1..] + [size];
      assert ([d] + rest)[1..] == rest;
      Assoc(d, Concat(rest), left);
      assert s[|d|..] == Concat(rest) + left;
      CutMore(s[|d|..], sizes[1..], size, lines, left);
    }
  }

  lemma NextSize(s: seq<byte>, size: nat, lines: bool)
    ensures |Next(s, size, lines)| <= |s|
  {
  }

  /**
   * Any series of reads, failed ones included, on any transport. Unless a frame reader loses its
   * place, the pieces are consecutive parts of what could be read, with nothing lost or invented,
   * if and only if no failed fill has added phantom bytes to the buffer; bytes_in and these bytes
   * together count exactly what has been handed out or is buffered. In line mode there are no
   * phantom bytes, and no piece goes past a newline. If no fill fails, a buffered stream hands out
   * exactly the pieces that the sizes cut out of what there is to read.
   */
  method RunReads(s: Stream, sizes: seq<nat>) returns (pieces: seq<seq<byte>>, ghost failed: bool)
    requires s.Valid() && OnlyLast(s.Buffered(), NL)
    modifies s, s.tr.Repr
    ensures s.Valid() && s.SameKind() && |pieces| == |sizes|
    ensures Drawn(!failed, old(s.Account()), Concat(pieces), s.Account()) && s.ReadExcused(failed)
    ensures !failed && !s.buftype.Unbuffered? ==> pieces == Cut(old(s.Avail()), sizes, s.buftype.LineBuffered?)
    ensures !s.tr.lost ==> (old(s.Avail()) == Concat(pieces) + s.Avail() <==> s.phantom == old(s.phantom))
    ensures !s.buftype.FullBuffered? ==> s.phantom == old(s.phantom)
    ensures forall i :: 0 <= i < |pieces| ==> |pieces[i]| <= sizes[i]
    ensures s.buftype.LineBuffered? ==>
              OnlyLast(s.Buffered(), NL) && forall i :: 0 <= i < |pieces| ==> OnlyLast(pieces[i], NL)
    decreases |sizes|
  {
    hide Transport.Valid, Transport.Pending, Transport.Lockstep, Concat, OnlyLast, Next, Cut;
    if sizes == [] {
      ConcatNone(s.Avail());
      CutNothing(s.Avail(), s.buftype.LineBuffered?);
      return [], false;
    }
    var before, size := sizes[..|sizes| - 1], sizes[|sizes| - 1];
    pieces, failed := RunReads(s, before);
    ghost var mid, left, was := s.Account(), s.Avail(), failed;
    ghost var fails;
    var rc, data;
    rc, data, fails := s.Read(size, false);
    ConcatAppend(pieces, [data]);
    ConcatOne(data);
    ReadThen(!was, old(s.Account()), Concat(pieces), mid, !fails, data, s.Account());
    failed := was || fails;
    if !failed && !s.buftype.Unbuffered? {
      CutMore(old(s.Avail()), before, size, s.buftype.LineBuffered?, left);
      assert sizes == before + [size];
    }
    pieces := pieces + [data];
  }

  lemma CutNothing(s: seq<byte>, lines: bool)
    ensures Cut(s, [], lines) == []
  {
  }

  lemma ReadThen(was: bool, a: Ledger, got: seq<byte>, b: Ledger, ok: bool, data: seq<byte>, c: Ledger)
    requires Drawn(was, a, got, b) && Drawn(ok, b, data, c)
    ensures Drawn(was && ok, a, got + data, c)
    ensures was ==> got + b.avail == a.avail
    ensures !c.lost ==> (a.avail == got + data + c.avail <==> a.phantom == c.phantom)
  {
    DrawnThen(was, a, got, b, ok, data, c);
    if !c.lost {
      DrawnExactly(was && ok, a, got + data, c);
    }
  }

  /**
   * Before a frame without its final comma the first read fails, with nothing counted by bytes_in,
   * and the next ones hand out its body and the byte that stands for the comma as if it were read.
   */
  method ReadSpoiled(s: Stream, size: nat) returns (rc1: Errno, rc2: Errno, data: seq<byte>)
    requires s.Valid() && s.Spoiled() && 0 < size <= ParsePrefix(s.tr.Inbound()).size + 1
    modifies s, s.tr.Repr
    ensures rc1 == EPROTO && rc2 == OK
    ensures var u, b := old(s.tr.Inbound()), ParsePrefix(old(s.tr.Inbound()));
            |data| == size && b.at + size <= |u| && data == u[b.at..b.at + size]
    ensures s.bytesIn == old(s.bytesIn) && s.phantom > old(s.phantom)
  {
    hide Transport.Valid, Transport.Pending, Transport.Lockstep, Transport.TakesSpoiled, Transport.Inbound;
    hide ParsePrefix, HasBody, Misread;
    var none;
    ghost var failed;
    ghost var u := s.tr.Inbound();
    rc1, none, failed := s.Read(size, false);
    ghost var held, source := s.Buffered(), s.Source();
    MisreadPart(rc1, s.level, held, u, size);
    rc2, data, failed := s.Read(size, false);
    assert (held + source)[..size] == held[..size];
    assert held + source == (held + source)[..|held + source|];
    assert data == (held + source)[..size];
  }

  lemma MisreadPart(rc: Errno, n: nat, held: seq<byte>, u: seq<byte>, size: nat)
    requires Misread(rc, n, held, u) && 0 < size <= ParsePrefix(u).size + 1
    ensures var b := ParsePrefix(u);
            && rc == EPROTO && 0 < n == |held| && size <= |held| && b.at + size <= |u|
            && held[..size] == u[b.at..b.at + size]
  {
    hide ParsePrefix;
  }

  /**
   * The wire 1:aX has nothing to deliver. The first read of two bytes fails and the second succeeds
   * with aX, although bytes_in is still 0.
   */
  method SpoiledExample() returns (s: Stream, ghost could: seq<byte>, rc1: Errno, rc2: Errno, data: seq<byte>)
    ensures could == [] && rc1 == EPROTO && rc2 == OK && data == [97, 88] && s.bytesIn == 0
  {
    hide SpoiledFrame, LinesIn, ParsePrefix;
    var chan := new Channel();
    chan.data := [49, COLON, 97, 88];
    var dev := new InputDevice(chan);
    var tr := new Transport(Reader(dev));
    s := new Stream(tr, FullBuffered, 1024, true, false, true);
    assert dev.Unread() == [] + chan.data == chan.data;
    SpoiledWire(chan.data);
    could := s.Avail();
    rc1, rc2, data := ReadSpoiled(s, 2);
  }

  lemma SpoiledWire(u: seq<byte>)
    requires u == [49, COLON, 97, 88]
    ensures ParsePrefix(u) == Body(2, 1) && SpoiledFrame(u, 1024) && LinesIn(u) == [] && u[2..4] == [97, 88]
  {
    IndexOfIs(u, COLON, 1);
    assert Value(u, 0) == 0 && Value(u, 1) == 1 && AllDigits(u, 1);
    assert u[4..] == [];
    assert ParsePrefix(u[4..]).NoData?;
  }

  /**
   * A newline in the middle of what an expandable buffer holds: after the flush the incomplete line
   * is not at the front of the buffer, where the next write takes it to be: a write of as many bytes
   * as it counts free puts the last two of them behind the buffer.
   */
  method GapExample() returns (s: Stream, rc: Errno)
    ensures s.Valid()
    ensures rc == OK ==> s.Buffered() == [98] && s.cur == 2 && s.bufsize == 6 == |s.buffer|
    ensures rc == OK ==> s.cur + s.level + (s.bufsize - s.level) == |s.buffer| + 2
  {
    hide Tail, CompleteLines, Transport.Wire, Transport.Frames, Took;
    var chan := new Channel();
    var tr := new Transport(Raw(chan));
    s := new Stream(tr, LineBuffered, 3, false, true, true);
    var data := [97, NL, 98];
    var k := s.Append(data, 0);
    assert k == 3 && s.Buffered() == [] + data[0..3] == data;
    HalfLine(data);
    ghost var calls;
    rc, calls := s.FlushBuffer(false);
  }

  lemma HalfLine(data: seq<byte>)
    requires data == [97, NL, 98]
    ensures Tail(data) == [98] && !Free(data, NL)
  {
    IndexOfIs(data, NL, 1);
    assert data[2..] == [98];
    NoLines([98]);
    assert data[1] == NL;
  }
}
