/**
 * struct sockmap_stream (lib/sockmapstr.c): an unbuffered stream whose read and write pointers are
 * the buffered input and output streams behind it; and smap_stream_getdelim over any stream.
 */
module PairedStreams {
  import opened Bytes
  import opened Channels
  import opened LineText
  import opened Sockmap
  import opened Transports
  import opened Streams

  class PairedStream {
    const inp: Stream
    const outp: Stream
    var err: bool
    var eof: bool
    var wrt: bool
    var lastErr: Errno
    var bytesIn: nat
    var bytesOut: nat

    ghost function InRepr(): set<object> { {inp as object} + inp.tr.Repr }

    ghost function OutRepr(): set<object> { {outp as object} + outp.tr.Repr }

    ghost function Repr(): set<object> { {this as object} + InRepr() + OutRepr() }

    ghost predicate Apart() {
      this !in InRepr() && this !in OutRepr() && InRepr() !! OutRepr()
    }

    ghost predicate Ready()
      reads this, inp, inp.tr, InRepr()
    {
      Apart() && inp.Valid() && !inp.buftype.Unbuffered? && (err ==> lastErr != OK)
    }

    /** Nothing has gone wrong on the input side, and it has not ended. */
    ghost predicate Live()
      requires inp.tr.Valid()
      reads this, inp, inp.tr, inp.tr.Repr
    {
      inp.Live() && !err && !eof
    }

    ghost function Avail(): seq<byte>
      reads this, inp, inp.tr, InRepr()
      requires Ready()
    {
      if eof then [] else inp.Avail()
    }

    ghost function Account(): Ledger
      reads this, inp, inp.tr, InRepr()
      requires Ready()
    {
      inp.Account().(avail := Avail())
    }

    /** smap_sockmap_stream_create2 */
    constructor (inp: Stream, outp: Stream)
      requires inp.Valid() && !inp.buftype.Unbuffered? && inp.Live()
      requires ({inp as object} + inp.tr.Repr) !! ({outp as object} + outp.tr.Repr)
      ensures this.inp == inp && this.outp == outp && Ready() && Live()
      ensures bytesIn == bytesOut == 0 && lastErr == OK && !wrt
    {
      this.inp, this.outp := inp, outp;
      err, eof, wrt, lastErr, bytesIn, bytesOut := false, false, false, OK, 0, 0;
    }

    /** _stream_seterror */
    method SetError(code: Errno, perm: bool)
      modifies this`lastErr, this`err
      ensures lastErr == code && err == (old(err) || (perm && code !in {OK, EAGAIN, EINPROGRESS}))
    {
      lastErr := code;
      if code !in {OK, EAGAIN, EINPROGRESS} && perm {
        err := true;
      }
    }

    /** The call of _sockmap_stream_read, with the bookkeeping of smap_stream_read_unbuffered. */
    method ReadInput(size: nat) returns (rc: Errno, data: seq<byte>, ghost failed: bool)
      requires Ready() && !err && !eof && size > 0
      modifies this`err, this`eof, this`lastErr, this`bytesIn, InRepr()
      ensures Ready() && |data| <= size
      ensures Drawn(rc == OK && (data == [] || |data| == size), old(Account()), data, Account())
      ensures rc == OK && !failed && inp.buftype.FullBuffered? ==> data == Next(old(Avail()), size, false)
      ensures failed ==> |data| < size
      ensures rc == OK && data == [] ==> old(Avail()) == []
      ensures rc != OK ==> data == []
      ensures bytesIn == old(bytesIn) + |data| && eof == (rc == OK && data == [])
      ensures lastErr == rc && err == Permanent(rc)
      ensures old(Live()) && size <= |old(Avail())| ==> rc == OK && Live()
    {
      hide Transport.Valid, Transport.Pending, Transport.Lockstep, Drawn;
      ghost var all := Account();
      rc, data, failed := inp.Read(size, false);
      if !failed {
        DrawnAnyway(all, data, inp.Account());
      }
      if rc == OK {
        if data == [] {
          DrawnToTheEnd(all, inp.Account());
          eof := true;
        }
        bytesIn := bytesIn + |data|;
      }
      SetError(rc, rc != OK);
    }

    /** smap_stream_read with a count pointer: smap_stream_read_unbuffered over _sockmap_stream_read. */
    method Read(size: nat) returns (rc: Errno, data: seq<byte>, ghost failed: bool)
      requires Ready()
      modifies this`err, this`eof, this`lastErr, this`bytesIn, InRepr()
      ensures Ready()
      ensures |data| <= size
      ensures Drawn(rc == OK && (data == [] || |data| == size), old(Account()), data, Account())
      ensures rc == OK && !failed && inp.buftype.FullBuffered? ==> data == Next(old(Avail()), size, false)
      ensures failed ==> |data| < size
      ensures rc == OK && size > 0 && data == [] ==> old(Avail()) == []
      ensures rc != OK ==> data == [] && lastErr == rc
      ensures bytesIn == old(bytesIn) + |data|
      ensures eof == (old(eof) || (rc == OK && size > 0 && data == []))
      ensures err == (old(err) || Permanent(rc)) && (old(err) ==> rc != OK && unchanged(inp))
      ensures old(Live()) && 0 < size <= |old(Avail())| ==> rc == OK && Live()
    {
      hide Transport.Valid, Transport.Pending, Transport.Lockstep, Drawn;
      ghost var all := Account();
      DrawnNothing(all);
      DrawnAnyway(all, [], all);
      if err {
        return lastErr, [], size > 0;
      }
      if eof || size == 0 {
        return OK, [], false;
      }
      rc, data, failed := ReadInput(size);
    }

    /** smap_stream_write without a count pointer: the write pointer until everything is taken. */
    method Write(data: seq<byte>) returns (rc: Errno, ghost calls: seq<seq<byte>>)
      requires Apart() && (err ==> lastErr != OK)
      requires outp.Writable() && (outp.expbuf ==> NoGap(outp.level, outp.bufsize, data))
      modifies this`err, this`lastErr, this`wrt, this`bytesOut, OutRepr()
      ensures outp.Valid() && outp.SameKind() && (err ==> lastErr != OK)
      ensures rc == OK ==> outp.Writable() && outp.Delivered(calls)
      ensures rc == OK && outp.expbuf ==>
                && calls == CompleteLines(old(outp.Buffered()) + data)
                && outp.Buffered() == Tail(old(outp.Buffered()) + data)
      ensures rc == OK ==> Concat(calls) + outp.Buffered() == old(outp.Buffered()) + data
      ensures rc == OK ==> bytesOut == old(bytesOut) + |data| && (data != [] ==> wrt)
      ensures rc != OK ==> lastErr == rc
      ensures err == (old(err) || Permanent(rc)) && (old(err) ==> rc != OK && unchanged(outp))
      ensures !old(err) ==> outp.Excused(rc, old(outp.level) + |data|)
    {
      hide Transport.Valid, Transport.Wire, Transport.Frames, Took;
      if err {
        return lastErr, [];
      }
      if data == [] {
        TookNothing(outp.tr.io.Writer?, outp.tr.Wire(), outp.tr.Frames());
        assert Concat([]) + outp.Buffered() == outp.Buffered() + data;
        assert outp.Buffered() + data == outp.Buffered();
        NoLines(outp.Buffered());
        return OK, [];
      }
      var n;
      rc, n, calls := outp.WriteLines(data);
      if rc == OK {
        // WriteLines takes all of its argument, so the loop runs once.
        bytesOut := bytesOut + n;
      }
      wrt := true;
      SetError(rc, rc != OK);
    }
  }

  const SSIZE_MAX: nat := SIZE_MAX / 2

  /** The streams smap_stream_getdelim is called on. */
  datatype Handle = Plain(s: Stream) | Paired(p: PairedStream) {
    ghost function Objects(): set<object> {
      match this
      case Plain(s) => {s as object} + s.tr.Repr
      case Paired(p) => {p as object} + p.InRepr()
    }

    ghost predicate Ready()
      reads match this case Plain(s) => {s, s.tr} + s.tr.Repr case Paired(p) => {p, p.inp, p.inp.tr} + p.InRepr()
    {
      match this
      case Plain(s) => s.Valid()
      case Paired(p) => p.Ready()
    }

    ghost predicate Live()
      requires Ready()
      reads match this case Plain(s) => {s, s.tr} + s.tr.Repr case Paired(p) => {p, p.inp, p.inp.tr} + p.InRepr()
    {
      Paired? && p.Live()
    }

    ghost function Account(): Ledger
      requires Ready()
      reads match this case Plain(s) => {s, s.tr} + s.tr.Repr case Paired(p) => {p, p.inp, p.inp.tr} + p.InRepr()
    {
      match this
      case Plain(s) => s.Account()
      case Paired(p) => p.Account()
    }

    ghost function Avail(): seq<byte>
      requires Ready()
      reads match this case Plain(s) => {s, s.tr} + s.tr.Repr case Paired(p) => {p, p.inp, p.inp.tr} + p.InRepr()
    {
      Account().avail
    }

    /** One round of the loop of smap_stream_getdelim: at most room-1 bytes of the line. */
    method NextPiece(room: nat, delim: byte) returns (rc: Errno, data: seq<byte>)
      requires Ready() && room > 1
      modifies Objects()
      ensures Ready()
      ensures |data| < room && Drawn(rc == OK, old(Account()), data, Account())
      ensures rc == OK ==> OnlyLast(data, delim) && (data == [] ==> old(Avail()) == [])
      ensures old(Live()) && old(Avail()) != [] ==> rc == OK && Live()
    {
      match this
      case Plain(s) =>
        if s.buftype.Unbuffered? {
          ghost var failed;
          rc, data, failed := s.Read(1, false);
        } else {
          rc, data := s.ScanDelim(room, delim);
        }
      case Paired(p) =>
        ghost var failed;
        rc, data, failed := p.Read(1);
    }
  }

  /** The growing step of smap_stream_getdelim: room for at least one byte and the final NUL. */
  method MakeRoom(lineptr: seq<byte>, len: nat) returns (rc: Errno, grown: seq<byte>)
    requires len < |lineptr| <= SIZE_MAX
    ensures rc == (if len + 1 >= |lineptr| && |lineptr| > SSIZE_MAX then EOVERFLOW else OK)
    ensures |lineptr| <= |grown| <= SIZE_MAX && grown[..len] == lineptr[..len]
    ensures |grown| == if rc != OK || len + 1 < |lineptr| then |lineptr|
                       else if 2 * |lineptr| <= SSIZE_MAX then 2 * |lineptr| + 1 else SSIZE_MAX + 1
    ensures rc == OK ==> len + 1 < |grown|
    ensures |lineptr| <= SSIZE_MAX + 1 ==> |grown| <= SSIZE_MAX + 1
  {
    grown := lineptr;
    if len + 1 >= |lineptr| {
      var neededMax := SSIZE_MAX + 1;
      var needed := (2 * |lineptr| + 1) % SIZE_MOD;
      if neededMax < needed {
        needed := neededMax;
      }
      if len + 1 >= needed {
        return EOVERFLOW, lineptr;
      }
      grown := Resize(lineptr, needed);
    }
    rc := OK;
  }

  /** One round of smap_stream_getdelim: grow the memory when needed, then read into it. */
  method GetRound(h: Handle, buf: seq<byte>, len: nat, delim: byte)
    returns (rc: Errno, line: seq<byte>, data: seq<byte>)
    requires h.Ready() && len < |buf| <= SSIZE_MAX + 1
    modifies h.Objects()
    ensures h.Ready()
    ensures len + |data| < |line| <= SSIZE_MAX + 1 && line[..len + |data|] == buf[..len] + data
    ensures Drawn(rc == OK, old(h.Account()), data, h.Account())
    ensures rc == OK ==> old(h.Avail()) == data + h.Avail()
    ensures rc == OK ==> OnlyLast(data, delim) && (data == [] ==> old(h.Avail()) == [])
    ensures |line| >= |buf| && (|line| > |buf| ==> len + 1 >= |buf|)
    ensures old(h.Live()) && old(h.Avail()) != [] && len < SSIZE_MAX ==> rc == OK && h.Live()
  {
    hide Handle.Account, Handle.Ready, Handle.Live, OnlyLast;
    data := [];
    DrawnNothing(h.Account());
    rc, line := MakeRoom(buf, len);
    if rc == OK {
      rc, data := h.NextPiece(|line| - len, delim);
      line := Poke(line, len, data);
    }
  }

  /** Whether the final comparison, of a signed char with an int, can find the delimiter. */
  predicate Seen(delim: byte) { delim < 128 }

  /** The line that all begins with has its delimiter and fits the memory. */
  predicate LineFits(all: seq<byte>, delim: byte) { delim in all && |LineOf(all, delim)| < SSIZE_MAX }

  /** One round of smap_stream_getdelim; got is what line holds, all what there was to read at first. */
  method GetStep(h: Handle, buf: seq<byte>, len0: nat, delim: byte, ghost got0: seq<byte>, ghost all: Ledger)
    returns (rc: Errno, line: seq<byte>, len: nat, more: bool, ghost got: seq<byte>)
    requires h.Ready() && len0 < |buf| <= SSIZE_MAX + 1
    requires |got0| == len0 && buf[..len0] == got0 && Drawn(true, all, got0, h.Account())
    requires Seen(delim) ==> Free(got0, delim)
    modifies h.Objects()
    ensures h.Ready() && len < |line| <= SSIZE_MAX + 1 && |got| == len && line[..len] == got
    ensures Drawn(rc == OK, all, got, h.Account())
    ensures more ==> rc == OK && (Seen(delim) ==> Free(got, delim)) && |h.Avail()| < |old(h.Avail())|
    ensures rc == OK && !more ==> GotLine(got, h.Avail(), delim)
    ensures |line| >= |buf| && len >= len0 && (|line| > |buf| ==> len0 + 1 >= |buf|)
    ensures old(h.Live()) && Seen(delim) && LineFits(all.avail, delim) ==> rc == OK && h.Live()
  {
    hide Handle.Account, Handle.Ready, Handle.Live, OnlyLast, EndsWith, LineOf, GotLine;
    if Seen(delim) && LineFits(all.avail, delim) {
      LineNotYet(got0, h.Avail(), delim);
    }
    ghost var mid := h.Account();
    var data;
    rc, line, data := GetRound(h, buf, len0, delim);
    len, got := len0 + |data|, got0 + data;
    DrawnThen(true, all, got0, mid, rc == OK, data, h.Account());
    if rc == OK {
      LineGot(got0, data, h.Avail(), delim);
    }
    more := rc == OK && data != [] && !(Seen(delim) && line[len - 1] == delim);
  }

  /**
   * smap_stream_getdelim. buf is the caller's memory (empty for a null pointer or size 0). On
   * success the line is exactly the next bytes through the first delimiter, or to the end, and
   * exactly the rest is left, whatever the buffering, the buffer sizes and the transfer sizes: if
   * and only if the delimiter is below 128 or there is none before the end. Otherwise the line is
   * everything up to the end. The memory grows only when the line needs it.
   */
  method GetDelim(h: Handle, buf: seq<byte>, delim: byte) returns (rc: Errno, line: seq<byte>, len: nat)
    requires h.Ready() && |buf| <= SSIZE_MAX + 1
    modifies h.Objects()
    ensures h.Ready()
    ensures len < |line| <= SSIZE_MAX + 1 && line[len] == NUL
    ensures Drawn(rc == OK, old(h.Account()), line[..len], h.Account())
    ensures rc == OK ==> old(h.Avail()) == line[..len] + h.Avail()
    ensures rc == OK ==>
              (line[..len] == LineOf(old(h.Avail()), delim) <==> delim < 128 || OnlyLast(old(h.Avail()), delim))
    ensures rc == OK && delim >= 128 ==> line[..len] == old(h.Avail())
    ensures old(h.Live()) && delim < 128 && LineFits(old(h.Avail()), delim) ==> rc == OK && h.Live()
    ensures |line| >= if buf == [] then 120 else |buf|
    ensures len + 1 < (if buf == [] then 120 else |buf|) ==> |line| == if buf == [] then 120 else |buf|
  {
    hide Handle.Account, Handle.Ready, Handle.Live, OnlyLast, EndsWith, LineOf, GotLine;
    line := buf;
    if |line| == 0 {
      line := Resize(line, 120);
    }
    ghost var size := |line|;
    len := 0;
    rc := OK;
    var more := true;
    ghost var got: seq<byte>, all := [], h.Account();
    ghost var sure := h.Live() && Seen(delim) && LineFits(all.avail, delim);
    DrawnNothing(all);
    while more
      invariant h.Ready() && len < |line| <= SSIZE_MAX + 1 && |got| == len && line[..len] == got
      invariant Drawn(rc == OK, all, got, h.Account())
      invariant more ==> rc == OK && (Seen(delim) ==> Free(got, delim))
      invariant rc == OK && !more ==> GotLine(got, h.Avail(), delim)
      invariant sure ==> rc == OK && h.Live() && LineFits(all.avail, delim)
      invariant |line| >= size && (|line| > size ==> len + 1 >= size)
      decreases if more then |h.Avail()| + 1 else 0
    {
      rc, line, len, more, got := GetStep(h, line, len, delim, got, all);
    }
    line := line[len := NUL];
    assert line[..len] == got;
    if rc == OK {
      GotLineIs(got, h.Avail(), delim);
    }
  }

  /** got is a whole line: it ends with its delimiter, or nothing is left. */
  predicate GotLine(got: seq<byte>, rest: seq<byte>, delim: byte) {
    if Seen(delim) then OnlyLast(got, delim) && (EndsWith(got, delim) || (rest == [] && Free(got, delim)))
    else rest == []
  }

  lemma LineGot(got: seq<byte>, data: seq<byte>, rest: seq<byte>, delim: byte)
    requires (Seen(delim) ==> Free(got, delim)) && OnlyLast(data, delim)
    ensures data == [] && rest == [] ==> GotLine(got + data, rest, delim)
    ensures Seen(delim) && data != [] ==>
              if data[|data| - 1] == delim then GotLine(got + data, rest, delim) else Free(got + data, delim)
  {
    if Seen(delim) {
      LineGrows(got, data, delim);
    }
    assert data == [] ==> got + data == got;
  }

  lemma GotLineIs(got: seq<byte>, rest: seq<byte>, delim: byte)
    requires GotLine(got, rest, delim)
    ensures LineOf(got + rest, delim) == got <==> Seen(delim) || OnlyLast(got + rest, delim)
    ensures !Seen(delim) ==> got + rest == got
  {
    if Seen(delim) {
      LineOfIs(got, rest, delim);
    } else {
      assert got + rest == got;
      LineIsAll(got, delim);
    }
  }

  lemma LineIsAll(s: seq<byte>, delim: byte)
    ensures LineOf(s, delim) == s <==> OnlyLast(s, delim)
  {
    var k := IndexOf(s, delim);
    if k < |s| {
      assert LineOf(s, delim) == s ==> |s| == k + 1;
      assert OnlyLast(s, delim) ==> k == |s| - 1;
    }
  }
}
