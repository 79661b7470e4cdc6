/**
 * The function pointers of struct _smap_stream: what stands behind a buffered stream. Either a
 * plain byte transport, or one end of the sockmap framing.
 */
module Transports {
  import opened Bytes
  import opened Channels
  import opened Decimal
  import opened LineText
  import opened Sockmap

  datatype Io =
    | Raw(chan: Channel)       // transfers any non-empty part of what it is asked for, or fails
    | Reader(dev: InputDevice)
    | Writer(out: OutputDevice)

  /** The wire of a lockstep reader holds nothing, or one whole frame. */
  predicate Framed(u: seq<byte>) {
    HasBody(u) && OneFrame(u) && u[|u| - 1] == COMMA
  }

  /** The line a framed wire delivers: its payload and a newline. */
  function LineIn(u: seq<byte>): seq<byte> {
    if Framed(u) then u[ParsePrefix(u).at..|u| - 1] + [NL] else []
  }

  lemma FrameIsLine(p: seq<byte>)
    requires Framable(p)
    ensures Framed(Frame(p)) && LineIn(Frame(p)) == p + [NL]
  {
    FrameParses(p, []);
    assert Frame(p) + [] == Frame(p);
  }

  /** What a wire with any bytes delivers: the lines of its frames, up to the first that is incomplete. */
  function LinesIn(u: seq<byte>): seq<byte> {
    if !HasBody(u) then []
    else
      var b := ParsePrefix(u);
      var end := b.at + b.size;
      (if u[end] == COMMA then u[b.at..end] + [NL] else []) + LinesIn(u[end + 1..])
  }

  lemma LinesInNext(p: seq<byte>, rest: seq<byte>)
    requires Framable(p)
    ensures LinesIn(Frame(p) + rest) == p + [NL] + LinesIn(rest)
  {
    hide LinesIn, ParsePrefix, Frame;
    FrameParses(p, rest);
    FrameSize(p);
    var u, at := Frame(p) + rest, |Digits(|p|)| + 1;
    LinesInStep(u);
    BodyOf(u, at, p);
  }

  lemma BodyOf(u: seq<byte>, at: nat, p: seq<byte>)
    requires at + |p| + 1 <= |u| && u[at..][..|p| + 1] == p + [COMMA]
    ensures u[at..at + |p|] == p && u[at + |p|] == COMMA
  {
    assert u[at..at + |p|] == (p + [COMMA])[..|p|];
    assert u[at + |p|] == (p + [COMMA])[|p|];
  }

  lemma FrameSize(p: seq<byte>)
    ensures |Frame(p)| == |Digits(|p|)| + |p| + 2
  {
  }

  lemma LinesInOne(u: seq<byte>)
    requires u == [] || Framed(u)
    ensures LinesIn(u) == LineIn(u)
  {
    if u != [] {
      assert u[|u|..] == [];
      assert LinesIn([]) == [];
    }
  }

  lemma LineParts(u: seq<byte>)
    requires Framed(u)
    ensures var b := ParsePrefix(u);
            |u| == b.at + b.size + 1 && |LineIn(u)| == b.size + 1
            && LineIn(u) == u[b.at..b.at + b.size] + [NL] && u[|u| - 1..] == [COMMA]
  {
  }

  /** The payload the frame writer takes from one call: everything but its last byte. */
  function DropLast(s: seq<byte>): seq<byte> { if s == [] then [] else s[..|s| - 1] }

  function Payloads(calls: seq<seq<byte>>): seq<seq<byte>> {
    seq(|calls|, i requires 0 <= i < |calls| => DropLast(calls[i]))
  }

  /** What one completed write call puts on the wire. */
  function Packet(framed: bool, call: seq<byte>): seq<byte> {
    if framed then Frame(DropLast(call)) else call
  }

  function Packets(framed: bool, calls: seq<seq<byte>>): seq<seq<byte>> {
    seq(|calls|, i requires 0 <= i < |calls| => Packet(framed, calls[i]))
  }

  /** What a series of completed write calls puts on the wire. */
  function OnWire(framed: bool, calls: seq<seq<byte>>): seq<byte> { Concat(Packets(framed, calls)) }

  lemma OnWireAppend(framed: bool, p: seq<seq<byte>>, q: seq<seq<byte>>)
    ensures OnWire(framed, p + q) == OnWire(framed, p) + OnWire(framed, q)
    ensures Payloads(p + q) == Payloads(p) + Payloads(q)
  {
    assert Packets(framed, p + q) == Packets(framed, p) + Packets(framed, q);
    ConcatAppend(Packets(framed, p), Packets(framed, q));
  }

  /** From one wire and frame log to another, by exactly the given calls. */
  ghost predicate Took(framed: bool, wire: seq<byte>, frames: seq<seq<byte>>,
                       wire': seq<byte>, frames': seq<seq<byte>>, calls: seq<seq<byte>>)
  {
    wire' == wire + OnWire(framed, calls) && (framed ==> frames' == frames + Payloads(calls))
  }

  lemma TookNothing(framed: bool, wire: seq<byte>, frames: seq<seq<byte>>)
    ensures Took(framed, wire, frames, wire, frames, [])
  {
    OnWireOne(framed, []);
  }

  /** Deliveries add up: calls and then more. */
  lemma TookThen(framed: bool, w0: seq<byte>, f0: seq<seq<byte>>, w1: seq<byte>, f1: seq<seq<byte>>,
                 w2: seq<byte>, f2: seq<seq<byte>>, calls: seq<seq<byte>>, more: seq<seq<byte>>)
    requires Took(framed, w0, f0, w1, f1, calls) && Took(framed, w1, f1, w2, f2, more)
    ensures Took(framed, w0, f0, w2, f2, calls + more)
  {
    OnWireAppend(framed, calls, more);
    Assoc(w0, OnWire(framed, calls), OnWire(framed, more));
    Assoc(f0, Payloads(calls), Payloads(more));
  }

  lemma OnWireOne(framed: bool, call: seq<byte>)
    ensures OnWire(framed, [call]) == Packet(framed, call) && OnWire(framed, []) == []
    ensures Payloads([call]) == [DropLast(call)] && Payloads([]) == []
  {
    assert Packets(framed, [call]) == [Packet(framed, call)] && Packets(framed, []) == [];
    ConcatOne(Packet(framed, call));
  }

  /** Of a frame only a part has been put on the wire. */
  predicate CutShort(wire: seq<byte>, frame: seq<byte>, wire': seq<byte>) {
    wire <= wire' && |wire| < |wire'| < |wire| + |frame| && wire'[|wire|..] <= frame
  }

  lemma PartSent(wire: seq<byte>, frame: seq<byte>, wire': seq<byte>)
    ensures (exists k :: 0 < k < |frame| && wire' == wire + frame[..k]) ==> CutShort(wire, frame, wire')
  {
  }

  /** What it takes for one call to have been taken. */
  lemma TookOne(framed: bool, wire: seq<byte>, frames: seq<seq<byte>>, call: seq<byte>)
    ensures Took(framed, wire, frames, wire + Packet(framed, call), frames + [DropLast(call)], [call])
    ensures forall any: seq<seq<byte>> :: !framed ==> Took(framed, wire, frames, wire + call, any, [call])
  {
    OnWireOne(framed, call);
  }

  /** A plain transport receives exactly the concatenation of the calls. */
  lemma OnRawWire(calls: seq<seq<byte>>)
    ensures OnWire(false, calls) == Concat(calls)
  {
    assert Packets(false, calls) == calls;
  }

  /**
   * A read of the frame reader, whatever is on the wire: a line delivered is the next of the wire's
   * lines, and a failure takes none of them, unless it is the reader's loss of its place (Lost).
   */
  method ReadLine(d: InputDevice, size: nat, count: nat) returns (rc: Errno, n: nat, data: seq<byte>)
    requires d.Valid() && 0 < size && count <= size
    modifies d, d.nbuf, d.chan
    ensures d.Valid() && |data| <= size
    ensures rc == OK ==>
              && n == |data| && LinesIn(old(d.Unread())) == data + LinesIn(d.Unread())
              && (data == [] ==> old(LinesIn(d.Unread())) == []) && d.AtBoundary()
    ensures rc == ERANGE ==>
              && size < n <= TOO_BIG && data == []
              && d.Unread() == old(d.Unread()) && n == Need(d.Unread())
    ensures rc !in {OK, ERANGE} ==>
              && n <= size
              && (!Lost(old(d.Unread()), rc) ==> LinesIn(d.Unread()) == LinesIn(old(d.Unread())))
    ensures old(OneLineIn(d)) ==>
              && rc == (if size < |LineIn(old(d.Unread()))| then ERANGE else OK)
              && (rc == OK ==> d.Unread() == []) && !Lost(old(d.Unread()), rc)
    ensures SpoiledFrame(old(d.Unread()), size) ==> Misread(rc, n, data, old(d.Unread()))
  {
    ghost var u, one, stuck := d.Unread(), OneLineIn(d), d.Stuck();
    d.StuckIsTooLong();
    LinesInStep(u);
    NothingIn();
    hide LinesIn, LineIn, Framed, ParsePrefix, InputDevice.Valid, InputDevice.Stuck, InputDevice.Answered;
    rc, n, data := d.Read(size, count);
    if !stuck {
      ReadTakes(d, u, size, count, rc, n, data);
      if one {
        ReadOfOne(d, u, size, count, rc, n, data);
      }
    }
  }

  lemma ReadTakes(d: InputDevice, u: seq<byte>, size: nat, count: nat, rc: Errno, n: nat, data: seq<byte>)
    requires d.Valid() && d.Answered(u, size, count, rc, n, data) && count <= size && |data| <= size
    ensures rc == OK ==>
              && n == |data| && LinesIn(u) == data + LinesIn(d.Unread())
              && (data == [] ==> LinesIn(u) == []) && d.AtBoundary()
    ensures rc == ERANGE ==> size < n <= TOO_BIG && data == [] && d.Unread() == u && n == Need(u)
    ensures rc !in {OK, ERANGE, Overrun} ==>
              n <= size && (!Lost(u, rc) ==> LinesIn(d.Unread()) == LinesIn(u))
  {
    assert d.nlen <= d.nbuf.Length;
    hide LinesIn, ParsePrefix, InputDevice.Valid, InputDevice.Stuck;
    LinesInStep(u);
    NothingIn();
    if d.AtBoundary() {
      assert d.Unread() == [] + d.chan.data == d.chan.data;
    }
    LinesInStep(d.Unread());
  }

  lemma ReadOfOne(d: InputDevice, u: seq<byte>, size: nat, count: nat, rc: Errno, n: nat, data: seq<byte>)
    requires d.Valid() && d.Answered(u, size, count, rc, n, data) && (u == [] || Framed(u))
    ensures rc == (if size < |LineIn(u)| then ERANGE else OK)
    ensures rc == OK ==> d.Unread() == []
  {
    if u != [] {
      LineParts(u);
      FramedBody(u);
    }
    NothingIn();
    hide LinesIn, LineIn, Framed, ParsePrefix, InputDevice.Valid, InputDevice.Stuck;
    if d.AtBoundary() {
      assert d.Unread() == [] + d.chan.data == d.chan.data;
    }
  }

  lemma NothingIn()
    ensures ParsePrefix([]).NoData? && !HasBody([]) && LinesIn([]) == LineIn([]) == []
  {
  }

  lemma FramedBody(u: seq<byte>)
    requires Framed(u)
    ensures HasBody(u) && OneFrame(u)
    ensures var b := ParsePrefix(u); |u| == b.at + b.size + 1 && u[b.at + b.size] == COMMA && u[|u|..] == []
  {
  }

  lemma LinesInStep(u: seq<byte>)
    ensures !HasBody(u) ==> LinesIn(u) == []
    ensures HasBody(u) ==>
              var b := ParsePrefix(u);
              var rest := LinesIn(u[b.at + b.size + 1..]);
              LinesIn(u) == if u[b.at + b.size] == COMMA then u[b.at..b.at + b.size] + [NL] + rest else rest
  {
  }

  /** The room that the first frame asks for. */
  function Need(u: seq<byte>): nat { if ParsePrefix(u).Body? then ParsePrefix(u).size + 1 else 0 }

  /** A read after which it is not known where on the wire the reader is. */
  predicate Lost(u: seq<byte>, rc: Errno) { rc == Overrun || (rc == EPROTO && ParsePrefix(u).NotDigits?) }

  /** A whole frame whose body fits in size bytes, but which does not end with a comma. */
  predicate SpoiledFrame(u: seq<byte>, size: nat) {
    var b := ParsePrefix(u);
    HasBody(u) && OneFrame(u) && b.size + 1 <= size && u[b.at + b.size] != COMMA
  }

  /** The read of such a frame fails, but reports its body and what stands for the comma. */
  ghost predicate Misread(rc: Errno, n: nat, data: seq<byte>, u: seq<byte>) {
    var b := ParsePrefix(u);
    rc == EPROTO && HasBody(u) && n == |data| == b.size + 1 && data == u[b.at..b.at + b.size + 1]
  }

  /** The reader sees at most one frame, complete (lockstep). */
  ghost predicate OneLineIn(d: InputDevice)
    requires d.nlen <= d.nbuf.Length
    reads d, d.nbuf, d.chan
  {
    d.Unread() == [] || Framed(d.Unread())
  }

  class Transport {
    const io: Io
    ghost const Repr: set<object>
    ghost var failed: bool  // a write has failed
    ghost var lost: bool    // the frame reader has lost its place on the wire
    ghost var faults: nat   // reads that have failed

    ghost predicate Valid()
      reads this, Repr
    {
      && this in Repr
      && match io
         case Raw(c) => c in Repr
         case Reader(d) => d in Repr && d.nbuf in Repr && d.chan in Repr && d.Valid()
         case Writer(o) => o in Repr && o.chan in Repr && o.Valid()
    }

    /** A sockmap reader sees at most one frame, complete. */
    ghost predicate Lockstep()
      requires Valid()
      reads this, Repr
    {
      !lost && (io.Reader? ==> OneLineIn(io.dev))
    }

    /** The bytes the transport still has to deliver. */
    ghost function Pending(): seq<byte>
      requires Valid()
      reads this, Repr
    {
      match io
      case Raw(c) => c.data
      case Reader(d) => LinesIn(d.Unread())
      case Writer(_) => []
    }

    /** A read with room for size bytes will store a whole frame and find no comma behind it. */
    ghost predicate TakesSpoiled(size: nat)
      requires Valid()
      reads this, Repr
    {
      io.Reader? && SpoiledFrame(Inbound(), size)
    }

    /** What a frame reader has received but not delivered, and what is on its wire. */
    ghost function Inbound(): seq<byte>
      requires Valid()
      reads this, Repr
    {
      if io.Reader? then io.dev.Unread() else []
    }

    /** The room that a transport asks for when it has too little. */
    ghost function Room(): nat
      requires Valid()
      reads this, Repr
    {
      if io.Reader? then Need(Inbound()) else 0
    }

    constructor (io: Io)
      requires io.Reader? ==> io.dev.Valid()
      requires io.Writer? ==> io.out.Valid()
      ensures Valid() && this.io == io && !failed && !lost && faults == 0
      ensures Repr == {this} + (match io
                                case Raw(c) => {c as object}
                                case Reader(d) => {d, d.nbuf, d.chan}
                                case Writer(o) => {o, o.chan})
    {
      this.io, failed, lost, faults := io, false, false, 0;
      Repr := {this} + (match io
                        case Raw(c) => {c as object}
                        case Reader(d) => {d, d.nbuf, d.chan}
                        case Writer(o) => {o, o.chan});
    }

    /** Everything put on the outgoing wire and not yet taken from it. */
    ghost function Wire(): seq<byte>
      requires Valid()
      reads this, Repr
    {
      match io
      case Raw(c) => c.data
      case Reader(_) => []
      case Writer(o) => o.chan.data
    }

    /** The payloads framed so far, one for each call of a frame writer. */
    ghost function Frames(): seq<seq<byte>>
      requires Valid()
      reads this, Repr
    {
      if io.Writer? then io.out.frames else []
    }

    /**
     * The write pointer. A plain transport accepts any non-empty part or fails; a frame writer
     * takes the whole call, and runs below its number buffer (Overrun) when the length is too big.
     */
    method Write(data: seq<byte>) returns (rc: Errno, n: nat)
      requires Valid() && data != [] && !io.Reader?
      modifies Repr
      ensures Valid()
      ensures rc == OK ==> 1 <= n <= |data|
      ensures failed == (old(failed) || rc !in {OK, Overrun}) && lost == old(lost) && faults == old(faults)
      ensures rc == Overrun ==> |data| > TOO_BIG
      ensures rc !in {OK, Overrun} && io.Writer? ==>
                rc == EIO && Frames() == old(Frames()) && CutShort(old(Wire()), Frame(DropLast(data)), Wire())
      ensures rc == OK && io.Raw? ==> Wire() == old(Wire()) + data[..n]
      ensures rc == OK && io.Writer? ==>
                && n == |data| && Wire() == old(Wire()) + Frame(DropLast(data))
                && Frames() == old(Frames()) + [DropLast(data)]
    {
      match io
      case Raw(c) =>
        if * {
          failed := true;
          rc :| rc in {EIO, EAGAIN, EINPROGRESS};
          return rc, 0;
        }
        n := c.Send(data);
        rc := OK;
      case Writer(o) =>
        if |data| - 1 >= TOO_BIG {
          return Overrun, 0;
        }
        ghost var wire := o.chan.data;
        rc, n := o.Write(data);
        PartSent(wire, Frame(DropLast(data)), o.chan.data);
        failed := failed || rc != OK;
      case Reader(_) =>
        assert false;
    }

    /**
     * The read pointer: n is the count reported, data the bytes stored, more whether the transport
     * asks for a larger buffer (_SMAP_STR_MORESPC). The caller's count variable holds count before
     * the call; a read that fails need not set it, or may set it although it fails.
     */
    method Read(size: nat, count: nat) returns (rc: Errno, n: nat, data: seq<byte>, more: bool)
      requires Valid() && size > 0 && count <= size && !io.Writer?
      modifies Repr
      ensures Valid() && |data| <= size
      ensures rc == OK ==>
                && !more && n == |data| && old(Pending()) == data + Pending()
                && (data == [] ==> old(Pending()) == [])
      ensures more ==> rc == ERANGE && size < n == Room() == old(Room()) <= TOO_BIG && Pending() == old(Pending())
      ensures more ==> data == []
      ensures rc != OK && !lost ==> Pending() == old(Pending())
      ensures rc != OK && !more ==> n <= size
      ensures rc == OK || more ==> lost == old(lost)
      ensures faults == old(faults) + if rc == OK then 0 else 1
      ensures lost <==> old(lost) || (io.Reader? && Lost(old(Inbound()), rc))
      ensures io.Reader? && old(Lockstep()) ==>
                && Lockstep() && !lost && (rc == OK || more) && (more <==> size < |old(Pending())|)
                && (rc == OK ==> io.dev.AtBoundary() && io.dev.Unread() == [])
      ensures old(TakesSpoiled(size)) ==> !more && Misread(rc, n, data, old(Inbound()))
    {
      hide LinesIn, LineIn, Framed, ParsePrefix, HasBody, InputDevice.Stuck, SpoiledFrame;
      more := false;
      match io
      case Raw(c) =>
        if * {
          rc :| rc in {EIO, EAGAIN, EINPROGRESS};
          n :| n <= size;
          faults := faults + 1;
          return rc, n, [], false;
        }
        data := c.Recv(size);
        n := |data|;
        rc := OK;
      case Reader(d) =>
        ghost var u := d.Unread();
        if OneLineIn(d) {
          LinesInOne(u);
        }
        rc, n, data := ReadLine(d, size, count);
        more := rc == ERANGE;
        lost := lost || Lost(u, rc);
        faults := faults + if rc == OK then 0 else 1;
      case Writer(_) =>
        assert false;
    }
  }
}
