/**
 * The lockstep query session between src/smapc.c and src/smapd.c over a sockmap connection:
 * printf of the query, getline and dispatch in the server, the reply, getline in the client.
 */
module Session {
  import opened Bytes
  import opened Channels
  import opened LineText
  import opened Sockmap
  import opened Transports
  import opened Streams
  import opened PairedStreams

  datatype Query = Query(map_: seq<byte>, key: seq<byte>)

  /** What smapc can send: C strings without newlines, and no space in the map name. */
  predicate Sendable(q: Query) {
    && Free(q.map_, SPACE) && Free(q.map_, NL) && Free(q.map_, NUL)
    && Free(q.key, NL) && Free(q.key, NUL)
    && |q.map_| + |q.key| + 2 < SSIZE_MAX
  }

  /** The line smapc_query prints. */
  function QueryLine(q: Query): seq<byte> { q.map_ + [SPACE] + q.key + [NL] }

  /** smap_trimnl and the strchr split of smap_loop, on the memory holding the line. */
  function ParseQuery(buf: seq<byte>): Option<Query> {
    var s := CString(buf);
    var line := if EndsWith(s, NL) then s[..|s| - 1] else s;
    var k := IndexOf(line, SPACE);
    if k == |line| then None else Some(Query(line[..k], line[k + 1..]))
  }

  /** The server takes apart exactly what the client put together. */
  lemma QueryRoundTrip(q: Query, buf: seq<byte>, len: nat)
    requires Sendable(q) && len < |buf|
    requires buf[..len] == QueryLine(q) && buf[len] == NUL
    ensures ParseQuery(buf) == Some(q)
  {
    var s := QueryLine(q);
    var body := q.map_ + [SPACE] + q.key;
    assert forall i :: 0 <= i < len ==> buf[i] == s[i];
    IndexOfIs(buf, NUL, len);
    assert s[..|s| - 1] == body;
    IndexOfIs(body, SPACE, |q.map_|);
    assert body[..|q.map_|] == q.map_ && body[|q.map_| + 1..] == q.key;
  }

  /** The query line of the map m and the key k x, byte by byte. */
  lemma QueryExample()
    ensures QueryLine(Query([109], [107, 32, 120])) == [109, 32, 107, 32, 120, 10]
    ensures ParseQuery([109, 32, 107, 32, 120, 10, 0]) == Some(Query([109], [107, 32, 120]))
  {
    var q, buf := Query([109], [107, 32, 120]), [109, 32, 107, 32, 120, 10, 0];
    assert buf[..6] == QueryLine(q);
    QueryRoundTrip(q, buf, 6);
  }

  /** A line is taken apart at its first space, whatever it is; without one it is no query. */
  lemma ParseExactly(line: seq<byte>, buf: seq<byte>, q: Query)
    requires CString(buf) == line || CString(buf) == line + [NL]
    requires !EndsWith(line, NL)
    ensures ParseQuery(buf) == None <==> SPACE !in line
    ensures ParseQuery(buf) == Some(q) <==> line == q.map_ + [SPACE] + q.key && SPACE !in q.map_
  {
    assert (line + [NL])[..|line|] == line;
    var k := IndexOf(line, SPACE);
    assert SPACE in line <==> k < |line|;
    if k < |line| {
      assert line == line[..k] + [SPACE] + line[k + 1..];
      assert SPACE !in line[..k];
    }
    if line == q.map_ + [SPACE] + q.key && SPACE !in q.map_ {
      IndexOfIs(line, SPACE, |q.map_|);
      assert line[..|q.map_|] == q.map_ && line[|q.map_| + 1..] == q.key;
    }
  }

  lemma QueryLineIsLine(q: Query)
    requires Sendable(q)
    ensures OnlyLast(QueryLine(q), NL) && EndsWith(QueryLine(q), NL) && |QueryLine(q)| < SSIZE_MAX
  {
  }

  // ---- one end of a connection ----

  ghost predicate Sockmapped(p: PairedStream) {
    && p.Apart()
    && p.inp.tr.io.Reader? && p.outp.tr.io.Writer?
    && p.inp.tr.Repr == {p.inp.tr, p.inp.tr.io.dev, p.inp.tr.io.dev.nbuf, p.inp.tr.io.dev.chan}
    && p.outp.tr.Repr == {p.outp.tr, p.outp.tr.io.out, p.outp.tr.io.out.chan}
  }

  /** The input side is at a frame boundary, with nothing buffered and nothing on the wire. */
  ghost predicate InAtRest(p: PairedStream)
    reads p, p.inp, p.inp.tr, p.InRepr()
  {
    && Sockmapped(p) && p.Ready() && p.Live()
    && p.inp.level == 0
    && p.inp.tr.io.dev.AtBoundary() && p.inp.tr.io.dev.chan.data == []
  }

  /** The output side holds no part of a line. */
  ghost predicate OutAtRest(p: PairedStream)
    reads p, p.outp, p.outp.tr, p.OutRepr()
  {
    && Sockmapped(p) && p.outp.Writable() && p.outp.expbuf && p.outp.level == 0
    && !p.err && !p.outp.Blocked()
  }

  /** from writes where to reads; nothing else is shared. */
  ghost predicate Linked(from: PairedStream, to: PairedStream) {
    && Sockmapped(from) && Sockmapped(to) && from != to
    && from.outp.tr.io.out.chan == to.inp.tr.io.dev.chan
    && ({to as object} + to.InRepr()) * ({from as object} + from.OutRepr()) == {to.inp.tr.io.dev.chan}
    && ({to as object} + to.InRepr()) !! from.InRepr()
    && ({to as object} + to.OutRepr()) !! ({from as object} + from.OutRepr())
  }

  /** Any number of smap_stream_write calls on one end. */
  method SendPieces(p: PairedStream, pieces: seq<seq<byte>>) returns (rc: Errno, ghost calls: seq<seq<byte>>)
    requires p.Apart() && p.outp.Writable() && p.outp.expbuf && !p.err
    requires forall i :: 0 <= i < |pieces| ==> OnlyLast(pieces[i], NL)
    modifies p`err, p`lastErr, p`wrt, p`bytesOut, p.OutRepr()
    ensures p.outp.Valid() && p.outp.SameKind() && p.outp.Excused(rc, old(p.outp.level) + |Concat(pieces)|)
    ensures rc == OK ==>
              && p.outp.Writable() && p.outp.Delivered(calls) && !p.err
              && calls == CompleteLines(old(p.outp.Buffered()) + Concat(pieces))
              && p.outp.Buffered() == Tail(old(p.outp.Buffered()) + Concat(pieces))
    decreases |pieces|
  {
    hide Transport.Valid, Transport.Wire, Transport.Frames, Took, CompleteLines, Tail;
    ghost var b := p.outp.Buffered();
    if pieces == [] {
      NoLines(b);
      assert b + Concat(pieces) == b;
      TookNothing(p.outp.tr.io.Writer?, p.outp.tr.Wire(), p.outp.tr.Frames());
      return OK, [];
    }
    var before, last := pieces[..|pieces| - 1], pieces[|pieces| - 1];
    assert pieces == before + [last];
    ConcatAppend(before, [last]);
    ConcatOne(last);
    rc, calls := SendPieces(p, before);
    if rc == OK {
      ghost var wire, frames, tail := p.outp.tr.Wire(), p.outp.tr.Frames(), p.outp.Buffered();
      ghost var made;
      LinesAndTail(b + Concat(before));
      OnlyLastNoGap(p.outp.level, p.outp.bufsize, last);
      rc, made := p.Write(last);
      if rc == OK {
        TookThen(p.outp.tr.io.Writer?, old(p.outp.tr.Wire()), old(p.outp.tr.Frames()), wire, frames,
                 p.outp.tr.Wire(), p.outp.tr.Frames(), calls, made);
        calls := calls + made;
        LinesOfPiece(b, before, last);
      }
    }
  }

  /** A line as the session layer exchanges it: one newline, at the end, and of a size memory can hold. */
  predicate SessionLine(l: seq<byte>) {
    OnlyLast(l, NL) && EndsWith(l, NL) && |l| < SSIZE_MAX
  }

  /** The whole line is at the reader's disposal, and nothing after it. */
  ghost predicate InHolds(p: PairedStream, l: seq<byte>)
    reads p, p.inp, p.inp.tr, p.InRepr()
  {
    Sockmapped(p) && p.Ready() && p.Live() && p.Avail() == l
  }

  lemma FrameArrives(p: PairedStream, l: seq<byte>)
    requires Sockmapped(p) && p.Ready() && p.Live() && p.inp.level == 0
    requires p.inp.tr.io.dev.nlen == 0 && p.inp.tr.io.dev.chan.data == Frame(DropLast(l))
    requires SessionLine(l)
    ensures InHolds(p, l)
  {
    hide Frame, LineIn, Framed, DropLast, PairedStream.Ready;
    var d := p.inp.tr.io.dev;
    PairPending(p);
    LastByte(l);
    FrameIsLine(DropLast(l));
    assert d.nbuf[..d.nlen] == [];
    assert d.Unread() == [] + Frame(DropLast(l)) == Frame(DropLast(l));
  }

  lemma LastByte(l: seq<byte>)
    requires EndsWith(l, NL)
    ensures DropLast(l) + [NL] == l
  {
  }

  lemma PairPending(p: PairedStream)
    requires Sockmapped(p) && p.Ready() && p.Live() && p.inp.level == 0
    ensures p.inp.tr.io.dev.Valid() && p.Avail() == LineIn(p.inp.tr.io.dev.Unread())
  {
    LinesInOne(p.inp.tr.io.dev.Unread());
    hide LineIn, LinesIn, Framed;
    assert p.inp.Buffered() == [];
    assert [] + p.inp.Source() == p.inp.Source();
  }

  lemma NothingLeft(p: PairedStream)
    requires Sockmapped(p) && p.Ready() && p.Live() && p.Avail() == []
    ensures InAtRest(p)
  {
    var d := p.inp.tr.io.dev;
    LinesInOne(d.Unread());
    assert p.inp.Buffered() == [] && p.inp.Source() == [];
    assert |d.Unread()| == d.nlen + |d.chan.data|;
  }

  /** A write has failed on the socket, or the output buffer cannot grow. */
  ghost predicate Broken(p: PairedStream)
    reads p, p.outp, p.outp.tr
  {
    p.outp.tr.failed || p.outp.bufsize == SIZE_MAX
  }

  /** Write one line in pieces: exactly its frame goes out. */
  method SendFrame(p: PairedStream, pieces: seq<seq<byte>>) returns (rc: Errno)
    requires OutAtRest(p) && SessionLine(Concat(pieces))
    requires forall i :: 0 <= i < |pieces| ==> OnlyLast(pieces[i], NL)
    modifies p`err, p`lastErr, p`wrt, p`bytesOut, p.OutRepr()
    ensures rc == OK ==>
              && OutAtRest(p)
              && p.outp.tr.io.out.chan.data == old(p.outp.tr.io.out.chan.data) + Frame(DropLast(Concat(pieces)))
    ensures rc != OK ==> Broken(p)
  {
    ghost var l := Concat(pieces);
    ghost var calls;
    assert p.outp.Buffered() + l == l;
    OneLine(l);
    OnWireOne(true, l);
    rc, calls := SendPieces(p, pieces);
    if rc == OK {
      assert calls == [l] && p.outp.Buffered() == [];
    }
  }

  /** Writing does not touch the reader at the other end, only the wire to it. */
  lemma OnlyWireShared(from: PairedStream, to: PairedStream)
    requires Linked(from, to)
    ensures to !in FromSide(from) && to.inp !in FromSide(from) && to.inp.tr !in FromSide(from)
    ensures to.inp.tr.io.dev !in FromSide(from) && to.inp.tr.io.dev.nbuf !in FromSide(from)
  {
    NotShared(from, to, to);
    NotShared(from, to, to.inp);
    NotShared(from, to, to.inp.tr);
    NotShared(from, to, to.inp.tr.io.dev);
    NotShared(from, to, to.inp.tr.io.dev.nbuf);
  }

  ghost function FromSide(p: PairedStream): set<object> { {p as object} + p.OutRepr() }

  lemma NotShared(from: PairedStream, to: PairedStream, o: object)
    requires Linked(from, to) && o in {to as object} + to.InRepr() && o != to.inp.tr.io.dev.chan
    ensures o !in FromSide(from)
  {
    var both := ({to as object} + to.InRepr()) * ({from as object} + from.OutRepr());
    assert o !in both;
  }

  /** Write one line in pieces; it arrives at the other end as that line. */
  method SendLine(from: PairedStream, to: PairedStream, pieces: seq<seq<byte>>) returns (rc: Errno)
    requires Linked(from, to) && OutAtRest(from) && InAtRest(to)
    requires SessionLine(Concat(pieces))
    requires forall i :: 0 <= i < |pieces| ==> OnlyLast(pieces[i], NL)
    modifies from`err, from`lastErr, from`wrt, from`bytesOut, from.OutRepr()
    ensures rc == OK ==> OutAtRest(from) && InHolds(to, Concat(pieces))
    ensures rc != OK ==> Broken(from)
  {
    OnlyWireShared(from, to);
    rc := SendFrame(from, pieces);
    if rc == OK {
      hide OutAtRest;
      assert to.inp.tr.io.dev.chan.data == [] + Frame(DropLast(Concat(pieces)));
      assert to.inp.tr.io.dev.Unread() == Frame(DropLast(Concat(pieces)));
      InLockstep(to, DropLast(Concat(pieces)));
      FrameArrives(to, Concat(pieces));
    }
  }

  lemma InLockstep(p: PairedStream, payload: seq<byte>)
    requires Sockmapped(p) && Framable(payload) && p.inp.tr.io.dev.Valid()
    requires p.inp.tr.io.dev.Unread() == Frame(payload) && !p.inp.tr.lost
    ensures p.inp.tr.Valid() && p.inp.tr.Lockstep()
  {
    FrameIsLine(payload);
  }

  /** smap_stream_getline in lockstep: exactly the line, and back at a frame boundary. */
  method ReceiveLine(p: PairedStream, buf: seq<byte>, ghost l: seq<byte>)
    returns (rc: Errno, line: seq<byte>, len: nat)
    requires InHolds(p, l) && SessionLine(l) && |buf| <= SSIZE_MAX + 1
    modifies p, p.InRepr()
    ensures rc == OK && InAtRest(p)
    ensures len < |line| <= SSIZE_MAX + 1 && line[..len] == l && line[len] == NUL
  {
    IndexOfIs(l, NL, |l| - 1);
    assert LineOf(l, NL) == l && NL in l;
    rc, line, len := GetDelim(Paired(p), buf, NL);
    NothingLeft(p);
  }

  /** Both ends of a connection, linked in both directions and between exchanges. */
  ghost predicate Connected(client: PairedStream, server: PairedStream) {
    Linked(client, server) && Linked(server, client)
  }

  ghost function Objects(client: PairedStream, server: PairedStream): set<object> {
    client.Repr() + server.Repr()
  }

  ghost predicate AtRest(client: PairedStream, server: PairedStream)
    reads client, client.inp, client.inp.tr, client.InRepr(), client.outp, client.outp.tr, client.OutRepr()
    reads server, server.inp, server.inp.tr, server.InRepr(), server.outp, server.outp.tr, server.OutRepr()
  {
    && InAtRest(client) && OutAtRest(client)
    && InAtRest(server) && OutAtRest(server)
  }

  /** The memory the two ends keep between calls of getline. */
  datatype Buffers = Buffers(client: seq<byte>, server: seq<byte>) {
    predicate Valid() { |client| <= SSIZE_MAX + 1 && |server| <= SSIZE_MAX + 1 }
  }

  /** A line travels one way: written in pieces at one end, read as one line at the other. */
  method Transfer(from: PairedStream, to: PairedStream, pieces: seq<seq<byte>>, buf: seq<byte>)
    returns (rc: Errno, line: seq<byte>, len: nat)
    requires Connected(from, to) && AtRest(from, to)
    requires SessionLine(Concat(pieces)) && |buf| <= SSIZE_MAX + 1
    requires forall i :: 0 <= i < |pieces| ==> OnlyLast(pieces[i], NL)
    modifies from`err, from`lastErr, from`wrt, from`bytesOut, from.OutRepr(), to, to.InRepr()
    ensures len < |line| <= SSIZE_MAX + 1
    ensures rc == OK ==>
              && AtRest(from, to) && line[len] == NUL && line[..len] == Concat(pieces)
    ensures rc != OK ==> Broken(from)
  {
    hide InHolds, SessionLine, OnlyLast, Transport.Pending, Transport.Lockstep, Stream.Live;
    OnlyWireShared(from, to);
    OnlyWireShared(to, from);
    rc := SendLine(from, to, pieces);
    if rc != OK {
      line, len := [NUL], 0;
      return;
    }
    rc, line, len := ReceiveLine(to, buf, Concat(pieces));
  }

  /** A query with the reply the server makes to it, written in pieces. */
  datatype Exchange = Exchange(query: Query, reply: seq<seq<byte>>) {
    predicate Valid() {
      && Sendable(query) && SessionLine(Concat(reply))
      && forall i :: 0 <= i < |reply| ==> OnlyLast(reply[i], NL)
    }
  }

  /** smapc_query and one round of smap_loop. dispatched is what reaches dispatch_query. */
  method RunExchange(client: PairedStream, server: PairedStream, x: Exchange, bufs: Buffers)
    returns (rc: Errno, dispatched: Option<Query>, answer: seq<byte>, bufs': Buffers)
    requires Connected(client, server) && AtRest(client, server) && x.Valid() && bufs.Valid()
    modifies Objects(client, server)
    ensures bufs'.Valid()
    ensures rc == OK ==>
              AtRest(client, server) && dispatched == Some(x.query) && answer == Concat(x.reply)
    ensures rc != OK ==> Broken(client) || Broken(server)
  {
    hide InAtRest, OutAtRest, Linked, ParseQuery;
    QueryLineIsLine(x.query);
    ConcatOne(QueryLine(x.query));
    dispatched, answer, bufs' := None, [], bufs;
    var line, len;
    rc, line, len := Transfer(client, server, [QueryLine(x.query)], bufs.server);
    bufs' := bufs'.(server := line);
    if rc != OK {
      return;
    }
    dispatched := ParseQuery(line);
    QueryRoundTrip(x.query, line, len);
    rc, line, len := Transfer(server, client, x.reply, bufs.client);
    bufs' := bufs'.(client := line);
    answer := line[..len];
  }

  function QueriesOf(xs: seq<Exchange>): seq<Option<Query>> {
    if xs == [] then [] else QueriesOf(xs[..|xs| - 1]) + [Some(xs[|xs| - 1].query)]
  }

  function RepliesOf(xs: seq<Exchange>): seq<seq<byte>> {
    if xs == [] then [] else RepliesOf(xs[..|xs| - 1]) + [Concat(xs[|xs| - 1].reply)]
  }

  /**
   * Any run of exchanges: the server dispatches exactly the queries sent, the client receives
   * exactly the replies made, and both ends are back at a frame boundary with nothing left over.
   */
  method RunSession(client: PairedStream, server: PairedStream, xs: seq<Exchange>, bufs: Buffers)
    returns (rc: Errno, dispatched: seq<Option<Query>>, answers: seq<seq<byte>>, bufs': Buffers)
    requires Connected(client, server) && AtRest(client, server) && bufs.Valid()
    requires forall i :: 0 <= i < |xs| ==> xs[i].Valid()
    modifies Objects(client, server)
    ensures bufs'.Valid()
    ensures rc == OK ==>
              AtRest(client, server) && dispatched == QueriesOf(xs) && answers == RepliesOf(xs)
    ensures rc != OK ==> Broken(client) || Broken(server)
    decreases |xs|
  {
    hide AtRest;
    if xs == [] {
      return OK, [], [], bufs;
    }
    rc, dispatched, answers, bufs' := RunSession(client, server, xs[..|xs| - 1], bufs);
    if rc == OK {
      var query, answer;
      rc, query, answer, bufs' := RunExchange(client, server, xs[|xs| - 1], bufs');
      dispatched, answers := dispatched + [query], answers + [answer];
    }
  }

  /** The objects of one end, without the two wires. */
  ghost function OwnObjects(p: PairedStream): set<object>
    requires Sockmapped(p)
  {
    {p, p.inp, p.inp.tr, p.inp.tr.io.dev, p.inp.tr.io.dev.nbuf, p.outp, p.outp.tr, p.outp.tr.io.out}
  }

  /** smap_sockmap_stream_create2 at both ends of a connected socket. */
  method Connect() returns (client: PairedStream, server: PairedStream)
    ensures Connected(client, server) && AtRest(client, server)
    ensures fresh(Objects(client, server))
  {
    hide InAtRest, OutAtRest, Linked, OwnObjects;
    var up := new Channel();
    var down := new Channel();
    client := OpenEnd(down, up);
    server := OpenEnd(up, down);
    EndRepr(client);
    EndRepr(server);
    assert OwnObjects(client) !! OwnObjects(server);
    assert Connected(client, server) by {
      LinkedEnds(client, server, up, down);
      LinkedEnds(server, client, down, up);
    }
  }

  lemma EndRepr(p: PairedStream)
    requires Sockmapped(p)
    ensures p.Repr() == OwnObjects(p) + {p.inp.tr.io.dev.chan, p.outp.tr.io.out.chan}
  {
  }

  lemma LinkedEnds(from: PairedStream, to: PairedStream, over: Channel, back: Channel)
    requires Sockmapped(from) && Sockmapped(to) && over != back
    requires OwnObjects(from) !! OwnObjects(to)
    requires from.outp.tr.io.out.chan == to.inp.tr.io.dev.chan == over
    requires to.outp.tr.io.out.chan == from.inp.tr.io.dev.chan == back
    ensures Linked(from, to)
  {
    var o, i := {from as object} + from.OutRepr(), {to as object} + to.InRepr();
    assert over in o && over in i;
    assert o <= OwnObjects(from) + {over} && i <= OwnObjects(to) + {over};
    assert from.InRepr() <= OwnObjects(from) + {back};
    assert {to as object} + to.OutRepr() <= OwnObjects(to) + {back};
    assert i * o == {over};
  }

  method OpenEnd(read: Channel, write: Channel) returns (p: PairedStream)
    requires read != write
    requires read.data == []
    ensures Sockmapped(p) && InAtRest(p) && OutAtRest(p)
    ensures fresh(OwnObjects(p))
    ensures p.inp.tr.io.dev.chan == read && p.outp.tr.io.out.chan == write
  {
    var inp := OpenInput(read);
    var outp := OpenOutput(write);
    assert {inp as object} + inp.tr.Repr !! {outp as object} + outp.tr.Repr;
    p := new PairedStream(inp, outp);
  }

  /** smap_sockmap_input_stream_create, fully buffered and expandable. */
  method OpenInput(read: Channel) returns (s: Stream)
    requires read.data == []
    ensures fresh(s) && fresh(s.tr) && s.tr.io.Reader? && fresh(s.tr.io.dev) && fresh(s.tr.io.dev.nbuf)
    ensures s.tr.Repr == {s.tr, s.tr.io.dev, s.tr.io.dev.nbuf, read} && s.tr.io.dev.chan == read
    ensures s.Valid() && s.Live() && s.level == 0 && s.tr.io.dev.AtBoundary()
  {
    var dev := new InputDevice(read);
    var tr := new Transport(Reader(dev));
    assert dev.Unread() == [];
    s := new Stream(tr, FullBuffered, 1024, true, false, true);
  }

  /** smap_sockmap_output_stream_create, line-buffered and expandable. */
  method OpenOutput(write: Channel) returns (s: Stream)
    ensures fresh(s) && fresh(s.tr) && s.tr.io.Writer? && fresh(s.tr.io.out)
    ensures s.tr.Repr == {s.tr, s.tr.io.out, write} && s.tr.io.out.chan == write
    ensures s.Writable() && s.expbuf && s.level == 0 && !s.Blocked()
  {
    var out := new OutputDevice(write);
    var tr := new Transport(Writer(out));
    s := new Stream(tr, LineBuffered, 1024, false, true, true);
  }
}
