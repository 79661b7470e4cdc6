/**
 * The sockmap wire protocol (lib/sockmapstr.c): lines framed as <len>:<payload>, with an empty
 * digit string for length 0. The reader is resumable and sees an arbitrarily fragmented wire.
 */
module Sockmap {
  import opened Bytes
  import opened Decimal
  import opened Channels

  /** The bytes that carry one payload. */
  function Frame(p: seq<byte>): seq<byte> { Digits(|p|) + [COLON] + p + [COMMA] }

  /** Payloads the writer can frame: their length has at most BOUND-1 digits. */
  predicate Framable(p: seq<byte>) { |p| < TOO_BIG }

  /** What an undelivered byte string begins with. A body of size bytes and a comma starts at at. */
  datatype Prefix = NoData | TooLong | NotDigits | Body(at: nat, size: nat)

  function ParsePrefix(u: seq<byte>): (r: Prefix)
    ensures r.Body? ==> 0 < r.at <= |u| && r.at <= BOUND && r.size < TOO_BIG
  {
    var k := IndexOf(u, COLON);
    if k >= BOUND then TooLong
    else if k == |u| then NoData
    else if !AllDigits(u, k) then NotDigits
    else
      ShortValue(u, k);
      Body(k + 1, Value(u, k))
  }

  /** The prefix is settled by the first n bytes of a buffer once they hold a colon. */
  lemma PrefixDecided(full: seq<byte>, n: nat, rest: seq<byte>)
    requires n <= |full| && IndexOf(full[..n], COLON) < n && IndexOf(full[..n], COLON) < BOUND
    ensures var k := IndexOf(full[..n], COLON);
            ParsePrefix(full[..n] + rest) ==
              if AllDigits(full, k) then Body(k + 1, Value(full, k)) else NotDigits
  {
    var k := IndexOf(full[..n], COLON);
    var u := full[..n] + rest;
    IndexOfAppend(full[..n], rest, COLON);
    assert forall i :: 0 <= i < k ==> u[i] == full[i];
    if AllDigits(full, k) {
      ValueAgrees(full, u, k);
    }
  }

  lemma NoColonYet(s: seq<byte>, rest: seq<byte>)
    requires IndexOf(s, COLON) == |s|
    ensures |s| < BOUND ==> ParsePrefix(s).NoData?
    ensures |s| >= BOUND ==> ParsePrefix(s + rest).TooLong?
  {
    IndexOfAppend(s, rest, COLON);
  }

  lemma Received(before: seq<byte>, wire: seq<byte>, n: nat)
    requires n <= |wire|
    ensures (before + wire[..n]) + wire[n..] == before + wire
  {
  }

  /** Lockstep: the undelivered bytes do not run past the end of the frame they begin with. */
  predicate OneFrame(u: seq<byte>) {
    var r := ParsePrefix(u);
    r.Body? ==> |u| <= r.at + r.size + 1
  }

  /** What is left of u after some of its first bytes. */
  predicate Rest(rest: seq<byte>, u: seq<byte>) { |rest| <= |u| && rest == u[|u| - |rest|..] }

  predicate HasBody(u: seq<byte>) {
    var r := ParsePrefix(u);
    r.Body? && r.at + r.size + 1 <= |u|
  }

  lemma FrameParses(p: seq<byte>, rest: seq<byte>)
    requires Framable(p)
    ensures var u := Frame(p) + rest;
            ParsePrefix(u) == Body(|Digits(|p|)| + 1, |p|) && HasBody(u)
            && u[ParsePrefix(u).at..][..|p| + 1] == p + [COMMA]
            && u[|Frame(p)|..] == rest
    ensures OneFrame(Frame(p)) && HasBody(Frame(p)) && ParsePrefix(Frame(p)) == Body(|Digits(|p|)| + 1, |p|)
  {
    hide ParsePrefix;
    PrefixOfFrame(p, rest);
    PrefixOfFrame(p, []);
    assert Frame(p) + [] == Frame(p);
    assert (Frame(p) + rest)[|Digits(|p|)| + 1..] == (p + [COMMA]) + rest;
  }

  /** The frame of the three bytes abc, and the one of nothing, byte by byte. */
  lemma FrameExample()
    ensures Frame([97, 98, 99]) == [51, 58, 97, 98, 99, 44] && Frame([]) == [58, 44]
  {
    assert Digits(3) == [] + [51];
  }

  lemma PrefixOfFrame(p: seq<byte>, rest: seq<byte>)
    requires Framable(p)
    ensures ParsePrefix(Frame(p) + rest) == Body(|Digits(|p|)| + 1, |p|)
  {
    var u, d := Frame(p) + rest, Digits(|p|);
    TooBigIsPow10();
    DigitCount(|p|, BOUND - 1);
    ValueOfDigits(|p|);
    ValueAgrees(d, u, |d|);
    IndexOfIs(d, COLON, |d|);
    assert u == d + ([COLON] + p + [COMMA] + rest);
    IndexOfAppend(d, [COLON] + p + [COMMA] + rest, COLON);
    IndexOfIs([COLON] + p + [COMMA] + rest, COLON, 0);
  }

  /** struct sockmap_input_stream without its base, whose fields belong to Streams.Stream. */
  class InputDevice {
    const chan: Channel
    const nbuf: array<byte>  // initial segment of a frame
    var nlen: nat            // bytes held in nbuf
    var cp: nat              // offset of the colon in nbuf
    var reqsz: nat           // payload size

    /** Everything received but not delivered, then everything still on the wire. */
    ghost function Unread(): seq<byte>
      requires nlen <= nbuf.Length
      reads this, nbuf, chan
    {
      nbuf[..nlen] + chan.data
    }

    ghost predicate Valid()
      reads this, nbuf
    {
      && nbuf.Length == BOUND + 1
      && nlen <= BOUND
      && (nlen == 0 ==> cp == 0 && reqsz == 0)
      && (nlen > 0 && !Stuck() ==>
            && cp < nlen
            && IndexOf(nbuf[..nlen], COLON) == cp
            && AllDigits(nbuf[..], cp)
            && reqsz == Value(nbuf[..], cp))
    }

    /** What an overlong prefix leaves behind: a full number buffer that the next read takes for length 0. */
    ghost predicate Stuck()
      reads this, nbuf
    {
      && nbuf.Length == BOUND + 1
      && nlen == BOUND && cp == 0 && reqsz == 0
      && IndexOf(nbuf[..nlen], COLON) == nlen
    }

    predicate AtBoundary()
      reads this
    {
      nlen == 0 && cp == 0 && reqsz == 0
    }

    constructor (chan: Channel)
      ensures Valid() && AtBoundary() && this.chan == chan && fresh(nbuf)
    {
      this.chan := chan;
      nbuf := new byte[BOUND + 1];
      nlen, cp, reqsz := 0, 0, 0;
    }

    /** read_payload_length: receive until a colon shows up among the first BOUND bytes. */
    method ReadPayloadLength() returns (rc: Errno)
      requires nbuf.Length == BOUND + 1 && nlen == 0
      modifies this, nbuf, chan
      ensures rc in {OK, EOF, EPROTO}
      ensures rc == OK ==>
                && cp < nlen <= BOUND && cp == IndexOf(nbuf[..nlen], COLON)
                && Unread() == old(chan.data)
      ensures rc == EOF ==>
                && nlen == cp == 0 && reqsz == old(reqsz) && chan.data == []
                && ParsePrefix(old(chan.data)).NoData?
      ensures rc == EPROTO ==>
                && nlen == BOUND && cp == 0 && reqsz == old(reqsz) && IndexOf(nbuf[..nlen], COLON) == nlen
                && Unread() == old(chan.data) && ParsePrefix(old(chan.data)).TooLong?
    {
      var len := 0;
      cp := 0;
      while len < BOUND
        invariant len <= BOUND && nlen == 0 && cp == 0 && reqsz == old(reqsz)
        invariant nbuf[..len] + chan.data == old(chan.data)
        invariant IndexOf(nbuf[..len], COLON) == len
      {
        var n := ReceiveMore(len);
        if n == 0 {
          NoColonYet(old(chan.data), []);
          return EOF;
        }
        len := len + n;
        var p := IndexOf(nbuf[..len], COLON);
        if p < len {
          cp := p;
          EndPrefix(len);
          return OK;
        }
      }
      NoColonYet(nbuf[..len], chan.data);
      EndPrefix(len);
      rc := EPROTO;
    }

    /** recv behind the len bytes that nbuf holds. */
    method ReceiveMore(len: nat) returns (n: nat)
      requires nbuf.Length == BOUND + 1 && len < BOUND
      modifies nbuf, chan
      ensures len + n <= BOUND && nbuf[..len + n] + chan.data == old(nbuf[..len] + chan.data)
      ensures n == 0 ==> chan.data == [] && nbuf[..len] == old(nbuf[..len] + chan.data)
    {
      ghost var before, wire := nbuf[..len], chan.data;
      n := chan.RecvInto(nbuf, len, BOUND - len);
      Received(before, wire, n);
    }

    /** nbuf holds len bytes. */
    method EndPrefix(len: nat)
      requires len < nbuf.Length
      modifies nbuf, this`nlen
      ensures nlen == len && nbuf[..len] == old(nbuf[..len])
    {
      nbuf[len] := NUL;
      nlen := len;
    }

    /** The digit loop over nbuf[0..cp), in size_t arithmetic. */
    method ParseDigits() returns (ok: bool, r: nat)
      requires cp < BOUND <= nbuf.Length
      ensures ok <==> AllDigits(nbuf[..], cp)
      ensures ok ==> r == Value(nbuf[..], cp)
    {
      r := 0;
      var i := 0;
      while i < cp
        invariant i <= cp && AllDigits(nbuf[..], i) && r == Value(nbuf[..], i)
      {
        NoWrap(nbuf[..], i);
        r := (r * 10) % SIZE_MOD;
        if !IsDigit(nbuf[i]) {
          return false, 0;
        }
        r := (r + (nbuf[i] - ZERO)) % SIZE_MOD;
        i := i + 1;
      }
      ok := true;
    }

    /** First part of _sockmap_input_stream_read: have a parsed prefix, kept from before or received. */
    method LoadPrefix() returns (rc: Errno)
      requires Valid()
      modifies this, nbuf, chan
      ensures Valid()
      ensures old(Stuck()) ==> rc == OK && Stuck() && Unread() == old(Unread())
      ensures rc == OK && !old(Stuck()) ==>
                && nlen > 0 && !Stuck() && Unread() == old(Unread())
                && ParsePrefix(Unread()) == Body(cp + 1, reqsz)
      ensures rc != OK ==>
                match ParsePrefix(old(Unread()))
                case NoData => rc == EOF && AtBoundary() && chan.data == []
                case TooLong => rc == EPROTO && Stuck() && Unread() == old(Unread())
                case NotDigits => rc == EPROTO && AtBoundary() && Rest(chan.data, old(Unread()))
                case Body(_, _) => false
    {
      if nlen == 0 {
        assert Unread() == chan.data;
        rc := ReadPayloadLength();
        if rc != OK {
          return;
        }
        PrefixDecided(nbuf[..], nlen, chan.data);
        var ok, r := ParseDigits();
        if !ok {
          nlen, cp, reqsz := 0, 0, 0;
          return EPROTO;
        }
        reqsz := r;
      } else if cp < nlen && nbuf[cp] == COLON {
        PrefixDecided(nbuf[..], nlen, chan.data);
      }
      rc := OK;
    }

    /** Last part of _sockmap_input_stream_read: the bytes kept behind the colon, then the wire. */
    method FetchBody(need: nat) returns (rc: Errno, data: seq<byte>)
      requires Valid() && nlen > 0 && need > 0
      modifies chan
      ensures |data| <= need
      ensures rc == Overrun <==> nlen > cp + 1 + need
      ensures rc == Overrun ==> data == [] && chan.data == old(chan.data)
      ensures rc != Overrun ==>
                && rc == (if |old(Unread())| < cp + 1 + need then EIO else OK)
                && data + chan.data == old(Unread())[cp + 1..]
                && |data| == (if rc == OK then need else |data + chan.data|)
    {
      data := [];
      var left: nat := need;
      if nlen > cp {
        var rds := nlen - cp - 1;
        if rds > left {
          return Overrun, [];
        }
        data := nbuf[cp + 1..nlen];
        left := left - rds;
      }
      ghost var rest := old(Unread())[cp + 1..];
      while left > 0
        invariant |data| + left == need
        invariant data + chan.data == rest
      {
        ghost var before, wire := data, chan.data;
        var got := chan.Recv(left);
        if got == [] {
          return EIO, data;
        }
        data := data + got;
        assert data + chan.data == before + wire;
        left := left - |got|;
      }
      rc := OK;
    }

    /** The outcome of a read of the bytes u with room for size bytes, when the reader is not stuck. */
    ghost predicate Answered(u: seq<byte>, size: nat, count: nat, rc: Errno, n: nat, data: seq<byte>)
      requires Valid()
      reads this, nbuf, chan
    {
      && rc in {OK, ERANGE, EPROTO, EIO, Overrun}
      && (rc == Overrun ==>
            && !OneFrame(u) && ParsePrefix(u).Body? && ParsePrefix(u).size + 1 <= size
            && ParsePrefix(u).at + ParsePrefix(u).size + 1 < BOUND)
      && (rc != Overrun ==>
            match ParsePrefix(u)
            case NoData => rc == OK && n == 0 && data == [] && AtBoundary() && chan.data == []
            case TooLong => rc == EPROTO && n == count && data == [] && Stuck() && Unread() == u
            case NotDigits => rc == EPROTO && n == count && data == [] && AtBoundary() && Rest(chan.data, u)
            case Body(at, sz) =>
              if sz + 1 > size then
                rc == ERANGE && n == sz + 1 && data == [] && Unread() == u
              else if at + sz + 1 > |u| then
                && rc == EIO && n == count && data == u[at..] && chan.data == []
                && at <= nlen <= |u| && Unread() == u[..nlen] && ParsePrefix(Unread()) == Body(at, sz)
              else
                && AtBoundary() && n == sz + 1
                && chan.data == u[at + sz + 1..]
                && (if u[at + sz] == COMMA
                    then rc == OK && data == u[at..at + sz] + [NL]
                    else rc == EPROTO && data == u[at..at + sz + 1]))
    }

    /**
     * _sockmap_input_stream_read with room for size bytes: data is what has been stored in the
     * caller's memory, n what its count variable holds afterwards, where count was before. The
     * outcome is that of ParsePrefix whatever way the wire is fragmented, unless the bytes fetched
     * with the prefix run past the frame. A reader stuck on an overlong prefix runs past its memory.
     */
    method Read(size: nat, count: nat) returns (rc: Errno, n: nat, data: seq<byte>)
      requires Valid()
      modifies this, nbuf, chan
      ensures Valid() && |data| <= size
      ensures !old(Stuck()) ==> Answered(old(Unread()), size, count, rc, n, data)
      ensures old(Stuck()) ==> rc == (if size == 0 then ERANGE else Overrun)
      ensures old(Stuck()) ==> n == (if size == 0 then 1 else count) && Stuck() && Unread() == old(Unread())
      ensures rc == Overrun ==> n == count && data == []
    {
      hide Valid, ParsePrefix, AllDigits, Value, IndexOf;
      data, n := [], count;
      var st := LoadPrefix();
      if st == EOF {
        return OK, 0, [];
      }
      if st != OK {
        return EPROTO, count, [];
      }
      var need := (reqsz + 1) % SIZE_MOD;
      assert need == reqsz + 1;
      if need > size {
        return ERANGE, need, [];
      }
      rc, n, data := Deliver(need, count);
    }

    /**
     * Any number of reads with too little room, then one with room for size bytes: every byte
     * stored, every byte left and the final state are what one read with that room would give.
     */
    method ReadAgain(rooms: seq<nat>, size: nat, count: nat) returns (rc: Errno, n: nat, data: seq<byte>)
      requires Valid() && ParsePrefix(Unread()).Body?
      requires forall i :: 0 <= i < |rooms| ==> rooms[i] < ParsePrefix(Unread()).size + 1
      modifies this, nbuf, chan
      ensures Valid() && |data| <= size
      ensures Answered(old(Unread()), size, count, rc, n, data)
    {
      var i := 0;
      n := count;
      StuckIsTooLong();
      while i < |rooms|
        invariant i <= |rooms| && Valid() && !Stuck() && Unread() == old(Unread())
      {
        rc, n, data := Read(rooms[i], n);
        StuckIsTooLong();
        i := i + 1;
      }
      rc, n, data := Read(size, count);
    }

    lemma StuckIsTooLong()
      requires nlen <= nbuf.Length
      ensures Stuck() ==> ParsePrefix(Unread()).TooLong?
    {
      if Stuck() {
        NoColonYet(nbuf[..nlen], chan.data);
      }
    }

    /** FetchBody, and what is kept when it fails. */
    method FetchKept(need: nat) returns (rc: Errno, data: seq<byte>)
      requires Valid() && nlen > 0 && need > 0
      modifies chan
      ensures Valid() && |data| <= need && rc in {OK, EIO, Overrun}
      ensures rc == Overrun <==> nlen > cp + 1 + need
      ensures rc == Overrun ==> data == [] && Unread() == old(Unread())
      ensures rc == EIO && !Stuck() ==> ParsePrefix(Unread()) == Body(cp + 1, reqsz)
      ensures var u, at := old(Unread()), cp + 1;
              rc != Overrun ==>
                && rc == (if |u| < at + need then EIO else OK) && data + chan.data == u[at..]
                && (if rc == OK then |data| == need
                    else data == u[at..] && chan.data == [] && Unread() == u[..nlen])
    {
      hide IndexOf, AllDigits, Value, ParsePrefix;
      ghost var u := Unread();
      rc, data := FetchBody(need);
      if rc == EIO {
        assert Unread() == u[..nlen];
        assert data + [] == data;
        if !Stuck() {
          PrefixDecided(nbuf[..], nlen, chan.data);
        }
      }
    }

    /** Fetch the body, return to a frame boundary, and turn the final comma into a newline. */
    method Deliver(need: nat, count: nat) returns (rc: Errno, n: nat, data: seq<byte>)
      requires Valid() && nlen > 0 && need == reqsz + 1
      modifies this, chan
      ensures |data| <= need && Valid()
      ensures rc in {OK, EPROTO, EIO, Overrun}
      ensures rc == EIO && !old(Stuck()) ==> ParsePrefix(Unread()) == Body(old(cp) + 1, old(reqsz))
      ensures rc == Overrun <==> old(nlen) > old(cp) + 1 + need
      ensures rc == Overrun ==> n == count && data == [] && Unread() == old(Unread()) && Stuck() == old(Stuck())
      ensures var u, at, end := old(Unread()), old(cp) + 1, old(cp) + 1 + old(reqsz);
              rc != Overrun ==>
                if |u| <= end then
                  && rc == EIO && n == count && data == u[at..] && chan.data == []
                  && Kept(old(nlen), old(cp), old(reqsz)) && Unread() == u[..nlen]
                else
                  && AtBoundary() && n == need && chan.data == u[end + 1..]
                  && (if u[end] == COMMA
                      then rc == OK && data == u[at..end] + [NL]
                      else rc == EPROTO && data == u[at..end + 1])
    {
      hide IndexOf, AllDigits, Value, ParsePrefix;
      ghost var u, at, end := Unread(), cp + 1, cp + 1 + reqsz;
      n := count;
      rc, data := FetchKept(need);
      if rc != OK {
        return;
      }
      SplitBody(u, at, end, data, chan.data);
      n := reqsz + 1;
      nlen, cp, reqsz := 0, 0, 0;
      if data[|data| - 1] == COMMA {
        data := data[..|data| - 1] + [NL];
      } else {
        rc := EPROTO;
      }
    }

    predicate Kept(len: nat, colon: nat, size: nat)
      reads this
    {
      nlen == len && cp == colon && reqsz == size
    }
  }

  lemma SplitBody(u: seq<byte>, at: nat, end: nat, data: seq<byte>, wire: seq<byte>)
    requires at <= |u| && at <= end && |data| == end - at + 1 && data + wire == u[at..]
    ensures end < |u| && data == u[at..end + 1] && wire == u[end + 1..]
    ensures data[..end - at] == u[at..end] && data[end - at] == u[end]
  {
    assert u == u[..at] + data + wire;
  }

  /** memcpy of data into buf at offset at. */
  function Poke(buf: seq<byte>, at: nat, data: seq<byte>): (r: seq<byte>)
    requires at + |data| <= |buf|
    ensures |r| == |buf| && r[..at] == buf[..at] && r[at..at + |data|] == data
    ensures r[..at + |data|] == buf[..at] + data && r[at + |data|..] == buf[at + |data|..]
  {
    buf[..at] + data + buf[at + |data|..]
  }

  /** realloc of buf to a larger size; the new bytes are unspecified in C and zero here. */
  function Resize(buf: seq<byte>, size: nat): (r: seq<byte>)
    requires |buf| <= size
    ensures |r| == size && r[..|buf|] == buf
  {
    buf + seq(size - |buf|, _ => NUL)
  }

  /** struct sockmap_output_stream without its base. */
  class OutputDevice {
    const chan: Channel
    var bufsize: nat
    var buf: seq<byte>                 // frame buffer, kept between calls
    ghost var frames: seq<seq<byte>>   // payloads of the successful calls, in order

    predicate Valid()
      reads this
    {
      |buf| == bufsize
    }

    constructor (chan: Channel)
      ensures Valid() && this.chan == chan && frames == []
    {
      this.chan := chan;
      bufsize, buf, frames := 0, [], [];
    }

    /** _sockmap_output_stream_write: frame all of data but its last byte and send it in one write. */
    method Write(data: seq<byte>) returns (rc: Errno, n: nat)
      requires Valid() && data != [] && Framable(data[..|data| - 1])
      modifies this, chan
      ensures Valid() && rc in {OK, EIO}
      ensures var p := data[..|data| - 1];
              && |Frame(p)| + 1 <= |buf|
              && buf[..|Frame(p)| + 1] == Frame(p) + [NUL]
              && (if rc == OK
                  then n == |data| && chan.data == old(chan.data) + Frame(p) && frames == old(frames) + [p]
                  else n == 0 && frames == old(frames)
                       && exists k :: 0 < k < |Frame(p)| && chan.data == old(chan.data) + Frame(p)[..k])
    {
      var len := |data| - 1;
      n := FillBuffer(data, len);
      ghost var f := Frame(data[..len]);
      assert buf[..n] == f by {
        assert buf[..n] == buf[..n + 1][..n] == (f + [NUL])[..n];
      }
      var sent := chan.Send(buf[..n]);
      assert chan.data == old(chan.data) + f[..sent];
      if sent != n {
        return EIO, 0;
      }
      n := len + 1;
      frames := frames + [data[..len]];
      rc := OK;
    }

    /** The part of _sockmap_output_stream_write before write(2): lays the frame out in buf. */
    method FillBuffer(data: seq<byte>, len: nat) returns (n: nat)
      requires Valid() && len <= |data| && Framable(data[..len])
      modifies this
      ensures Valid() && frames == old(frames)
      ensures n == |Frame(data[..len])| && n + 1 <= |buf|
      ensures buf[..n + 1] == Frame(data[..len]) + [NUL]
    {
      var digits := PrintLength(len);
      n := |digits|;
      var size := n + 3 + len;
      if size > bufsize {
        buf := Resize(buf, size);
        bufsize := size;
      }
      buf := Poke(buf, 0, digits);
      buf := Poke(buf, n, [COLON]);
      n := n + 1;
      buf := Poke(buf, n, data[..len]);
      n := n + len;
      buf := Poke(buf, n, [COMMA]);
      n := n + 1;
      buf := Poke(buf, n, [NUL]);
    }
  }

  /** format_len into a local buffer, and strlen of the result. */
  method PrintLength(len: nat) returns (digits: seq<byte>)
    requires len < TOO_BIG
    ensures digits == Digits(len)
  {
    var nbuf := new byte[BOUND + 1];
    var p := FormatLen(nbuf, len);
    ghost var d := Digits(len);
    assert nbuf[p..BOUND] == d + [NUL];
    var n := IndexOf(nbuf[p..BOUND], NUL);
    IndexOfIs(d + [NUL], NUL, |d|);
    digits := nbuf[p..p + n];
  }

  /** A line written to a wire and read from it comes back whole, however the wire fragments its frame. */
  method WriteAndRead(out: OutputDevice, inp: InputDevice, p: seq<byte>, size: nat)
    returns (sent: Errno, rc: Errno, n: nat, data: seq<byte>)
    requires out.Valid() && inp.Valid() && inp.AtBoundary() && out.chan == inp.chan && out.chan.data == []
    requires Framable(p) && |p| + 1 <= size
    modifies out, inp, inp.nbuf, inp.chan
    ensures sent == OK ==>
              && rc == OK && n == |p| + 1 && data == p + [NL]
              && inp.Valid() && inp.AtBoundary() && inp.chan.data == []
  {
    var count;
    rc, n, data := OK, 0, [];
    assert (p + [NL])[..|p|] == p;
    sent, count := out.Write(p + [NL]);
    if sent == OK {
      FrameParses(p, []);
      assert inp.Unread() == Frame(p) + [] == Frame(p);
      rc, n, data := inp.Read(size, 0);
      Whole(p);
    }
  }

  lemma Whole(p: seq<byte>)
    requires Framable(p)
    ensures var u, at := Frame(p), |Digits(|p|)| + 1;
            |u| == at + |p| + 1 && u[at..at + |p|] == p && u[at + |p|] == COMMA && u[at + |p| + 1..] == []
  {
  }
}
