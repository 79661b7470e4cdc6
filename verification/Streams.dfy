/** The buffered stream layer (lib/stream.c), reading and writing. */
module Streams {
  import opened Bytes
  import opened Channels
  import opened Decimal
  import opened LineText
  import opened Sockmap
  import opened Transports

  datatype BufType = Unbuffered | LineBuffered | FullBuffered

  /**
   * The books of a reader: what it can still read, the phantom bytes that failed reads have added
   * to its buffer, what it has read in all, and whether its place on the wire has been lost.
   */
  datatype Ledger = Ledger(avail: seq<byte>, phantom: nat, count: int, lost: bool)

  /**
   * From one state of the books to another by reading got; ok says that no read of the transport
   * has failed. Then got is what comes next. Otherwise that is known only as long as no phantom
   * bytes have been added; they make up for any difference.
   */
  ghost predicate Drawn(ok: bool, a: Ledger, got: seq<byte>, b: Ledger) {
    && (a.lost ==> b.lost) && a.phantom <= b.phantom && b.count == a.count + |got|
    && (ok ==> a.phantom == b.phantom && a.lost == b.lost && a.avail == got + b.avail)
    && (!b.lost ==>
          && |a.avail| + b.phantom - a.phantom == |got| + |b.avail|
          && (a.phantom == b.phantom ==> a.avail == got + b.avail))
  }

  lemma DrawnNothing(a: Ledger)
    ensures Drawn(true, a, [], a)
  {
  }

  lemma DrawnThen(ok: bool, a: Ledger, got: seq<byte>, b: Ledger, ok': bool, more: seq<byte>, c: Ledger)
    requires Drawn(ok, a, got, b) && Drawn(ok', b, more, c)
    ensures Drawn(ok && ok', a, got + more, c)
  {
    Assoc(got, more, c.avail);
  }

  lemma DrawnToTheEnd(a: Ledger, b: Ledger)
    requires Drawn(true, a, [], b) && a.avail == []
    ensures b.avail == []
  {
  }

  lemma DrawnAnyway(a: Ledger, got: seq<byte>, b: Ledger)
    requires Drawn(true, a, got, b)
    ensures Drawn(false, a, got, b)
  {
  }

  /** Nothing is lost and nothing invented exactly when no phantom bytes have been added. */
  lemma DrawnExactly(ok: bool, a: Ledger, got: seq<byte>, b: Ledger)
    requires Drawn(ok, a, got, b) && !b.lost
    ensures a.avail == got + b.avail <==> a.phantom == b.phantom
  {
  }

  /** Bytes that a failed read counts: the source has not moved, the buffer has more. */
  lemma DrawnPhantom(a: Ledger, held: seq<byte>, b: Ledger, c: Ledger)
    requires Drawn(false, a, [], b)
    requires c == b.(phantom := b.phantom + |held|, count := b.count + |held|)
    ensures Drawn(false, a, held, c)
  {
    assert [] + b.avail == b.avail;
  }

  lemma PhantomExactly(a: Ledger, held: seq<byte>, b: Ledger, ok: bool)
    requires Drawn(ok, a, held, b) && !b.lost && b.phantom == a.phantom + (if ok then 0 else |held|)
    ensures a.avail == held + b.avail && b.count - b.phantom == a.count - a.phantom + |held| <==> ok || held == []
  {
  }

  /** What has been drawn from the source into an empty buffer can still be read. */
  lemma DrawnIntoBuffer(ok: bool, a: Ledger, held: seq<byte>, b: Ledger, c: Ledger)
    requires Drawn(ok, a, held, b)
    requires c == Ledger(held + b.avail, b.phantom, b.count - |held|, b.lost)
    ensures Drawn(ok, a, [], c)
  {
    assert [] + c.avail == c.avail;
  }

  /** The size that _stream_realloc_buffer doubles to. */
  function Doubled(size: nat): nat { if 2 * size <= SIZE_MAX then 2 * size else SIZE_MAX }

  /**
   * A write of data to an expandable buffer of the given size, which holds level bytes of a line:
   * whenever the buffer fills up, it holds no newline and grows, or it ends with one and is emptied.
   */
  predicate NoGap(level: nat, size: nat, data: seq<byte>)
    requires level < size <= SIZE_MAX
    decreases |data|
  {
    size - level <= |data| ==>
      var first, rest := data[..size - level], data[size - level..];
      if Free(first, NL) then size == SIZE_MAX || NoGap(size, Doubled(size), rest)
      else EndsWith(first, NL) && NoGap(0, size, rest)
  }

  /** A newline only at the end never leaves a gap. */
  lemma {:induction false} OnlyLastNoGap(level: nat, size: nat, data: seq<byte>)
    requires level < size <= SIZE_MAX && OnlyLast(data, NL)
    ensures NoGap(level, size, data)
    decreases |data|
  {
    var room := size - level;
    if room <= |data| {
      LineSplit(data, room, NL);
      if !Free(data[..room], NL) {
        OnlyLastNoGap(0, size, data[room..]);
      } else if size < SIZE_MAX {
        OnlyLastNoGap(size, Doubled(size), data[room..]);
      }
    }
  }

  /** The same in the middle of the write, with held in the buffer and rest to come. */
  predicate StillNoGap(held: seq<byte>, size: nat, rest: seq<byte>)
    requires |held| <= size && 0 < size <= SIZE_MAX
  {
    if |held| < size then rest == [] || (Free(held, NL) && NoGap(|held|, size, rest))
    else if Free(held, NL) then size == SIZE_MAX || NoGap(size, Doubled(size), rest)
    else EndsWith(held, NL) && NoGap(0, size, rest)
  }

  lemma FreeBehind(s: seq<byte>, t: seq<byte>)
    requires Free(s, NL)
    ensures Free(t, NL) <==> Free(s + t, NL)
    ensures EndsWith(t, NL) ==> EndsWith(s + t, NL)
  {
    assert forall i :: 0 <= i < |t| ==> t[i] == (s + t)[|s| + i];
  }

  /** As much of the rest as fits has been copied. */
  lemma StillNoGapThen(held: seq<byte>, size: nat, rest: seq<byte>, k: nat)
    requires |held| < size <= SIZE_MAX && Free(held, NL) && NoGap(|held|, size, rest)
    requires k == if size - |held| < |rest| then size - |held| else |rest|
    ensures StillNoGap(held + rest[..k], size, rest[k..])
  {
    if k == size - |held| {
      FreeBehind(held, rest[..k]);
    }
  }

  /** A buffer that is not full and is not flushed holds no newline; a full one is as NoGap leaves it. */
  lemma FullOrFree(b: seq<byte>)
    ensures Free(b, NL) ==> CompleteLines(b) == [] && Tail(b) == b
    ensures EndsWith(b, NL) ==> Tail(b) == []
    ensures IndexOf(b, NL) == |b| ==> Free(b, NL)
  {
    if Free(b, NL) {
      NoLines(b);
    }
    LinesAndTail(b);
    TailLast(b);
  }

  lemma TailLast(b: seq<byte>)
    ensures Tail(b) == [] || (b != [] && Tail(b)[|Tail(b)| - 1] == b[|b| - 1])
  {
    LinesAndTail(b);
  }

  lemma TailLeft(b: seq<byte>, forced: bool, calls: seq<seq<byte>>, left: seq<byte>)
    requires Flushed(b, forced, calls, left)
    ensures !forced ==> left == Tail(b)
  {
  }

  lemma FullHeld(held: seq<byte>, size: nat, rest: seq<byte>)
    requires |held| <= size && 0 < size <= SIZE_MAX && StillNoGap(held, size, rest)
    ensures |held| == size ==> Free(held, NL) || EndsWith(held, NL)
  {
  }

  /** After the flush of a round the held lines are done, and the rest can be written without a gap. */
  lemma StillHeld(all: seq<byte>, calls: seq<seq<byte>>, held: seq<byte>, size: nat, rest: seq<byte>,
                  left: seq<byte>, size': nat)
    requires |held| <= size && 0 < size <= SIZE_MAX && StillNoGap(held, size, rest)
    requires LinesSoFar(all, calls, held + rest)
    requires left == Tail(held) && size' == (if |held| == size && Free(held, NL) then Doubled(size) else size)
    requires |left| < size'
    ensures LinesSoFar(all, calls + CompleteLines(held), left + rest) && NoGap(|left|, size', rest)
  {
    FullOrFree(held);
    LinesDone(all, calls, held, rest);
    hide CompleteLines, Tail, LinesSoFar;
  }

  /** An error after which a stream refuses to read and write until smap_stream_clearerr. */
  predicate Permanent(rc: Errno) { rc != OK && rc != EAGAIN && rc != EINPROGRESS }

  class Stream {
    const tr: Transport
    var buftype: BufType
    var buffer: seq<byte>   // malloc'ed memory of bufsize bytes
    var bufsize: nat
    var cur: nat            // offset of the current position in buffer
    var level: nat          // bytes held from cur on
    var canRead: bool
    var canWrite: bool
    var expbuf: bool
    var dirty: bool
    var wrt: bool
    var err: bool
    var eof: bool
    var morespc: bool
    var lastErr: Errno
    var bytesIn: nat
    var bytesOut: nat
    ghost var phantom: nat  // bytes that failed fills have added to the buffer

    ghost predicate Shape()
      reads this`buffer, this`bufsize, this`buftype, this`level, this`cur, this`err, this`lastErr
    {
      && |buffer| == bufsize <= SIZE_MAX
      && (buftype.Unbuffered? ==> level == 0 && cur == 0)
      && (!buftype.Unbuffered? ==> bufsize > 0)
      && (err ==> lastErr != OK)
    }

    ghost predicate Valid()
      reads this, tr, tr.Repr
    {
      tr.Valid() && this !in tr.Repr && Shape() && cur + level <= bufsize
    }

    ghost function Buffered(): seq<byte>
      reads this`buffer, this`cur, this`level
      requires cur + level <= |buffer|
    {
      buffer[cur..cur + level]
    }

    /** What the transport can still deliver to this stream; nothing once EOF was seen. */
    ghost function Source(): seq<byte>
      reads this`eof, tr, tr.Repr
      requires tr.Valid()
    {
      if eof then [] else tr.Pending()
    }

    /** Everything a caller can still read, in order. */
    ghost function Avail(): seq<byte>
      reads this, tr, tr.Repr
      requires Valid()
    {
      Buffered() + Source()
    }

    ghost function Account(): Ledger
      reads this, tr, tr.Repr
      requires Valid()
    {
      Ledger(Avail(), phantom, bytesIn + phantom - level, tr.lost)
    }

    /** The books of the source alone, whatever the buffer holds. */
    ghost function SourceAccount(): Ledger
      reads this`eof, this`phantom, this`bytesIn, tr, tr.Repr
      requires tr.Valid()
    {
      Ledger(Source(), phantom, bytesIn + phantom, tr.lost)
    }

    /** The input side of a sockmap stream, in lockstep, not at its end and with nothing gone wrong. */
    ghost predicate Live()
      requires tr.Valid()
      reads this, tr, tr.Repr
    {
      && tr.io.Reader? && buftype.FullBuffered? && bufsize < SIZE_MAX
      && canRead && !err && !eof && tr.Lockstep() && !tr.lost
    }

    /** An empty input side of a sockmap stream, before a whole frame that fits but has no final comma. */
    ghost predicate Spoiled()
      requires tr.Valid()
      reads this, tr, tr.Repr
    {
      && tr.io.Reader? && buftype.FullBuffered? && canRead && !err && !eof && level == 0
      && tr.TakesSpoiled(bufsize)
    }

    /** A new stream after smap_stream_set_buffer and smap_stream_set_flags. */
    constructor (tr: Transport, buftype: BufType, size: nat, canRead: bool, canWrite: bool, expbuf: bool)
      requires tr.Valid() && size <= SIZE_MAX
      ensures Valid() && this.tr == tr && cur == level == 0 && !err && !eof && !dirty
      ensures this.buftype == (if size == 0 then Unbuffered else buftype)
      ensures !this.buftype.Unbuffered? ==> bufsize == size
      ensures this.canRead == canRead && this.canWrite == canWrite && this.expbuf == expbuf
      ensures bytesIn == bytesOut == phantom == 0 && lastErr == OK && !morespc && !wrt
    {
      var unbuffered := size == 0 || buftype.Unbuffered?;
      this.tr := tr;
      this.buftype := if size == 0 then Unbuffered else buftype;
      bufsize := if unbuffered then 0 else size;
      buffer := if unbuffered then [] else seq(size, _ => NUL);
      cur, level := 0, 0;
      this.canRead, this.canWrite, this.expbuf := canRead, canWrite, expbuf;
      dirty, wrt, err, eof, morespc := false, false, false, false, false;
      lastErr, bytesIn, bytesOut, phantom := OK, 0, 0, 0;
    }

    // ---- errors and buffer management ----

    /** _stream_seterror */
    method SetError(code: Errno, perm: bool)
      modifies this`lastErr, this`err
      ensures lastErr == code && err == (old(err) || (perm && code !in {OK, EAGAIN, EINPROGRESS}))
    {
      lastErr := code;
      if code !in {OK, EAGAIN, EINPROGRESS} && perm {
        err := true;
      }
    }

    /** smap_stream_clearerr */
    method ClearError()
      modifies this`lastErr, this`err
      ensures lastErr == OK && !err
    {
      lastErr, err := OK, false;
    }

    /** _stream_realloc_buffer; doubling in size_t saturates at SIZE_MAX. */
    method ReallocBuffer(size: nat) returns (rc: Errno)
      requires |buffer| == bufsize && 0 < bufsize <= SIZE_MAX
      requires size == 0 || bufsize <= size <= SIZE_MAX
      modifies this`buffer, this`bufsize
      ensures |buffer| == bufsize <= SIZE_MAX
      ensures rc == (if old(bufsize) == SIZE_MAX then ENOMEM else OK)
      ensures rc == ENOMEM ==> buffer == old(buffer)
      ensures rc == OK ==>
                && bufsize >= old(bufsize)
                && buffer[..old(bufsize)] == old(buffer)
                && (if size == 0
                    then bufsize == (if 2 * old(bufsize) <= SIZE_MAX then 2 * old(bufsize) else SIZE_MAX)
                    else bufsize == size)
    {
      if bufsize == SIZE_MAX {
        return ENOMEM;
      }
      var newsize := size;
      if newsize == 0 {
        newsize := (2 * bufsize) % SIZE_MOD;
        if newsize < bufsize {
          newsize := SIZE_MAX;
        }
      }
      buffer := Resize(buffer, newsize);
      bufsize := newsize;
      rc := OK;
    }

    /** _stream_advance_buffer */
    method Advance(n: nat)
      requires n <= level && cur + level <= |buffer|
      modifies this`cur, this`level
      ensures cur == old(cur) + n && level == old(level) - n
      ensures Buffered() == old(Buffered())[n..]
    {
      cur, level := cur + n, level - n;
    }

    // ---- reading ----

    /** The transport has asked for n bytes of room and left everything unread. */
    twostate predicate AsksFor(n: nat)
      requires old(tr.Valid()) && tr.Valid()
      reads this`eof, tr, tr.Repr
    {
      n == tr.Room() == old(tr.Room()) && Source() == old(Source()) && tr.lost == old(tr.lost)
    }

    /**
     * A read fails only if the transport has, the stream cannot read or had an error, or the buffer
     * cannot grow. A read that does not fail sets no error.
     */
    twostate predicate ReadExcused(failed: bool)
      reads this`err, this`canRead, this`bufsize, tr`faults
    {
      && tr.faults >= old(tr.faults) && bufsize >= old(bufsize)
      && if failed
         then tr.faults > old(tr.faults) || !canRead || old(err) || tr.io.Writer? || bufsize == SIZE_MAX
         else err == old(err)
    }

    /** One call of the read pointer, with the bookkeeping of smap_stream_read_unbuffered. */
    method ReadOnce(size: nat, count: nat) returns (rc: Errno, n: nat, data: seq<byte>)
      requires Valid() && size > 0 && count <= size && !eof && !err && !tr.io.Writer?
      modifies tr.Repr, this`morespc, this`eof, this`bytesIn
      ensures Valid() && |data| <= size
      ensures Drawn(rc == OK, old(SourceAccount()), if rc == OK then data else [], SourceAccount())
      ensures rc == OK ==> n == |data| && (n == 0 <==> eof)
      ensures eof ==> old(Source()) == []
      ensures rc != OK ==> !eof
      ensures morespc && !old(morespc) ==> rc == ERANGE && size < n <= TOO_BIG && AsksFor(n)
      ensures rc != OK && !morespc ==> n <= size
      ensures tr.io.Reader? && old(tr.Lockstep()) ==>
                tr.Lockstep() && !tr.lost && (rc == OK || (rc == ERANGE && morespc && size < |old(Source())|))
      ensures old(tr.TakesSpoiled(size)) ==> Misread(rc, n, data, old(tr.Inbound())) && morespc == old(morespc)
      ensures ReadExcused(rc != OK)
    {
      hide Transport.Valid, Transport.Pending, Transport.Lockstep, Transport.Room, Transport.TakesSpoiled;
      var more;
      rc, n, data, more := tr.Read(size, count);
      morespc := morespc || more;
      if rc == OK {
        if n == 0 {
          eof := true;
        }
        bytesIn := bytesIn + n;
      }
    }

    /** The full_read loop of smap_stream_read_unbuffered. */
    method ReadFully(size: nat) returns (rc: Errno, data: seq<byte>)
      requires Valid() && size > 0 && !eof && !err && !tr.io.Writer?
      modifies tr.Repr, this`morespc, this`eof, this`bytesIn
      ensures Valid() && |data| <= size
      ensures Drawn(rc == OK, old(SourceAccount()), data, SourceAccount())
      ensures if rc == OK then |data| == size || Source() == [] else |data| < size
      ensures ReadExcused(rc != OK)
    {
      hide Transport.Valid, Transport.Pending, Transport.Lockstep, Transport.Room, Drawn;
      rc, data := OK, [];
      DrawnNothing(SourceAccount());
      var left: nat := size;
      while left > 0 && !eof && rc == OK
        invariant Valid()
        invariant |data| + left == size && (rc != OK ==> left > 0)
        invariant Drawn(rc == OK, old(SourceAccount()), data, SourceAccount())
        invariant eof ==> Source() == []
        invariant ReadExcused(rc != OK)
        decreases left, !eof && rc == OK
      {
        ghost var before := SourceAccount();
        var n, got;
        var rdbytes: nat :| rdbytes <= left;
        rc, n, got := ReadOnce(left, rdbytes);
        if rc == OK {
          DrawnThen(true, old(SourceAccount()), data, before, true, got, SourceAccount());
          data := data + got;
          left := left - |got|;
        } else {
          DrawnThen(true, old(SourceAccount()), data, before, false, [], SourceAccount());
          assert data + [] == data;
        }
      }
    }

    /**
     * smap_stream_read_unbuffered. data is what has been stored, n the count handed back, 0 where
     * the caller's variable is left alone. A failed partial read stores and counts what it will.
     */
    method ReadUnbuffered(size: nat, full: bool) returns (rc: Errno, n: nat, data: seq<byte>)
      requires Valid()
      modifies tr.Repr, this`morespc, this`eof, this`bytesIn, this`lastErr, this`err
      ensures Valid() && |data| <= size
      ensures Drawn(rc == OK, old(SourceAccount()), if rc == OK || full then data else [], SourceAccount())
      ensures rc == OK ==> n == |data|
      ensures rc == OK && size > 0 && data == [] ==> old(Source()) == []
      ensures rc == OK && full ==> |data| == size || Source() == []
      ensures morespc && !old(morespc) && !full ==> rc == ERANGE && size < n <= TOO_BIG && AsksFor(n) && !old(err)
      ensures rc != OK && !full && !morespc ==> n <= size
      ensures !full && eof && !old(eof) ==> old(Source()) == []
      ensures old(Live()) && !full && size > 0 ==>
                tr.Lockstep() && !tr.lost && ((rc == OK && !err) || (rc == ERANGE && morespc && size < |old(Source())|))
      ensures old(tr.TakesSpoiled(size)) && size > 0 && canRead && !old(err) && !old(eof) && !full ==>
                Misread(rc, n, data, old(tr.Inbound())) && morespc == old(morespc)
      ensures ReadExcused(rc != OK)
      ensures tr.io.Writer? || !canRead || old(err) ==> rc != OK && n == 0 && data == []
      ensures rc != OK ==> lastErr == rc
      ensures !tr.io.Writer? && canRead ==> err == (old(err) || (!full && Permanent(rc)))
    {
      hide Transport.Valid, Transport.Pending, Transport.Lockstep, Transport.Room;
      hide Transport.Inbound, SpoiledFrame;
      DrawnNothing(SourceAccount());
      n, data := 0, [];
      assert [] + Source() == Source();
      hide Source, Misread, AsksFor;
      if tr.io.Writer? {
        SetError(ENOSYS, false);
        return ENOSYS, 0, [];
      }
      if !canRead {
        SetError(EACCES, true);
        return EACCES, 0, [];
      }
      if err {
        return lastErr, 0, [];
      }
      if eof || size == 0 {
        return OK, 0, [];
      }
      if full {
        rc, data := ReadFully(size);
        if |data| < size && rc != OK {
          SetError(rc, false);
        }
        n := |data|;
      } else {
        rc, n, data := ReadPart(size);
      }
    }

    /** The partial read of smap_stream_read_unbuffered. Its count variable is not initialised. */
    method ReadPart(size: nat) returns (rc: Errno, n: nat, data: seq<byte>)
      requires Valid() && size > 0 && !eof && !err && !tr.io.Writer?
      modifies tr.Repr, this`morespc, this`eof, this`bytesIn, this`lastErr, this`err
      ensures Valid() && |data| <= size
      ensures Drawn(rc == OK, old(SourceAccount()), if rc == OK then data else [], SourceAccount())
      ensures rc == OK ==> n == |data| && (n == 0 <==> eof)
      ensures eof ==> old(Source()) == []
      ensures morespc && !old(morespc) ==> rc == ERANGE && size < n <= TOO_BIG && AsksFor(n)
      ensures rc != OK && !morespc ==> n <= size
      ensures tr.io.Reader? && old(tr.Lockstep()) ==>
                tr.Lockstep() && !tr.lost && ((rc == OK && !err) || (rc == ERANGE && morespc && size < |old(Source())|))
      ensures old(tr.TakesSpoiled(size)) ==> Misread(rc, n, data, old(tr.Inbound())) && morespc == old(morespc)
      ensures ReadExcused(rc != OK) && lastErr == rc && err == Permanent(rc)
    {
      hide Transport.Valid, Transport.Pending, Transport.Lockstep, Transport.Room, Transport.TakesSpoiled;
      hide Transport.Inbound, Source, Drawn, Misread;
      var nread: nat :| nread <= size;
      rc, n, data := ReadOnce(size, nread);
      SetError(rc, rc != OK);
    }

    /** The read of _stream_fill_full_buffered, straight into the empty buffer. */
    method ReadIntoBuffer() returns (rc: Errno, nrd: nat)
      requires Valid() && level == 0
      modifies tr.Repr, this`morespc, this`eof, this`bytesIn, this`lastErr, this`err, this`buffer
      ensures tr.Valid() && Shape()
      ensures rc == OK || !morespc ==> nrd <= bufsize
      ensures morespc ==> rc == ERANGE && bufsize < nrd <= TOO_BIG && AsksFor(nrd)
      ensures Drawn(rc == OK || morespc, old(SourceAccount()), if rc == OK then buffer[..nrd] else [], SourceAccount())
      ensures rc == OK && nrd == 0 && bufsize > 0 ==> old(Source()) == []
      ensures old(Live()) && bufsize > 0 && old(Source()) != [] ==>
                tr.Lockstep() && !tr.lost && !eof && (morespc || (rc == OK && !err))
      ensures old(Spoiled()) ==> !morespc && Misread(rc, nrd, buffer[..nrd], old(tr.Inbound()))
      ensures ReadExcused(rc != OK) && (morespc ==> !old(err))
    {
      hide Transport.Valid, Transport.Pending, Transport.Lockstep, Transport.Room, Transport.TakesSpoiled;
      hide Source, Poke, ParsePrefix, HasBody, EndsWith, Permanent, SpoiledFrame;
      assert Live() ==> !eof;
      hide Live;
      morespc := false;
      var data;
      rc, nrd, data := ReadUnbuffered(bufsize - level, false);
      buffer := Poke(buffer, level, data);
    }

    /**
     * One round of _stream_fill_full_buffered; again means that the buffer now fits the frame. The
     * count is added to level whether the read has succeeded or not: nothing is lost or invented,
     * and bytes_in is right, if and only if the read has succeeded or reported no bytes.
     */
    method FillTry() returns (rc: Errno, again: bool)
      requires Valid() && buftype.FullBuffered? && level == 0
      modifies tr.Repr, this`morespc, this`eof, this`bytesIn, this`lastErr, this`err
      modifies this`level, this`buffer, this`bufsize, this`phantom
      ensures tr.Valid() && Shape() && level <= bufsize && bufsize >= old(bufsize)
      ensures Drawn(rc == OK, old(SourceAccount()), buffer[..level], SourceAccount())
      ensures phantom == old(phantom) + (if rc == OK then 0 else level)
      ensures !tr.lost ==>
                (old(Source()) == buffer[..level] + Source() && bytesIn == old(bytesIn) + level
                 <==> rc == OK || level == 0)
      ensures rc == OK && !again && level == 0 ==> old(Source()) == []
      ensures again ==> rc == OK && level == 0 && old(bufsize) < bufsize && AsksFor(bufsize)
      ensures old(Live()) && old(Source()) != [] ==> rc == OK && Live()
      ensures old(Spoiled()) ==> !again && Misread(rc, level, buffer[..level], old(tr.Inbound()))
      ensures ReadExcused(rc != OK)
    {
      hide Transport.Valid, Transport.Pending, Transport.Lockstep, Transport.Room, Transport.TakesSpoiled;
      hide Source, Drawn, Misread;
      ghost var all := SourceAccount();
      again := false;
      var nrd;
      rc, nrd := ReadIntoBuffer();
      if rc == ERANGE && morespc {
        ClearError();
        rc := ReallocBuffer(nrd);
        again := rc == OK;
        assert buffer[..level] == [];
        DrawnAnyway(all, [], SourceAccount());
      } else {
        Count(nrd, rc == OK, all);
      }
      if !tr.lost {
        PhantomExactly(all, buffer[..level], SourceAccount(), rc == OK);
      }
    }

    /** The count of a read is added to level, whether the read has succeeded or not. */
    method Count(nrd: nat, ghost ok: bool, ghost all: Ledger)
      requires tr.Valid() && this !in tr.Repr && level == 0 && nrd <= |buffer|
      requires Drawn(ok, all, if ok then buffer[..nrd] else [], SourceAccount())
      modifies this`level, this`phantom
      ensures level == nrd && phantom == old(phantom) + (if ok then 0 else nrd)
      ensures Drawn(ok, all, buffer[..level], SourceAccount())
    {
      hide Transport.Valid, Source, Drawn;
      ghost var mid := SourceAccount();
      if !ok {
        phantom := phantom + nrd;
        DrawnPhantom(all, buffer[..nrd], mid, SourceAccount());
      }
      level := level + nrd;
    }

    /** _stream_fill_full_buffered: at most one reallocation makes room for a whole frame. */
    method FillFull() returns (rc: Errno, ghost reallocs: nat)
      requires Valid() && buftype.FullBuffered?
      modifies tr.Repr, this`morespc, this`eof, this`bytesIn, this`lastErr, this`err
      modifies this`level, this`buffer, this`bufsize, this`phantom
      ensures tr.Valid() && Shape() && level <= bufsize && bufsize >= old(bufsize)
      ensures Drawn(rc == OK, old(SourceAccount()), buffer[..level], SourceAccount())
      ensures phantom == old(phantom) + (if rc == OK then 0 else level)
      ensures rc == OK && level == 0 ==> old(Source()) == []
      ensures reallocs <= 1
      ensures old(Live()) && old(Source()) != [] ==> rc == OK && Live()
      ensures old(Spoiled()) ==> Misread(rc, level, buffer[..level], old(tr.Inbound()))
      ensures ReadExcused(rc != OK)
    {
      hide Transport.Valid, Transport.Pending, Transport.Lockstep, Transport.Room, Transport.TakesSpoiled;
      hide Source, Drawn, Misread;
      level := 0;
      reallocs := 0;
      ghost var all, sure, bad := SourceAccount(), Live() && Source() != [], Spoiled();
      var again;
      rc, again := FillTry();
      while again
        invariant tr.Valid() && Shape() && level <= bufsize && bufsize >= old(bufsize)
        invariant Drawn(rc == OK, all, buffer[..level], SourceAccount())
        invariant phantom == old(phantom) + (if rc == OK then 0 else level)
        invariant rc == OK && !again && level == 0 ==> old(Source()) == []
        invariant again ==> reallocs == 0 && rc == OK && level == 0 && bufsize == tr.Room() && Source() == old(Source())
        invariant reallocs <= 1
        invariant sure ==> rc == OK && Live()
        invariant bad ==> !again && Misread(rc, level, buffer[..level], old(tr.Inbound()))
        invariant ReadExcused(rc != OK)
        decreases again
      {
        ghost var mid := SourceAccount();
        reallocs := reallocs + 1;
        rc, again := FillTry();
        DrawnThen(true, all, [], mid, rc == OK, buffer[..level], SourceAccount());
        assert [] + buffer[..level] == buffer[..level];
      }
    }

    /** One round of _stream_fill_line_buffered: fetch a byte into place n, expand a full buffer. */
    method FillByte(n: nat) returns (rc: Errno, c: seq<byte>)
      requires Valid() && level == 0 && n < bufsize
      modifies tr.Repr, this`morespc, this`eof, this`bytesIn, this`lastErr, this`err
      modifies this`buffer, this`bufsize
      ensures Valid() && bufsize >= old(bufsize)
      ensures |c| <= 1 && Drawn(rc == OK, old(SourceAccount()), c, SourceAccount())
      ensures buffer[..n + |c|] == old(buffer[..n]) + c
      ensures rc == OK && c == [] ==> old(Source()) == []
      ensures rc == OK ==> |Source()| + |c| == |old(Source())|
      ensures rc == OK && expbuf && c != [] && c[0] != NL ==> n + 1 < bufsize
      ensures ReadExcused(rc != OK)
    {
      hide Transport.Valid, Transport.Pending, Transport.Lockstep, Transport.Room, Transport.TakesSpoiled;
      hide Transport.Inbound, AsksFor, Misread, Poke;
      var rdn;
      rc, rdn, c := ReadUnbuffered(1, false);
      if rc != OK || rdn == 0 {
        c := [];
        return;
      }
      buffer := Poke(buffer, n, c);
      if c[0] != NL && n + 1 == bufsize && expbuf {
        rc := ReallocBuffer(0);
      }
    }

    /**
     * _stream_fill_line_buffered: byte by byte up to a newline, the end of the source or the end of a
     * buffer that does not expand.
     */
    method FillLine() returns (rc: Errno)
      requires Valid() && buftype.LineBuffered? && level == 0
      modifies tr.Repr, this`morespc, this`eof, this`bytesIn, this`lastErr, this`err
      modifies this`level, this`buffer, this`bufsize
      ensures tr.Valid() && Shape() && level <= bufsize && bufsize >= old(bufsize)
      ensures Drawn(rc == OK, old(SourceAccount()), buffer[..level], SourceAccount())
      ensures rc == OK && level == 0 ==> old(Source()) == []
      ensures OnlyLast(buffer[..level], NL)
      ensures rc == OK ==> EndsWith(buffer[..level], NL) || Source() == [] || (!expbuf && level == bufsize)
      ensures ReadExcused(rc != OK)
    {
      hide Transport.Valid, Transport.Pending, Transport.Lockstep, Transport.Room, Source, Drawn;
      var n := 0;
      var more := true;
      ghost var got := [];
      rc := OK;
      DrawnNothing(SourceAccount());
      assert Free(got, NL) && OnlyLast(got, NL);
      hide Free, OnlyLast, EndsWith;
      while n < bufsize && more
        invariant Valid() && level == 0 && n <= bufsize && bufsize >= old(bufsize)
        invariant |got| == n && buffer[..n] == got
        invariant Drawn(rc == OK, old(SourceAccount()), got, SourceAccount())
        invariant OnlyLast(got, NL) && (more ==> rc == OK && Free(got, NL))
        invariant rc == OK && n == 0 && !more ==> old(Source()) == []
        invariant n == 0 && more ==> Source() == old(Source())
        invariant more && expbuf ==> n < bufsize
        invariant rc == OK && !more ==> EndsWith(got, NL) || Source() == []
        invariant ReadExcused(rc != OK)
        decreases more, |Source()|
      {
        ghost var mid := SourceAccount();
        var c;
        rc, c := FillByte(n);
        LineGrows(got, c, NL);
        assert c != [] && c[0] == NL ==> EndsWith(c, NL);
        GrowsEnd(got, c, NL);
        DrawnThen(true, old(SourceAccount()), got, mid, rc == OK, c, SourceAccount());
        got := got + c;
        n := n + |c|;
        more := rc == OK && c != [] && c[0] != NL;
      }
      level := n;
    }

    /** The two kinds of _stream_fill_buffer that read. */
    method FillEmpty() returns (rc: Errno)
      requires Valid() && level == 0 && !buftype.Unbuffered?
      modifies tr.Repr, this
      ensures tr.Valid() && Shape() && level <= bufsize && SameKind()
      ensures Drawn(rc == OK, old(SourceAccount()), buffer[..level], SourceAccount())
      ensures phantom == old(phantom) + (if rc != OK && buftype.FullBuffered? then level else 0)
      ensures rc == OK && level == 0 ==> old(Source()) == []
      ensures buftype.LineBuffered? ==> OnlyLast(buffer[..level], NL)
      ensures old(Live()) && old(Source()) != [] ==> rc == OK && Live()
      ensures old(Spoiled()) ==> Misread(rc, level, buffer[..level], old(tr.Inbound()))
      ensures ReadExcused(rc != OK)
    {
      hide Transport.Valid, Transport.Pending, Transport.Lockstep, Transport.TakesSpoiled, Transport.Inbound;
      hide Source, OnlyLast, EndsWith, Drawn, Misread;
      match buftype {
        case FullBuffered =>
          ghost var reallocs;
          rc, reallocs := FillFull();
        case LineBuffered =>
          rc := FillLine();
      }
    }

    /** _stream_fill_buffer */
    method FillBuffer() returns (rc: Errno)
      requires Valid() && level == 0
      modifies tr.Repr, this
      ensures Valid() && SameKind() && (!buftype.Unbuffered? ==> cur == 0)
      ensures Drawn(rc == OK, old(SourceAccount()), [], Account())
      ensures phantom == old(phantom) + (if rc != OK && buftype.FullBuffered? then level else 0)
      ensures buftype.Unbuffered? ==> level == 0 && rc == OK
      ensures !buftype.Unbuffered? && rc == OK && level == 0 ==> old(Source()) == []
      ensures buftype.LineBuffered? ==> OnlyLast(Buffered(), NL)
      ensures old(Live()) && old(Source()) != [] ==> rc == OK && Live()
      ensures old(Spoiled()) ==> Misread(rc, level, Buffered(), old(tr.Inbound()))
      ensures ReadExcused(rc != OK)
    {
      hide Transport.Valid, Transport.Pending, Transport.Lockstep, Transport.TakesSpoiled, Transport.Inbound;
      hide Source, OnlyLast, Drawn, Misread;
      rc := OK;
      ghost var all := SourceAccount();
      if buftype.Unbuffered? {
        DrawnNothing(all);
        assert [] + Source() == Source();
        return;
      }
      rc := FillEmpty();
      cur := 0;
      DrawnIntoBuffer(rc == OK, all, buffer[..level], SourceAccount(), Account());
    }

    /** Copy n buffered bytes out and advance past them. */
    method Take(n: nat) returns (got: seq<byte>)
      requires Valid() && n <= level
      modifies this`cur, this`level
      ensures Valid() && level == old(level) - n
      ensures |got| == n && got == old(Buffered())[..n] && Buffered() == old(Buffered())[n..]
      ensures Drawn(true, old(Account()), got, Account())
    {
      got := buffer[cur..cur + n];
      assert Buffered() == got + Buffered()[n..];
      Advance(n);
      Assoc(got, Buffered(), Source());
    }

    /** Refill an empty buffer; on success it stays empty only at the end of the source. */
    method Refill() returns (rc: Errno)
      requires Valid() && !buftype.Unbuffered?
      modifies tr.Repr, this
      ensures Valid() && SameKind() && Drawn(rc == OK, old(Account()), [], Account())
      ensures phantom == old(phantom) + (if rc != OK && buftype.FullBuffered? then level else 0)
      ensures rc == OK && level == 0 ==> old(Avail()) == []
      ensures buftype.LineBuffered? && old(OnlyLast(Buffered(), NL)) ==> OnlyLast(Buffered(), NL)
      ensures old(level) > 0 ==> rc == OK && Buffered() == old(Buffered())
      ensures old(Live()) && old(Avail()) != [] ==> rc == OK && Live()
      ensures old(Spoiled()) ==> Misread(rc, level, Buffered(), old(tr.Inbound()))
      ensures ReadExcused(rc != OK)
    {
      hide Transport.Valid, Transport.Pending, Transport.Lockstep, Transport.TakesSpoiled, Transport.Inbound;
      hide OnlyLast, Drawn, Misread;
      rc := OK;
      DrawnNothing(Account());
      if level == 0 {
        assert Buffered() == [] && Avail() == Source();
        rc := FillBuffer();
      }
    }

    /** The copying part of one round of smap_stream_read. */
    method TakeSome(left: nat) returns (got: seq<byte>)
      requires Valid() && level > 0 && left > 0
      modifies this`cur, this`level
      ensures Valid() && level == old(level) - |got| && |got| > 0
      ensures got == old(Buffered())[..if left > old(level) then old(level) else left]
      ensures Drawn(true, old(Account()), got, Account())
      ensures old(OnlyLast(Buffered(), NL)) ==> OnlyLast(got, NL) && OnlyLast(Buffered(), NL)
    {
      hide OnlyLast, Drawn;
      var n := if left > level then level else left;
      if OnlyLast(Buffered(), NL) {
        LineSplit(Buffered(), n, NL);
      }
      got := Take(n);
    }

    /** One round of the loop of smap_stream_read: refill, then copy at most left bytes. */
    method ReadSome(left: nat) returns (rc: Errno, got: seq<byte>)
      requires Valid() && !buftype.Unbuffered? && left > 0
      modifies tr.Repr, this
      ensures Valid() && SameKind()
      ensures |got| <= left && Drawn(rc == OK, old(Account()), got, Account())
      ensures phantom == old(phantom) + (if rc != OK && buftype.FullBuffered? then level else 0)
      ensures rc != OK ==> got == []
      ensures rc == OK && got == [] ==> old(Avail()) == []
      ensures old(level) > 0 ==>
                && rc == OK && got == old(Buffered())[..if left > old(level) then old(level) else left]
                && level == old(level) - |got|
      ensures old(Live()) && old(Avail()) != [] ==> rc == OK && Live() && old(Avail()) == got + Avail()
      ensures old(Spoiled()) ==> Misread(rc, level, Buffered(), old(tr.Inbound()))
      ensures buftype.LineBuffered? && old(OnlyLast(Buffered(), NL)) ==>
                OnlyLast(got, NL) && OnlyLast(Buffered(), NL)
      ensures ReadExcused(rc != OK)
    {
      hide Transport.Valid, Transport.Pending, Transport.Lockstep, Transport.TakesSpoiled, Transport.Inbound;
      hide Drawn, ParsePrefix, HasBody, Source, SourceAccount;
      got := [];
      rc := Refill();
      assert OnlyLast(got, NL);
      hide OnlyLast;
      if rc != OK || level == 0 {
        return;
      }
      ghost var mid := Account();
      got := TakeSome(left);
      DrawnThen(true, old(Account()), [], mid, true, got, Account());
      assert [] + got == got;
      if !tr.lost {
        DrawnExactly(true, old(Account()), got, Account());
      }
    }

    /** One round of that loop, with what is done with its result; data has been read from all so far. */
    method ReadRound(left: nat, data0: seq<byte>, ghost all: Ledger)
      returns (rc: Errno, data: seq<byte>, more: bool, ghost failed: bool)
      requires Valid() && !buftype.Unbuffered? && left > 0 && Drawn(true, all, data0, Account())
      modifies tr.Repr, this
      ensures Valid() && SameKind() && ReadExcused(failed) && Drawn(!failed, all, data, Account())
      ensures |data0| <= |data| <= |data0| + left && (more ==> !failed && |data0| < |data|)
      ensures if failed then data == data0 && (rc == OK <==> data != []) else rc == OK
      ensures !more && !failed ==> Avail() == [] || (buftype.LineBuffered? && EndsWith(data, NL))
      ensures !buftype.FullBuffered? ==> phantom == old(phantom)
      ensures rc == OK && data == [] ==> old(Avail()) == []
      ensures old(Live()) && left <= |old(Avail())| ==>
                !failed && Live() && |Avail()| + |data| == |old(Avail())| + |data0|
      ensures buftype.FullBuffered? && left <= old(level) ==>
                !failed && more && |data| == |data0| + left && level == old(level) - left
      ensures old(Spoiled()) && data0 == [] ==>
                !more && data == [] && Misread(rc, level, Buffered(), old(tr.Inbound()))
                && phantom == old(phantom) + level
      ensures buftype.LineBuffered? && old(OnlyLast(Buffered(), NL)) && Free(data0, NL) ==>
                (more ==> Free(data, NL)) && OnlyLast(data, NL) && OnlyLast(Buffered(), NL)
    {
      hide Transport.Valid, Transport.Pending, Transport.Lockstep, Transport.TakesSpoiled, Transport.Inbound;
      hide Source, ParsePrefix, HasBody, Drawn, OnlyLast, Free;
      ghost var mid := Account();
      var got;
      rc, got := ReadSome(left);
      failed := rc != OK;
      data := data0 + got;
      DrawnThen(true, all, data0, mid, rc == OK, got, Account());
      if rc == OK && got == [] {
        DrawnToTheEnd(mid, Account());
      }
      if buftype.LineBuffered? && old(OnlyLast(Buffered(), NL)) && Free(data0, NL) {
        LineGrows(data0, got, NL);
      }
      if rc != OK || got == [] {
        more := false;
        if data != [] {
          rc := OK;
        }
      } else {
        more := !(buftype.LineBuffered? && data[|data| - 1] == NL);
      }
    }

    /**
     * The loop of smap_stream_read on a buffered stream: unless a fill fails, as many bytes as are
     * asked for, or all there are; in line mode nothing after a newline.
     */
    method ReadBuffered(size: nat) returns (rc: Errno, data: seq<byte>, ghost failed: bool)
      requires Valid() && !buftype.Unbuffered?
      modifies tr.Repr, this
      ensures Valid() && SameKind() && ReadExcused(failed)
      ensures if failed then |data| < size && (rc == OK <==> data != []) else rc == OK
      ensures !failed && (buftype.LineBuffered? ==> old(OnlyLast(Buffered(), NL))) ==>
                data == Next(old(Avail()), size, buftype.LineBuffered?)
      ensures |data| <= size && Drawn(!failed, old(Account()), data, Account())
      ensures !buftype.FullBuffered? ==> phantom == old(phantom)
      ensures rc == OK && size > 0 && data == [] ==> old(Avail()) == []
      ensures old(Live()) && size <= |old(Avail())| ==> rc == OK && Live() && !failed
      ensures buftype.FullBuffered? && size <= old(level) ==> !failed && level == old(level) - size
      ensures old(Spoiled()) && size > 0 ==>
                Misread(rc, level, Buffered(), old(tr.Inbound())) && phantom == old(phantom) + level
      ensures buftype.LineBuffered? && old(OnlyLast(Buffered(), NL)) ==>
                OnlyLast(data, NL) && OnlyLast(Buffered(), NL)
    {
      ghost var lines := buftype.LineBuffered? && OnlyLast(Buffered(), NL);
      ghost var sure, held := Live() && size <= |Avail()|, buftype.FullBuffered? && size <= level;
      ghost var bad := Spoiled() && size > 0;
      ghost var all := Account();
      rc, data, failed := ReadLoop(size, all, sure, held, bad, tr.Inbound(), lines);
      hide Transport.Valid, Transport.Pending, Transport.Lockstep, Transport.TakesSpoiled, Transport.Inbound;
      hide OnlyLast, Live, Drawn, Spoiled, Next, EndsWith, Misread;
      if !failed && (buftype.LineBuffered? ==> lines) {
        AllRead(all, data, size);
      }
    }

    /** That loop, where sure, held, bad and lines say what is known of the stream before it. */
    method ReadLoop(size: nat, ghost all: Ledger, ghost sure: bool, ghost held: bool, ghost bad: bool,
                    ghost u: seq<byte>, ghost lines: bool)
      returns (rc: Errno, data: seq<byte>, ghost failed: bool)
      requires Valid() && !buftype.Unbuffered? && all == Account()
      requires (sure ==> Live() && size <= |Avail()|) && (held ==> buftype.FullBuffered? && size <= level)
      requires bad ==> Spoiled() && tr.Inbound() == u && size > 0
      requires lines ==> buftype.LineBuffered? && OnlyLast(Buffered(), NL)
      modifies tr.Repr, this
      ensures Valid() && SameKind() && ReadExcused(failed) && |data| <= size && Drawn(!failed, all, data, Account())
      ensures if failed then |data| < size && (rc == OK <==> data != []) else rc == OK
      ensures !failed ==> |data| == size || Avail() == [] || (buftype.LineBuffered? && EndsWith(data, NL))
      ensures !buftype.FullBuffered? ==> phantom == old(phantom)
      ensures rc == OK && size > 0 && data == [] ==> all.avail == []
      ensures (sure ==> !failed && Live()) && (held ==> !failed && level == old(level) - size)
      ensures bad ==> Misread(rc, level, Buffered(), u) && phantom == old(phantom) + level
      ensures lines ==> OnlyLast(data, NL) && OnlyLast(Buffered(), NL)
    {
      hide Transport.Valid, Transport.Pending, Transport.Lockstep, Transport.TakesSpoiled, Transport.Inbound;
      rc, data, failed := OK, [], false;
      DrawnNothing(all);
      assert OnlyLast(data, NL) && Free(data, NL);
      hide Avail, Source, OnlyLast, Free, Live, Drawn, Spoiled, EndsWith, Misread;
      var left: nat := size;
      var more := true;
      while left > 0 && more
        invariant Valid() && SameKind() && ReadExcused(failed)
        invariant |data| + left == size && Drawn(!failed, all, data, Account())
        invariant if failed then !more && left > 0 && (rc == OK <==> data != []) else rc == OK
        invariant !more && !failed ==> Avail() == [] || (buftype.LineBuffered? && EndsWith(data, NL))
        invariant !buftype.FullBuffered? ==> phantom == old(phantom)
        invariant !more && rc == OK && data == [] ==> all.avail == []
        invariant data == [] && more ==> Avail() == all.avail
        invariant sure ==> !failed && Live() && left <= |Avail()|
        invariant held ==> !failed && more && left <= level == old(level) - |data|
        invariant lines ==> (more ==> Free(data, NL)) && OnlyLast(data, NL) && OnlyLast(Buffered(), NL)
        invariant bad ==>
                    data == [] && if more then Spoiled() && tr.Inbound() == u && phantom == old(phantom)
                                  else Misread(rc, level, Buffered(), u) && phantom == old(phantom) + level
        decreases left, more
      {
        rc, data, more, failed := ReadRound(left, data, all);
        left := size - |data|;
      }
    }

    lemma AllRead(all: Ledger, data: seq<byte>, size: nat)
      requires Valid() && Drawn(true, all, data, Account()) && |data| <= size
      requires buftype.LineBuffered? ==> OnlyLast(data, NL)
      requires |data| == size || Avail() == [] || (buftype.LineBuffered? && EndsWith(data, NL))
      ensures data == Next(all.avail, size, buftype.LineBuffered?)
    {
      NextIs(data, Avail(), size, buftype.LineBuffered?);
    }

    /**
     * smap_stream_read; full stands for a null count pointer. Unless the place on the wire has been
     * lost, nothing is lost or invented if and only if no failed fill has added bytes to the buffer.
     * A buffered stream hands out all that is asked for and can be read unless a fill has failed.
     */
    method Read(size: nat, full: bool) returns (rc: Errno, data: seq<byte>, ghost failed: bool)
      requires Valid()
      modifies tr.Repr, this
      ensures Valid() && SameKind() && ReadExcused(failed)
      ensures if failed then rc == OK <==> !buftype.Unbuffered? && data != [] else rc == OK
      ensures !failed && !buftype.Unbuffered? && (buftype.LineBuffered? ==> old(OnlyLast(Buffered(), NL))) ==>
                data == Next(old(Avail()), size, buftype.LineBuffered?)
      ensures !failed && buftype.Unbuffered? && full ==> |data| == size || Avail() == []
      ensures failed && !buftype.Unbuffered? ==> |data| < size
      ensures |data| <= size && Drawn(!failed, old(Account()), data, Account())
      ensures !tr.lost ==> (old(Avail()) == data + Avail() <==> phantom == old(phantom))
      ensures !buftype.FullBuffered? ==> phantom == old(phantom)
      ensures rc == OK && size > 0 && data == [] ==> old(Avail()) == []
      ensures rc != OK && !full ==> data == []
      ensures old(Live()) && size <= |old(Avail())| ==> rc == OK && Live() && !failed
      ensures buftype.FullBuffered? && size <= old(level) ==> !failed && level == old(level) - size
      ensures old(Spoiled()) && size > 0 ==>
                Misread(rc, level, Buffered(), old(tr.Inbound())) && phantom == old(phantom) + level
      ensures buftype.LineBuffered? && old(OnlyLast(Buffered(), NL)) ==>
                OnlyLast(data, NL) && OnlyLast(Buffered(), NL)
    {
      if buftype.Unbuffered? {
        var n;
        rc, n, data := ReadUnbuffered(size, full);
        failed := rc != OK;
        if rc != OK && !full {
          data := [];  // stored in the caller's memory, but not handed over
        }
      } else {
        rc, data, failed := ReadBuffered(size);
      }
    }

    /** The copying part of one round of _stream_scandelim. */
    method TakeThrough(left: nat, delim: byte) returns (got: seq<byte>, found: bool)
      requires Valid() && level > 0 && left > 0
      modifies this`cur, this`level
      ensures Valid() && 0 < |got| <= left && Drawn(true, old(Account()), got, Account())
      ensures |got| == left || EndsWith(got, delim) || level == 0
      ensures OnlyLast(got, delim) && (!found ==> Free(got, delim))
      ensures found ==> |got| == left || EndsWith(got, delim)
    {
      var p := IndexOf(buffer[cur..cur + level], delim);
      found := p < level;
      var len := if found then p + 1 else level;
      len := if len > left then left else len;
      hide Drawn;
      got := Take(len);
    }

    /** One round of _stream_scandelim: at most left bytes, at most through the first delimiter. */
    method ScanSome(left: nat, delim: byte) returns (rc: Errno, got: seq<byte>, found: bool)
      requires Valid() && !buftype.Unbuffered? && left > 0
      modifies tr.Repr, this
      ensures Valid() && SameKind()
      ensures |got| <= left && Drawn(rc == OK, old(Account()), got, Account())
      ensures rc == OK && got == [] ==> old(Avail()) == []
      ensures rc == OK ==> |got| == left || EndsWith(got, delim) || level == 0
      ensures OnlyLast(got, delim) && (!found ==> Free(got, delim))
      ensures found ==> |got| == left || EndsWith(got, delim)
      ensures ReadExcused(rc != OK)
    {
      hide Transport.Valid, Transport.Pending, Transport.Lockstep, Source, Drawn;
      got, found := [], false;
      rc := Refill();
      assert OnlyLast(got, delim) && Free(got, delim);
      hide OnlyLast, Free, EndsWith;
      if rc != OK || level == 0 {
        return;
      }
      ghost var mid := Account();
      got, found := TakeThrough(left, delim);
      DrawnThen(true, old(Account()), [], mid, true, got, Account());
      assert [] + got == got;
    }

    /** _stream_scandelim into size bytes of memory, the last of them for the final NUL. */
    method ScanDelim(size: nat, delim: byte) returns (rc: Errno, data: seq<byte>)
      requires Valid() && !buftype.Unbuffered? && size > 0
      modifies tr.Repr, this
      ensures Valid() && SameKind()
      ensures |data| < size && Drawn(rc == OK, old(Account()), data, Account())
      ensures size == 1 ==> rc == EOVERFLOW
      ensures rc == OK ==> OnlyLast(data, delim) && (data == [] ==> old(Avail()) == [])
      ensures rc == OK ==> |data| == size - 1 || EndsWith(data, delim) || Avail() == []
      ensures size == 1 || ReadExcused(rc != OK)
    {
      rc, data := OK, [];
      DrawnNothing(Account());
      assert OnlyLast(data, delim) && Free(data, delim);
      hide Transport.Valid, Transport.Pending, Transport.Lockstep;
      hide OnlyLast, Free, EndsWith, Avail, Buffered, Source, Shape, Drawn;
      var left: nat := size - 1;
      if left == 0 {
        return EOVERFLOW, [];
      }
      var more := true;
      while left > 0 && more
        invariant Valid() && SameKind()
        invariant |data| + left == size - 1 && Drawn(rc == OK, old(Account()), data, Account())
        invariant rc == OK && !more && data == [] ==> old(Avail()) == []
        invariant (more ==> rc == OK) && (data == [] && more ==> Avail() == old(Avail()))
        invariant OnlyLast(data, delim) && (more ==> Free(data, delim))
        invariant rc == OK && !more ==> left == 0 || EndsWith(data, delim) || Avail() == []
        invariant ReadExcused(rc != OK)
        decreases left, more
      {
        ghost var mid := Account();
        var got, found;
        rc, got, found := ScanSome(left, delim);
        LineGrows(data, got, delim);
        GrowsFree(data, got, delim);
        GrowsEnd(data, got, delim);
        DrawnThen(true, old(Account()), data, mid, rc == OK, got, Account());
        data := data + got;
        left := left - |got|;
        more := rc == OK && got != [] && !found;
      }
    }

    // ---- writing ----

    /** The transport took each of the calls, in order, and nothing else. */
    twostate predicate Delivered(calls: seq<seq<byte>>)
      requires old(tr.Valid()) && tr.Valid()
      reads tr, tr.Repr
    {
      Took(tr.io.Writer?, old(tr.Wire()), old(tr.Frames()), tr.Wire(), tr.Frames(), calls)
    }

    /** No write can succeed on this stream. */
    predicate Blocked()
      reads this`err, this`canWrite
    {
      err || !canWrite || tr.io.Reader?
    }

    /**
     * A write of total bytes fails only if the stream is blocked, the transport has failed, the buffer
     * cannot grow, or there are more bytes than a frame writer's number buffer has digits for.
     */
    twostate predicate Excused(rc: Errno, total: nat)
      reads this`err, this`canWrite, this`bufsize, tr`failed
    {
      if rc == OK then err == old(err)
      else tr.failed || old(Blocked()) || bufsize == SIZE_MAX || (rc == Overrun && total > TOO_BIG)
    }

    /** The full_write loop of smap_stream_write_unbuffered. */
    method WriteFully(data: seq<byte>) returns (rc: Errno, n: nat)
      requires Valid() && data != [] && !tr.io.Reader?
      modifies tr.Repr, this`bytesOut
      ensures Valid() && n <= |data| && bytesOut == old(bytesOut) + n
      ensures rc == OK ==> n == |data| && Delivered([data])
      ensures rc != OK ==> tr.failed || (rc == Overrun && |data| > TOO_BIG)
    {
      hide Transport.Valid, Transport.Wire, Transport.Frames, Took, OnWire, Payloads;
      rc, n := OK, 0;
      TookOne(tr.io.Writer?, tr.Wire(), tr.Frames(), data);
      assert data[..0] == [];
      while n < |data| && rc == OK
        invariant Valid() && n <= |data| && bytesOut == old(bytesOut) + n
        invariant rc == OK && n == 0 ==> tr.Frames() == old(tr.Frames())
        invariant rc == OK && (tr.io.Raw? || n == 0) ==> tr.Wire() == old(tr.Wire()) + data[..n]
        invariant rc == OK && tr.io.Writer? && n > 0 ==> n == |data| && Delivered([data])
        invariant rc != OK ==> tr.failed || (rc == Overrun && |data| > TOO_BIG)
        decreases |data| - n, rc == OK
      {
        assert n == 0 ==> data[n..] == data && data[..n] == [];
        var wrbytes;
        rc, wrbytes := tr.Write(data[n..]);
        if rc == OK {
          if wrbytes == 0 {
            rc := EIO;
          }
          assert data[..n] + data[n..][..wrbytes] == data[..n + wrbytes];
          n := n + wrbytes;
          bytesOut := bytesOut + wrbytes;
        }
      }
      assert rc == OK ==> data[..n] == data;
    }

    /** smap_stream_write_unbuffered */
    method WriteUnbuffered(data: seq<byte>, full: bool) returns (rc: Errno, n: nat)
      requires Valid()
      modifies tr.Repr, this`bytesOut, this`wrt, this`lastErr, this`err
      ensures Valid()
      ensures n <= |data| && (rc == OK || full ==> bytesOut == old(bytesOut) + n)
      ensures rc == OK && (full || tr.io.Writer?) ==>
                n == |data| && Delivered(if data == [] then [] else [data])
      ensures rc == OK && !full && tr.io.Raw? ==> tr.Wire() == old(tr.Wire()) + data[..n]
      ensures rc == OK && data != [] ==> n > 0 && wrt
      ensures Excused(rc, |data|)
      ensures old(Blocked()) ==> rc != OK && n == 0
      ensures rc != OK ==> lastErr == rc
      ensures !tr.io.Reader? && canWrite ==> err == (old(err) || Permanent(rc))
    {
      hide Transport.Valid, Transport.Wire, Transport.Frames, Took;
      n := 0;
      TookNothing(tr.io.Writer?, tr.Wire(), tr.Frames());
      if tr.io.Reader? {
        SetError(ENOSYS, false);
        return ENOSYS, 0;
      }
      if !canWrite {
        SetError(EACCES, true);
        return EACCES, 0;
      }
      if err {
        return lastErr, 0;
      }
      if data == [] {
        return OK, 0;
      }
      rc, n := WriteOut(data, full);
      wrt := true;
      SetError(rc, rc != OK);
    }

    /** The write loop, or one call of the write pointer. */
    method WriteOut(data: seq<byte>, full: bool) returns (rc: Errno, n: nat)
      requires Valid() && data != [] && !tr.io.Reader?
      modifies tr.Repr, this`bytesOut
      ensures Valid() && n <= |data| && (rc == OK || full ==> bytesOut == old(bytesOut) + n)
      ensures rc == OK && (full || tr.io.Writer?) ==> n == |data| && Delivered([data])
      ensures rc == OK && !full && tr.io.Raw? ==> tr.Wire() == old(tr.Wire()) + data[..n]
      ensures rc == OK ==> n > 0
      ensures rc != OK ==> tr.failed || (rc == Overrun && |data| > TOO_BIG)
    {
      hide Transport.Valid, Transport.Wire, Transport.Frames;
      OnWireOne(tr.io.Writer?, data);
      if full {
        rc, n := WriteFully(data);
      } else {
        rc, n := tr.Write(data);
        if rc == OK {
          bytesOut := bytesOut + n;
        } else {
          n := 0;
        }
      }
    }

    /** Write the first size buffered bytes out in one request and advance past them. */
    method SendFront(size: nat) returns (rc: Errno)
      requires Valid() && 0 < size <= level
      modifies tr.Repr, this`bytesOut, this`wrt, this`lastErr, this`err, this`cur, this`level
      ensures Valid()
      ensures rc == OK ==>
                && Buffered() == old(Buffered())[size..] && cur + level == old(cur + level)
                && level == old(level) - size && Delivered([old(Buffered())[..size]])
      ensures rc != OK ==> level == old(level)
      ensures Excused(rc, old(level))
    {
      hide Transport.Valid, Transport.Wire, Transport.Frames;
      var n;
      assert buffer[cur..cur + size] == Buffered()[..size];
      rc, n := WriteUnbuffered(buffer[cur..cur + size], true);
      if rc == OK {
        Advance(size);
      }
    }

    /** The loop of _stream_flush_buffer over the complete lines of a line-buffered stream. */
    method FlushLines() returns (rc: Errno, ghost calls: seq<seq<byte>>)
      requires Valid()
      modifies tr.Repr, this`bytesOut, this`wrt, this`lastErr, this`err, this`cur, this`level
      ensures Valid()
      ensures rc == OK ==>
                && calls == CompleteLines(old(Buffered())) && Buffered() == Tail(old(Buffered()))
                && cur + level == old(cur + level) && Delivered(calls)
      ensures level <= old(level) && Excused(rc, old(level))
    {
      hide Transport.Valid, Transport.Wire, Transport.Frames, Tail, CompleteLines, Free, Took;
      rc, calls := OK, [];
      TookNothing(tr.io.Writer?, tr.Wire(), tr.Frames());
      var end := IndexOf(buffer[cur..cur + level], NL);
      while rc == OK && end < level
        invariant Valid()
        invariant rc == OK ==>
                    && end == IndexOf(Buffered(), NL) <= level
                    && calls + CompleteLines(Buffered()) == CompleteLines(old(Buffered()))
                    && Tail(Buffered()) == Tail(old(Buffered()))
                    && cur + level == old(cur + level) && Delivered(calls)
        invariant level <= old(level) && Excused(rc, old(level))
        decreases level, rc == OK
      {
        ghost var line, wire, frames := Buffered()[..end + 1], tr.Wire(), tr.Frames();
        rc, end := FlushLine(end);
        if rc == OK {
          TookThen(tr.io.Writer?, old(tr.Wire()), old(tr.Frames()), wire, frames,
                   tr.Wire(), tr.Frames(), calls, [line]);
          Assoc(calls, [line], CompleteLines(Buffered()));
          calls := calls + [line];
        }
      }
      if rc == OK {
        NoLines(Buffered());
      }
    }

    /** Send the line that ends with the newline at end, and look for the next one. */
    method FlushLine(end: nat) returns (rc: Errno, next: nat)
      requires Valid() && end == IndexOf(Buffered(), NL) < level
      modifies tr.Repr, this`bytesOut, this`wrt, this`lastErr, this`err, this`cur, this`level
      ensures Valid() && level <= old(level)
      ensures rc == OK ==>
                && next == IndexOf(Buffered(), NL) <= level < old(level) && cur + level == old(cur + level)
                && Delivered([old(Buffered())[..end + 1]])
                && CompleteLines(old(Buffered())) == [old(Buffered())[..end + 1]] + CompleteLines(Buffered())
                && Tail(old(Buffered())) == Tail(Buffered())
      ensures Excused(rc, old(level))
    {
      hide Transport.Valid, Transport.Wire, Transport.Frames, Tail, CompleteLines, Took;
      NextLine(Buffered(), end);
      rc := SendFront(end + 1);
      next := if rc == OK then IndexOf(buffer[cur..cur + level], NL) else end;
    }

    /** memmove of the remaining bytes to the front of the buffer. */
    method Compact()
      requires Shape() && cur + level <= bufsize
      modifies this`buffer, this`cur, this`dirty
      ensures Shape() && cur == 0 && Buffered() == old(Buffered())
      ensures dirty == (old(dirty) && level > 0)
    {
      hide Poke;
      if level > 0 {
        if cur > 0 {
          MovedToFront(buffer, cur, level);
          buffer := Poke(buffer, 0, buffer[cur..cur + level]);
        }
      } else {
        dirty := false;
      }
      cur := 0;
    }

    lemma MovedToFront(b: seq<byte>, at: nat, n: nat)
      requires at + n <= |b|
      ensures Poke(b, 0, b[at..at + n])[0..0 + n] == b[at..at + n]
    {
    }

    /** BUFFER_FULL_P */
    predicate FullP()
      reads this`cur, this`level, this`bufsize
    {
      cur + level == bufsize
    }

    /** The guard of the branch that grows the buffer and returns before the compaction. */
    ghost predicate Expands(all: bool)
      requires cur + level <= |buffer|
      reads this
    {
      !all && FullP() && expbuf && Tail(Buffered()) != []
    }

    /** The guard of the branches that send an incomplete line. */
    ghost predicate Forces(all: bool)
      requires cur + level <= |buffer|
      reads this
    {
      Tail(Buffered()) != [] && (all || (FullP() && !expbuf))
    }

    /** _stream_flush_buffer on a dirty line-buffered stream. */
    method FlushBufferLine(all: bool) returns (rc: Errno, ghost calls: seq<seq<byte>>)
      requires Valid() && buftype.LineBuffered? && dirty
      modifies tr.Repr, this
      ensures Valid() && SameKind()
      ensures rc == OK ==> Delivered(calls) && FlushedLines(all, calls)
      ensures Excused(rc, old(level))
    {
      hide Transport.Valid, Transport.Wire, Transport.Frames, Took, Tail, CompleteLines;
      rc, calls := FlushLines();
      if rc != OK {
        return;
      }
      NothingMore(Buffered(), calls);
      if level > 0 {
        if all || (FullP() && !expbuf) {
          rc, calls := SendTail(calls, old(tr.Wire()), old(tr.Frames()));
          if rc != OK {
            return;
          }
        } else if FullP() {
          rc := ReallocBuffer(0);
          return;
        }
      }
      Compact();
    }

    lemma NothingMore(tail: seq<byte>, calls: seq<seq<byte>>)
      ensures tail[..|tail|] == tail && calls + [] == calls
    {
    }

    /** _force_flush_buffer: the incomplete line goes out, too, after the calls since w0 and f0. */
    method SendTail(ghost calls0: seq<seq<byte>>, ghost w0: seq<byte>, ghost f0: seq<seq<byte>>)
      returns (rc: Errno, ghost calls: seq<seq<byte>>)
      requires Valid() && level > 0 && Took(tr.io.Writer?, w0, f0, tr.Wire(), tr.Frames(), calls0)
      modifies tr.Repr, this`bytesOut, this`wrt, this`lastErr, this`err, this`cur, this`level
      ensures Valid()
      ensures rc == OK ==>
                && Took(tr.io.Writer?, w0, f0, tr.Wire(), tr.Frames(), calls)
                && calls == calls0 + [old(Buffered())] && level == 0 && cur == old(cur + level)
      ensures Excused(rc, old(level))
    {
      hide Transport.Valid, Transport.Wire, Transport.Frames, Took;
      ghost var tail, wire, frames := Buffered(), tr.Wire(), tr.Frames();
      NothingMore(tail, calls0);
      rc := SendFront(level);
      calls := calls0 + [tail];
      if rc == OK {
        TookThen(tr.io.Writer?, w0, f0, wire, frames, tr.Wire(), tr.Frames(), calls0, [tail]);
      }
    }

    /** _stream_flush_buffer on a dirty full-buffered stream: the buffer is sent, but kept unless all. */
    method FlushBufferFull(all: bool) returns (rc: Errno, ghost calls: seq<seq<byte>>)
      requires Valid() && buftype.FullBuffered? && dirty
      modifies tr.Repr, this
      ensures Valid() && SameKind()
      ensures rc == OK ==>
                && Delivered(calls) && cur == 0 && (all ==> level == 0 && !dirty)
                && (Concat(calls) + Buffered() == old(Buffered()) <==> all || old(Buffered()) == [])
      ensures Excused(rc, old(level))
    {
      hide Transport.Valid, Transport.Wire, Transport.Frames, Took;
      ghost var b := Buffered();
      var n;
      rc, n := WriteUnbuffered(buffer[cur..cur + level], true);
      calls := if b == [] then [] else [b];
      if rc != OK {
        return;
      }
      ConcatOne(b);
      if all {
        Advance(level);
      }
      Compact();
    }

    /** _stream_flush_buffer when nothing has been written: what is buffered is kept or dropped. */
    method FlushClean(all: bool)
      requires Valid() && !dirty
      modifies this`buffer, this`cur, this`level, this`dirty
      ensures Valid() && SameKind() && !dirty && cur == 0
      ensures Buffered() == (if all then [] else old(Buffered())) && (all ==> level == 0)
    {
      if all {
        Advance(level);
      }
      Compact();
    }

    /** _stream_flush_buffer */
    method FlushBuffer(all: bool) returns (rc: Errno, ghost calls: seq<seq<byte>>)
      requires Valid() && (dirty ==> !buftype.Unbuffered?)
      modifies tr.Repr, this
      ensures Valid() && SameKind()
      ensures rc == OK ==> Delivered(calls)
      ensures rc == OK && all ==> cur == 0 && level == 0 && !dirty
      ensures rc == OK && !old(dirty) ==> calls == [] && Buffered() == (if all then [] else old(Buffered()))
      ensures rc == OK && old(dirty) && buftype.LineBuffered? ==> FlushedLines(all, calls)
      ensures rc == OK && old(dirty) && buftype.FullBuffered? ==>
                (Concat(calls) + Buffered() == old(Buffered()) <==> all || old(Buffered()) == [])
      ensures Excused(rc, old(level))
    {
      rc, calls := OK, [];
      TookNothing(tr.io.Writer?, tr.Wire(), tr.Frames());
      assert Delivered(calls);
      hide Transport.Valid, Transport.Wire, Transport.Frames, Took, FlushedLines, Concat, Delivered, Expands, Forces;
      if dirty {
        if buftype.FullBuffered? {
          rc, calls := FlushBufferFull(all);
        } else {
          rc, calls := FlushBufferLine(all);
        }
      } else {
        FlushClean(all);
      }
    }

    /**
     * When a flush leaves the buffered bytes at the front of the buffer, as the next write needs
     * them: unless it grows the buffer after complete lines have gone out or were out before.
     */
    twostate lemma FrontAfterFlush(calls: seq<seq<byte>>)
      requires old(Valid()) && Valid() && FlushedLines(false, calls)
      ensures cur == 0 <==> !old(Expands(false)) || (old(cur) == 0 && old(Free(Buffered(), NL)))
    {
      hide Tail, CompleteLines;
      ghost var b := old(Buffered());
      TailIsAll(b);
      LinesAndTail(b);
      assert |b| == old(level) && |Buffered()| == level;
    }

    /** What a successful flush of a dirty line-buffered stream does to the buffer and the calls. */
    twostate predicate FlushedLines(all: bool, calls: seq<seq<byte>>)
      requires old(cur + level <= |buffer|) && cur + level <= |buffer|
      reads this
    {
      && Flushed(old(Buffered()), old(Forces(all)), calls, Buffered())
      && (dirty <==> level > 0)
      && (!all ==> level < bufsize)
      && (if old(Expands(all))
          then cur == old(cur) + old(level) - level
               && bufsize == (if 2 * old(bufsize) <= SIZE_MAX then 2 * old(bufsize) else SIZE_MAX)
          else cur == 0 && bufsize == old(bufsize))
    }

    /** A line-buffered stream between write calls. */
    ghost predicate Writable()
      reads this, tr, tr.Repr
    {
      && Valid() && buftype.LineBuffered?
      && cur == 0 && level < bufsize && Free(Buffered(), NL) && (level > 0 ==> dirty)
    }

    /** _stream_buffer_full_p on a line-buffered stream, and the flush it triggers. */
    method FlushIfFull() returns (rc: Errno, ghost calls: seq<seq<byte>>)
      requires Valid() && buftype.LineBuffered? && cur == 0 && (level > 0 ==> dirty)
      requires expbuf && FullP() ==> Free(Buffered(), NL) || EndsWith(Buffered(), NL)
      modifies tr.Repr, this
      ensures Valid() && SameKind()
      ensures rc == OK ==> Writable() && Delivered(calls)
      ensures rc == OK ==> Concat(calls) + Buffered() == old(Buffered())
      ensures rc == OK && expbuf ==>
                && calls == CompleteLines(old(Buffered())) && Buffered() == Tail(old(Buffered()))
                && bufsize == (if old(FullP() && Free(Buffered(), NL)) then Doubled(old(bufsize)) else old(bufsize))
      ensures Excused(rc, old(level))
    {
      rc, calls := OK, [];
      TookNothing(tr.io.Writer?, tr.Wire(), tr.Frames());
      ghost var b, forced := Buffered(), Forces(false);
      var full := FullP() || IndexOf(buffer[cur..cur + level], NL) < level;
      FullOrFree(b);
      assert Concat(calls) + b == b && !(expbuf && forced);
      assert Expands(false) <==> expbuf && FullP() && Free(b, NL);
      hide Transport.Valid, Transport.Wire, Transport.Frames, Took;
      hide Forces, Flushed, Free, Tail, CompleteLines, Concat, EndsWith, Expands;
      if full {
        rc, calls := FlushBuffer(false);
        if rc == OK {
          FlushConserves(b, forced, calls, Buffered());
          TailLeft(b, forced, calls, Buffered());
        }
      }
    }

    /** The copying part of one round of smap_stream_write: as much of data[n..] as fits. */
    method Append(data: seq<byte>, n: nat) returns (k: nat)
      requires Writable() && n < |data|
      modifies this`buffer, this`level, this`dirty
      ensures Valid() && cur == 0 && dirty && 0 < k && n + k <= |data|
      ensures n + k == |data| || level == bufsize
      ensures Buffered() == old(Buffered()) + data[n..n + k]
    {
      k := bufsize - level;
      if k > |data| - n {
        k := |data| - n;
      }
      buffer := Poke(buffer, level, data[n..n + k]);
      level := level + k;
      dirty := true;
    }

    /**
     * In the middle of a write to an expandable buffer: all is what was held before and the data of
     * the write, of which rest is still to be copied. So far calls have been made.
     */
    ghost predicate Writing(all: seq<byte>, calls: seq<seq<byte>>, rest: seq<byte>)
      requires Shape() && cur + level <= bufsize && bufsize > 0
      reads this`buffer, this`bufsize, this`buftype, this`level, this`cur, this`err, this`lastErr
    {
      StillNoGap(Buffered(), bufsize, rest) && LinesSoFar(all, calls, Buffered() + rest)
    }

    /** The flushing part of one round of smap_stream_write; see WriteRound. */
    method FlushRound(ghost all: seq<byte>, ghost calls: seq<seq<byte>>, ghost rest: seq<byte>, ghost sent: seq<byte>)
      returns (rc: Errno, ghost more: seq<seq<byte>>)
      requires Valid() && buftype.LineBuffered? && cur == 0 && (level > 0 ==> dirty)
      requires Concat(calls) + Buffered() == sent
      requires expbuf ==> Writing(all, calls, rest)
      modifies tr.Repr, this
      ensures Valid() && SameKind()
      ensures rc == OK ==> Writable() && Delivered(more)
      ensures rc == OK ==> Concat(calls + more) + Buffered() == sent
      ensures rc == OK && expbuf ==>
                NoGap(level, bufsize, rest) && LinesSoFar(all, calls + more, Buffered() + rest)
      ensures Excused(rc, old(level))
    {
      hide Transport.Valid, Transport.Wire, Transport.Frames, Took, Excused, Delivered;
      hide Free, EndsWith, CompleteLines, Tail, Concat, LinesSoFar, NoGap, StillNoGap, Doubled;
      ghost var held, size := Buffered(), bufsize;
      if expbuf {
        FullHeld(held, size, rest);
      }
      rc, more := FlushIfFull();
      if rc == OK {
        SendMore(calls, more, Buffered(), held);
        if expbuf {
          StillHeld(all, calls, held, size, rest, Buffered(), bufsize);
        }
      }
    }

    /**
     * In the middle of a write: calls have been made and n bytes of data taken on top of the line b
     * that was pending before the write.
     */
    ghost predicate Amid(data: seq<byte>, n: nat, b: seq<byte>, calls: seq<seq<byte>>)
      requires Shape() && cur + level <= bufsize && bufsize > 0 && n <= |data|
      reads this`buffer, this`bufsize, this`buftype, this`level, this`cur, this`err, this`lastErr
      reads this`dirty, this`expbuf
    {
      && cur == 0 && (level > 0 ==> dirty)
      && Concat(calls) + Buffered() == b + data[..n]
      && (expbuf ==> Writing(b + data, calls, data[n..]))
    }

    /** One round of smap_stream_write: flush a full buffer, then copy. */
    method WriteRound(data: seq<byte>, n: nat, ghost b: seq<byte>, ghost calls: seq<seq<byte>>)
      returns (rc: Errno, k: nat, ghost more: seq<seq<byte>>)
      requires Valid() && buftype.LineBuffered? && n <= |data| && Amid(data, n, b, calls)
      modifies tr.Repr, this
      ensures Valid() && SameKind()
      ensures rc == OK ==>
                && Delivered(more) && n + k <= |data| && (k == 0 <==> n == |data|)
                && Amid(data, n + k, b, calls + more) && level <= |b| + n + k
      ensures rc == OK && n == |data| ==> Writable()
      ensures Excused(rc, old(level))
    {
      hide Transport.Valid, Transport.Wire, Transport.Frames, Took, NoGap, LinesSoFar, StillNoGap;
      rc, more := FlushRound(b + data, calls, data[n..], b + data[..n]);
      k := 0;
      if rc == OK {
        ghost var held, rest := Buffered(), data[n..];
        if n < |data| {
          k := Append(data, n);
          HoldMore(Concat(calls + more), held, b, data, n, k);
        }
        assert rest[..k] == data[n..n + k] && rest[k..] == data[n + k..];
        assert Buffered() == held + rest[..k];
        if expbuf {
          StillNoGapThen(held, bufsize, rest, k);
          LinesHeld(b + data, calls + more, held, rest, k);
        }
      }
    }

    /** One round, and the calls of all rounds since the wire was w0 and the frames were f0. */
    method WriteMore(data: seq<byte>, n: nat, ghost b: seq<byte>, ghost calls0: seq<seq<byte>>,
                     ghost w0: seq<byte>, ghost f0: seq<seq<byte>>)
      returns (rc: Errno, k: nat, ghost calls: seq<seq<byte>>)
      requires Valid() && buftype.LineBuffered? && n <= |data| && Amid(data, n, b, calls0)
      requires Took(tr.io.Writer?, w0, f0, tr.Wire(), tr.Frames(), calls0)
      modifies tr.Repr, this
      ensures Valid() && SameKind() && n + k <= |data|
      ensures rc == OK ==>
                && Took(tr.io.Writer?, w0, f0, tr.Wire(), tr.Frames(), calls) && (k == 0 <==> n == |data|)
                && Amid(data, n + k, b, calls) && level <= |b| + n + k
      ensures rc == OK && n == |data| ==> Writable()
      ensures Excused(rc, old(level))
    {
      hide Transport.Valid, Transport.Wire, Transport.Frames, Took, Amid;
      ghost var wire, frames := tr.Wire(), tr.Frames();
      ghost var made;
      rc, k, made := WriteRound(data, n, b, calls0);
      if rc != OK {
        return rc, 0, calls0;
      }
      TookThen(tr.io.Writer?, w0, f0, wire, frames, tr.Wire(), tr.Frames(), calls0, made);
      calls := calls0 + made;
    }

    /** The loop of smap_stream_write. */
    method WriteAll(data: seq<byte>, ghost b: seq<byte>) returns (rc: Errno, n: nat, ghost calls: seq<seq<byte>>)
      requires Valid() && buftype.LineBuffered? && Amid(data, 0, b, []) && level <= |b|
      modifies tr.Repr, this
      ensures Valid() && SameKind() && n <= |data|
      ensures rc == OK ==> n == |data| && Writable() && Delivered(calls) && Amid(data, |data|, b, calls)
      ensures Excused(rc, |b| + |data|)
    {
      hide Transport.Valid, Transport.Wire, Transport.Frames, Took;
      hide Free, Amid;
      rc, n, calls := OK, 0, [];
      TookNothing(tr.io.Writer?, tr.Wire(), tr.Frames());
      var more := true;
      while more
        invariant Valid() && SameKind() && n <= |data|
        invariant rc == OK ==> Delivered(calls) && Amid(data, n, b, calls) && level <= |b| + n
        invariant more ==> rc == OK
        invariant rc == OK && !more ==> n == |data| && Writable()
        invariant Excused(rc, |b| + |data|)
        decreases |data| - n, more
      {
        var k;
        rc, k, calls := WriteMore(data, n, b, calls, old(tr.Wire()), old(tr.Frames()));
        n := n + k;
        more := rc == OK && k > 0;
      }
    }

    /**
     * smap_stream_write on a line-buffered stream. With an expandable buffer each complete line goes
     * out in one call and the incomplete one is kept. What it asks of the data then, see NoGap, is
     * what keeps the buffered bytes at the front of the buffer.
     */
    method WriteLines(data: seq<byte>) returns (rc: Errno, n: nat, ghost calls: seq<seq<byte>>)
      requires Writable()
      requires expbuf ==> NoGap(level, bufsize, data)
      modifies tr.Repr, this
      ensures Valid() && SameKind()
      ensures rc == OK ==>
                && n == |data| && Writable() && Delivered(calls)
                && Concat(calls) + Buffered() == old(Buffered()) + data
      ensures rc == OK && expbuf ==>
                calls == CompleteLines(old(Buffered()) + data) && Buffered() == Tail(old(Buffered()) + data)
      ensures Excused(rc, old(level) + |data|)
    {
      ghost var b := Buffered();
      StartWriting(data);
      hide Transport.Valid, Transport.Wire, Transport.Frames, Took;
      hide Free, Concat, NoGap, CompleteLines, Tail, Amid;
      rc, n, calls := WriteAll(data, b);
      if rc == OK {
        EndWriting(data, b, calls);
      }
    }

    lemma StartWriting(data: seq<byte>)
      requires Writable() && (expbuf ==> NoGap(level, bufsize, data))
      ensures Amid(data, 0, Buffered(), [])
    {
      assert Concat([]) + Buffered() == Buffered() + data[..0];
      assert data[0..] == data;
      hide CompleteLines, Tail;
    }

    lemma EndWriting(data: seq<byte>, b: seq<byte>, calls: seq<seq<byte>>)
      requires Writable() && Amid(data, |data|, b, calls)
      ensures Concat(calls) + Buffered() == b + data
      ensures expbuf ==> calls == CompleteLines(b + data) && Buffered() == Tail(b + data)
    {
      assert data[..|data|] == data && data[|data|..] == [];
      if expbuf {
        LinesAllDone(b + data, calls, Buffered());
      }
    }

    /** smap_stream_flush on a line-buffered stream: nothing stays behind. */
    method Flush() returns (rc: Errno, ghost calls: seq<seq<byte>>)
      requires Writable()
      modifies tr.Repr, this
      ensures Valid() && SameKind()
      ensures rc == OK ==>
                && Writable() && level == 0 && !dirty && !wrt && Delivered(calls)
                && calls == (if old(level) == 0 then [] else [old(Buffered())])
      ensures Excused(rc, old(level))
    {
      ghost var b, was := Buffered(), dirty;
      NoLines(b);
      assert Forces(true) <==> level > 0;
      assert !Expands(true);
      hide Transport.Valid, Transport.Wire, Transport.Frames, Took, Forces, Expands, CompleteLines, Tail;
      rc, calls := FlushBuffer(true);
      if rc == OK {
        wrt := false;
      }
    }

    /** Fields that no read or write operation changes. */
    twostate predicate SameKind()
      reads this
    {
      && buftype == old(buftype) && canRead == old(canRead) && canWrite == old(canWrite)
      && expbuf == old(expbuf)
    }
  }
}
