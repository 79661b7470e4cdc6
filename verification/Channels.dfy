/** Error codes, and one direction of a socket connection with unpredictable transfer sizes. */
module Channels {
  import opened Bytes

  /** Return codes. Overrun stands for the undefined behaviour of a copy past its buffer. */
  datatype Errno =
    | OK | EOF | ERANGE | EPROTO | EIO | ENOSYS | EACCES | EOVERFLOW | ENOMEM | EAGAIN | EINPROGRESS | Overrun

  class Channel {
    var data: seq<byte>  // bytes in flight, oldest first

    constructor ()
      ensures data == []
    {
      data := [];
    }

    /** recv: any non-empty part of what is asked for and available; nothing at end of file. */
    method Recv(max: nat) returns (got: seq<byte>)
      requires max > 0
      modifies this
      ensures |got| <= max && got + data == old(data)
      ensures got == [] <==> old(data) == []
    {
      if data == [] {
        got := [];
      } else {
        var k: nat :| 1 <= k <= max && k <= |data|;
        got := data[..k];
        data := data[k..];
      }
    }

    /** recv into buf at offset at; returns the number of bytes stored. */
    method RecvInto(buf: array<byte>, at: nat, max: nat) returns (n: nat)
      requires max > 0 && at + max <= buf.Length
      modifies this, buf
      ensures n <= max && n <= |old(data)| && (n == 0 <==> old(data) == [])
      ensures buf[..at + n] == old(buf[..at]) + old(data)[..n]
      ensures data == old(data)[n..]
    {
      var got := Recv(max);
      n := |got|;
      forall i | 0 <= i < n {
        buf[at + i] := got[i];
      }
      assert buf[at..at + n] == got;
    }

    /** write: any non-empty prefix of the argument. */
    method Send(bytes: seq<byte>) returns (n: nat)
      requires bytes != []
      modifies this
      ensures 1 <= n <= |bytes| && data == old(data) + bytes[..n]
    {
      n :| 1 <= n <= |bytes|;
      data := data + bytes[..n];
    }
  }
}
