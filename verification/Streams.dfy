/** The buffered reader and writer, refining a plain byte sequence. */
module Streams {
  import opened Wire

  function Min(a: nat, b: nat): nat {
    if a < b then a else b
  }

  /** A read either delivers a value or throws: end of stream, or an unknown request type. */
  datatype Outcome<+T> = Value(value: T) | Eof | BadType {
    predicate IsFailure() { !Value? }
    function PropagateFailure<U>(): Outcome<U> requires IsFailure() { if Eof? then Eof else BadType }
    function Extract(): T requires Value? { value }
  }

  /** `s` with `chunk` written over it from position `at`. */
  function Overlay(s: bytes, at: nat, chunk: bytes): (r: bytes)
    requires at + |chunk| <= |s|
    ensures |r| == |s|
  {
    s[..at] + chunk + s[at + |chunk|..]
  }

  lemma OverlayTwice(s: bytes, at: nat, c: bytes, d: bytes)
    requires at + |c| + |d| <= |s|
    ensures Overlay(Overlay(s, at, c), at + |c|, d) == Overlay(s, at, c + d)
  {
    var t := Overlay(s, at, c);
    assert t[..at + |c|] == s[..at] + c;
    assert t[at + |c| + |d|..] == s[at + |c| + |d|..];
    assert s[..at] + c + d == s[..at] + (c + d);
  }

  lemma OverlayFront(s: bytes, chunk: bytes)
    requires |chunk| <= |s|
    ensures Overlay(s, 0, chunk)[..|chunk|] == chunk
  {
  }

  lemma OverlayNothing(s: bytes, at: nat)
    requires at <= |s|
    ensures Overlay(s, at, []) == s
  {
  }

  /** A connected socket seen by its reader: every byte that will still arrive before
      end of stream. How many bytes one `recv` returns is arbitrary. */
  class Source {
    var pending: bytes

    constructor (content: bytes)
      ensures pending == content
    {
      pending := content;
    }

    method Read(into: array<byte>, at: nat, length: nat) returns (n: nat, ghost got: bytes)
      requires 0 < length && at + length <= into.Length
      modifies this, into
      ensures n == |got| <= length
      ensures n == 0 <==> old(pending) == []
      ensures got + pending == old(pending)
      ensures into[..] == Overlay(old(into[..]), at, got)
    {
      got := [];
      if pending == [] {
        OverlayNothing(into[..], at);
        return 0, [];
      }
      var most := Min(length, |pending|);
      n :| 1 <= n <= most;
      var chunk := pending[..n];
      got := chunk;
      forall i | 0 <= i < n {
        into[at + i] := chunk[i];
      }
      pending := pending[n..];
      assert into[..] == Overlay(old(into[..]), at, got);
    }
  }

  /** A connected socket seen by its writer: every byte handed to `send` so far. */
  class Sink {
    var sent: bytes

    constructor ()
      ensures sent == []
    {
      sent := [];
    }

    /** `send`: accepts an arbitrary non-empty prefix. */
    method Send(data: array<byte>, at: nat, length: nat) returns (n: nat)
      requires 0 < length && at + length <= data.Length
      modifies this
      ensures 1 <= n <= length
      ensures sent == old(sent) + data[at..at + n]
    {
      n :| 1 <= n <= length;
      sent := sent + data[at..at + n];
    }

    /** Keeps sending until every byte has gone out. */
    method Write(data: array<byte>, at: nat, length: nat)
      requires at + length <= data.Length
      modifies this
      ensures sent == old(sent) + data[at..at + length]
    {
      var buffer, left := at, length;
      while left > 0
        invariant at <= buffer && buffer + left == at + length
        invariant sent == old(sent) + data[at..buffer]
      {
        var result := Send(data, buffer, left);
        assert data[at..buffer] + data[buffer..buffer + result] == data[at..buffer + result];
        left, buffer := left - result, buffer + result;
      }
    }
  }

  class DataReader {
    const stream: Source
    const buffer: array<byte>
    var readIntoBuffer: nat
    var positionInBuffer: nat

    ghost predicate Valid()
      reads this
    {
      buffer.Length > 0 && positionInBuffer <= readIntoBuffer <= buffer.Length
    }

    /** Everything a caller can still read: the unread part of the buffer, then the stream. */
    ghost function Unread(): bytes
      reads this, stream, buffer
      requires Valid()
    {
      buffer[positionInBuffer..readIntoBuffer] + stream.pending
    }

    constructor (stream: Source, bufferSize: nat)
      requires bufferSize > 0
      ensures Valid() && fresh(buffer) && this.stream == stream
      ensures Unread() == stream.pending
    {
      this.stream := stream;
      buffer := new byte[bufferSize](_ => 0);
      readIntoBuffer, positionInBuffer := 0, 0;
    }

    /** Copies buffered bytes to the destination. */
    method CopyBuffered(into: array<byte>, at: nat, n: nat) returns (ghost got: bytes)
      requires Valid() && n <= readIntoBuffer - positionInBuffer
      requires at + n <= into.Length && into != buffer
      modifies this`positionInBuffer, into
      ensures Valid() && positionInBuffer == old(positionInBuffer) + n
      ensures |got| == n && got + Unread() == old(Unread())
      ensures into[..] == Overlay(old(into[..]), at, got)
    {
      got := buffer[positionInBuffer..positionInBuffer + n];
      forall i | 0 <= i < n {
        into[at + i] := buffer[positionInBuffer + i];
      }
      assert into[..] == Overlay(old(into[..]), at, got);
      assert buffer[positionInBuffer..readIntoBuffer] == got + buffer[positionInBuffer + n..readIntoBuffer];
      positionInBuffer := positionInBuffer + n;
    }

    /** Skips the buffer while at least a bufferful is wanted. */
    method ReadDirect(into: array<byte>, at: nat, n: nat) returns (left: nat, ghost got: bytes)
      requires Valid() && at + n <= into.Length && into != buffer
      modifies stream, into
      ensures |got| + left == n && (left < buffer.Length || stream.pending == [])
      ensures got + stream.pending == old(stream.pending)
      ensures into[..] == Overlay(old(into[..]), at, got)
    {
      left, got := n, [];
      var bytesRead := 1;
      OverlayNothing(into[..], at);
      while left >= buffer.Length && bytesRead > 0
        invariant left + |got| == n
        invariant bytesRead == 0 ==> stream.pending == []
        invariant got + stream.pending == old(stream.pending)
        invariant into[..] == Overlay(old(into[..]), at, got)
        decreases left, bytesRead
      {
        ghost var more;
        bytesRead, more := stream.Read(into, at + (n - left), left);
        ConcatAssociates(got, more, stream.pending);
        OverlayTwice(old(into[..]), at, got, more);
        left, got := left - bytesRead, got + more;
      }
    }

    /** Refills the exhausted buffer with one read; an empty read is end of stream. */
    method Refill() returns (ok: bool)
      requires Valid() && positionInBuffer == readIntoBuffer
      modifies this, stream, buffer
      ensures Valid() && Unread() == old(Unread())
      ensures if ok then positionInBuffer < readIntoBuffer else Unread() == []
    {
      var bytesRead, got := stream.Read(buffer, 0, buffer.Length);
      if bytesRead == 0 {
        return false;
      }
      readIntoBuffer, positionInBuffer := bytesRead, 0;
      assert buffer[0..bytesRead] == got;
      return true;
    }

    /** With the buffer exhausted: read directly, then refill if bytes are still wanted. */
    method ReadBeyondBuffer(into: array<byte>, at: nat, n: nat) returns (left: nat, ok: bool, ghost got: bytes)
      requires Valid() && positionInBuffer == readIntoBuffer
      requires at + n <= into.Length && into != buffer
      modifies this, stream, buffer, into
      ensures Valid() && |got| + left == n
      ensures got + Unread() == old(Unread())
      ensures into[..] == Overlay(old(into[..]), at, got)
      ensures !ok ==> left > 0 && Unread() == []
      ensures ok && left > 0 ==> positionInBuffer < readIntoBuffer
    {
      assert Unread() == stream.pending;
      left, got := ReadDirect(into, at, n);
      ok := true;
      assert Unread() == stream.pending;
      if left > 0 {
        ok := Refill();
      }
    }

    /** One round: take what is buffered (possibly nothing), then go beyond the buffer. */
    method ReadRound(into: array<byte>, at: nat, n: nat) returns (left: nat, ok: bool, ghost got: bytes)
      requires Valid() && at + n <= into.Length && into != buffer
      modifies this, stream, buffer, into
      ensures Valid() && |got| + left == n
      ensures got + Unread() == old(Unread())
      ensures into[..] == Overlay(old(into[..]), at, got)
      ensures !ok ==> left > 0 && Unread() == []
      ensures ok && left > 0 ==> positionInBuffer < readIntoBuffer
      ensures 0 < n && old(positionInBuffer < readIntoBuffer) ==> left < n
    {
      var bytesToCopy := Min(n, readIntoBuffer - positionInBuffer);
      got := CopyBuffered(into, at, bytesToCopy);
      left, ok := n - bytesToCopy, true;
      if left > 0 {
        ghost var further;
        left, ok, further := ReadBeyondBuffer(into, at + bytesToCopy, left);
        ConcatAssociates(got, further, Unread());
        OverlayTwice(old(into[..]), at, got, further);
        got := got + further;
      }
    }

    /** Delivers exactly the next `numBytes` bytes of the unread data, or reports end of
        stream exactly when fewer remain; how the stream was cut into chunks is invisible. */
    method ReadExact(into: array<byte>, at: nat, numBytes: nat) returns (ok: bool)
      requires Valid() && at + numBytes <= into.Length && into != buffer
      modifies this, stream, buffer, into
      ensures Valid()
      ensures ok <==> numBytes <= |old(Unread())|
      ensures ok ==> into[..] == Overlay(old(into[..]), at, old(Unread())[..numBytes])
      ensures ok ==> Unread() == old(Unread())[numBytes..]
      ensures !ok ==> Unread() == []
    {
      ghost var all, got: bytes := Unread(), [];
      var left := numBytes;
      ok := true;
      OverlayNothing(into[..], at);
      while left > 0 && ok
        invariant Valid() && 0 <= left && left + |got| == numBytes
        invariant got + Unread() == all
        invariant !ok ==> left > 0 && Unread() == []
        invariant into[..] == Overlay(old(into[..]), at, got)
        decreases left, positionInBuffer == readIntoBuffer, ok
      {
        ghost var more;
        left, ok, more := ReadRound(into, at + (numBytes - left), left);
        ConcatAssociates(got, more, Unread());
        OverlayTwice(old(into[..]), at, got, more);
        got := got + more;
      }
      assert ok ==> all[..numBytes] == got && all[numBytes..] == Unread();
    }

    /** What a read of `n` bytes leaves behind, and whether it could be done. */
    twostate predicate Took(n: nat, ok: bool)
      reads this, stream, buffer
      requires old(Valid())
    {
      && Valid()
      && (ok <==> n <= |old(Unread())|)
      && Unread() == if ok then old(Unread())[n..] else []
    }

    method ReadBytes(n: nat) returns (r: Outcome<bytes>)
      requires Valid()
      modifies this, stream, buffer
      ensures Took(n, r.Value?) && (r.Value? ==> r.value == old(Unread())[..n]) && !r.BadType?
    {
      var into := new byte[n](_ => 0);
      var ok := ReadExact(into, 0, n);
      if !ok {
        return Eof;
      }
      r := Value(into[..]);
      ghost var got := old(Unread())[..n];
      assert Overlay(old(Unread())[..n], 0, got) == got;
    }

    method ReadByte() returns (r: Outcome<byte>)
      requires Valid()
      modifies this, stream, buffer
      ensures Took(1, r.Value?) && (r.Value? ==> r.value == old(Unread())[0]) && !r.BadType?
      ensures r.Value? ==> old(Unread()) == [r.value] + Unread()
    {
      ghost var all := Unread();
      var bs :- ReadBytes(1);
      assert all == all[..1] + all[1..] && all[..1] == [all[0]];
      return Value(bs[0]);
    }

    /** Loads `n` raw bytes as a host integer and swaps it from network order. */
    method ReadUint(n: nat) returns (r: Outcome<nat>)
      requires Valid()
      modifies this, stream, buffer
      ensures Took(n, r.Value?) && (r.Value? ==> r.value == FromBigEndian(old(Unread())[..n])) && !r.BadType?
    {
      var raw :- ReadBytes(n);
      LoadThenSwap(raw);
      return Value(Hton(HostLoad(raw), n));
    }

    method ReadU16() returns (r: Outcome<u16>)
      requires Valid()
      modifies this, stream, buffer
      ensures Took(2, r.Value?) && (r.Value? ==> r.value == FromBigEndian(old(Unread())[..2])) && !r.BadType?
    {
      Pow256Values();
      var v :- ReadUint(2);
      FromBigEndianRoundTrip(old(Unread())[..2]);
      return Value(v);
    }

    method ReadU32() returns (r: Outcome<u32>)
      requires Valid()
      modifies this, stream, buffer
      ensures Took(4, r.Value?) && (r.Value? ==> r.value == FromBigEndian(old(Unread())[..4])) && !r.BadType?
    {
      Pow256Values();
      var v :- ReadUint(4);
      FromBigEndianRoundTrip(old(Unread())[..4]);
      return Value(v);
    }

    /** The 64-bit load goes through the home-made swap. */
    method ReadU64() returns (r: Outcome<u64>)
      requires Valid()
      modifies this, stream, buffer
      ensures Took(8, r.Value?) && (r.Value? ==> r.value == FromBigEndian(old(Unread())[..8])) && !r.BadType?
    {
      var raw :- ReadBytes(8);
      LoadThenSwap64(raw);
      return Value(Htonll(HostLoad(raw)));
    }
  }

  class DataWriter {
    const stream: Sink
    const buffer: array<byte>
    var bufferBytesFilled: nat

    ghost predicate Valid()
      reads this
    {
      buffer.Length > 0 && bufferBytesFilled <= buffer.Length
    }

    /** Everything written so far: bytes sent, then bytes still buffered. */
    ghost function Written(): bytes
      reads this, stream, buffer
      requires Valid()
    {
      stream.sent + buffer[..bufferBytesFilled]
    }

    constructor (stream: Sink, bufferSize: nat)
      requires bufferSize > 0
      ensures Valid() && fresh(buffer) && this.stream == stream
      ensures Written() == stream.sent
    {
      this.stream := stream;
      buffer := new byte[bufferSize](_ => 0);
      bufferBytesFilled := 0;
    }

    method Flush()
      requires Valid()
      modifies this, stream
      ensures Valid() && bufferBytesFilled == 0
      ensures Written() == old(Written()) && stream.sent == old(Written())
    {
      stream.Write(buffer, 0, bufferBytesFilled);
      assert buffer[0..bufferBytesFilled] == buffer[..bufferBytesFilled];
      bufferBytesFilled := 0;
      assert stream.sent + buffer[..0] == stream.sent;
    }

    /** Copies bytes behind those already buffered. */
    method Append(data: array<byte>, from: nat, n: nat)
      requires Valid() && from + n <= data.Length && data != buffer
      requires n <= buffer.Length - bufferBytesFilled
      modifies this, buffer
      ensures Valid() && bufferBytesFilled == old(bufferBytesFilled) + n
      ensures Written() == old(Written()) + data[from..from + n]
    {
      ghost var before, chunk := buffer[..bufferBytesFilled], data[from..from + n];
      var base := bufferBytesFilled;
      forall i | 0 <= i < n {
        buffer[base + i] := data[from + i];
      }
      bufferBytesFilled := base + n;
      assert buffer[..bufferBytesFilled] == before + chunk by {
        assert forall i :: 0 <= i < n ==> buffer[base + i] == chunk[i];
      }
      assert stream.sent + (before + chunk) == (stream.sent + before) + chunk;
    }

    /** Appends exactly the given bytes, through the buffer or, for a bufferful arriving at
        an empty buffer, straight to the stream. */
    method WriteExact(data: array<byte>, at: nat, dataLen: nat)
      requires Valid() && at + dataLen <= data.Length && data != buffer
      modifies this, stream, buffer
      ensures Valid()
      ensures Written() == old(Written()) + data[at..at + dataLen]
    {
      ghost var start := Written();
      var from, left := at, dataLen;
      while left > 0
        invariant Valid() && at <= from && from + left == at + dataLen
        invariant Written() == start + data[at..from]
        decreases left, bufferBytesFilled
      {
        var lenToWrite := Min(left, buffer.Length - bufferBytesFilled);
        assert data[at..from] + data[from..from + lenToWrite] == data[at..from + lenToWrite];
        if lenToWrite == buffer.Length {
          assert stream.sent == Written();
          stream.Write(data, from, left);
          assert data[at..from] + data[from..from + left] == data[at..at + dataLen];
          assert stream.sent == start + data[at..at + dataLen];
          assert Written() == stream.sent;
          return;
        }
        Append(data, from, lenToWrite);
        assert Written() == start + (data[at..from] + data[from..from + lenToWrite]);
        from, left := from + lenToWrite, left - lenToWrite;
        if left > 0 {
          Flush();
        }
      }
    }

    method WriteBytes(data: bytes)
      requires Valid()
      modifies this, stream, buffer
      ensures Valid() && Written() == old(Written()) + data
    {
      var tmp := new byte[|data|](i requires 0 <= i < |data| => data[i]);
      assert tmp[0..|data|] == data;
      WriteExact(tmp, 0, |data|);
    }

    method WriteByte(data: byte)
      requires Valid()
      modifies this, stream, buffer
      ensures Valid() && Written() == old(Written()) + [data]
    {
      WriteBytes([data]);
    }

    method WriteU16(data: u16)
      requires Valid()
      modifies this, stream, buffer
      ensures Valid() && Written() == old(Written()) + BigEndian(data, 2)
    {
      WriteBytes(HostStore(Hton(data, 2), 2));
    }

    method WriteU32(data: u32)
      requires Valid()
      modifies this, stream, buffer
      ensures Valid() && Written() == old(Written()) + BigEndian(data, 4)
    {
      WriteBytes(HostStore(Hton(data, 4), 4));
    }

    method WriteU64(data: u64)
      requires Valid()
      modifies this, stream, buffer
      ensures Valid() && Written() == old(Written()) + BigEndian(data, 8)
    {
      HtonllIsNetworkOrder(data);
      WriteBytes(HostStore(Htonll(data), 8));
    }
  }
}
