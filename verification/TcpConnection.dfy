/** A connection: framing over two ring buffers and a non-blocking socket. */
module TcpConnections {
  import opened Bits
  import opened Decimal
  import opened Framing
  import opened Buffers
  import Growth
  import Links

  /** A call of `read` or `write`: how many bytes it was asked to transfer, and what it returned. */
  datatype Transfer = Transfer(asked: nat, ret: int)

  /** The bytes that calls have transferred. */
  ghost function Total(calls: seq<Transfer>): nat
  {
    if calls == [] then 0
    else
      var last := calls[|calls| - 1];
      Total(calls[..|calls| - 1]) + if last.ret > 0 then last.ret else 0
  }

  /** A loop over `size` bytes so far: each call asks for all that is left, and comes after one that transferred
      something. */
  ghost predicate Proceeds(calls: seq<Transfer>, size: nat)
  {
    && Total(calls) <= size
    && (forall i :: 0 <= i < |calls| ==> calls[i].asked == size - Total(calls[..i]))
    && (forall i :: 0 <= i < |calls| - 1 ==> calls[i].ret > 0)
  }

  /** The whole loop: it goes on until a call transfers nothing. */
  ghost predicate Exhausts(calls: seq<Transfer>, size: nat)
  {
    calls != [] && Proceeds(calls, size) && calls[|calls| - 1].ret <= 0
  }

  lemma TotalOfOneMore(calls: seq<Transfer>, call: Transfer)
    ensures Total(calls + [call]) == Total(calls) + if call.ret > 0 then call.ret else 0
    ensures forall i :: 0 <= i <= |calls| ==> (calls + [call])[..i] == calls[..i]
  {
    assert (calls + [call])[..|calls|] == calls;
  }

  lemma ProceedsFirst(call: Transfer, size: nat)
    requires call.asked == size && call.ret <= size
    ensures Proceeds([call], size) && Total([call]) == if call.ret > 0 then call.ret else 0
  {
    TotalOfOneMore([], call);
    assert [] + [call] == [call];
  }

  lemma ProceedsNext(calls: seq<Transfer>, call: Transfer, size: nat)
    requires calls != [] && Proceeds(calls, size) && calls[|calls| - 1].ret > 0
    requires call.asked == size - Total(calls) && call.ret <= call.asked
    ensures Proceeds(calls + [call], size)
    ensures Total(calls + [call]) == Total(calls) + if call.ret > 0 then call.ret else 0
  {
    hide Total;
    TotalOfOneMore(calls, call);
    assert (calls + [call])[..|calls|] == calls;
  }

  lemma Onward(before: seq<Transfer>, calls: seq<Transfer>, call: Transfer)
    ensures (before + calls) + [call] == before + (calls + [call])
  {
  }

  lemma OnwardBytes(bytes: Bytes, got: nat, more: nat)
    requires got + more <= |bytes|
    ensures bytes[got..][more..] == bytes[got + more..] && bytes[got..][..more] == bytes[got..got + more]
    ensures bytes[..got] + bytes[got..][..more] == bytes[..got + more]
  {
  }

  lemma OnwardOut(out: Bytes, data: Bytes, put: nat, more: nat)
    requires put + more <= |data|
    ensures (out + data[..put]) + data[put..put + more] == out + data[..put + more]
  {
  }

  /** Nothing was transferred exactly if the first call failed. */
  lemma NothingTransferredIff(calls: seq<Transfer>, size: nat)
    requires Exhausts(calls, size)
    ensures Total(calls) == 0 <==> calls[0].ret <= 0
  {
    TotalIsPositive(calls, size, |calls|);
    assert calls[..|calls|] == calls;
  }

  lemma {:induction false} TotalIsPositive(calls: seq<Transfer>, size: nat, n: nat)
    requires Exhausts(calls, size) && n <= |calls|
    ensures Total(calls[..n]) == 0 <==> n == 0 || calls[0].ret <= 0
  {
    if n > 0 {
      TotalIsPositive(calls, size, n - 1);
      assert calls[..n][..n - 1] == calls[..n - 1];
    }
  }

  /** A non-blocking socket: the bytes that the peer has sent and the bytes handed over to the peer.
      Every call may transfer fewer bytes than asked for, or fail. */
  class Socket {
    var incoming: Bytes
    var outgoing: Bytes
    /** The calls so far. */
    ghost var recvCalls: seq<Transfer>
    ghost var sendCalls: seq<Transfer>

    constructor (incoming: Bytes)
      ensures this.incoming == incoming && outgoing == [] && recvCalls == sendCalls == []
    {
      this.incoming, outgoing, recvCalls, sendCalls := incoming, [], [], [];
    }

    /** `read(fd, dst + offset, n)`: a positive count, 0 at the end of the stream, or -1. */
    method Recv(dst: array<byte>, offset: nat, n: nat) returns (ret: int)
      requires offset + n <= dst.Length
      modifies this`incoming, this`recvCalls, dst
      ensures -1 <= ret <= n && ret <= |old(incoming)| && recvCalls == old(recvCalls) + [Transfer(n, ret)]
      ensures ret <= 0 ==> incoming == old(incoming) && dst[..] == old(dst[..])
      ensures ret > 0 ==>
          incoming == old(incoming)[ret..]
            && dst[..offset + ret] == old(dst[..offset]) + old(incoming)[..ret]
    {
      var k: int :| -1 <= k <= n && k <= |incoming|;
      ret := k;
      recvCalls := recvCalls + [Transfer(n, ret)];
      if ret > 0 {
        for i := 0 to ret
          invariant incoming == old(incoming) && recvCalls == old(recvCalls) + [Transfer(n, ret)]
          invariant dst[..offset + i] == old(dst[..offset]) + incoming[..i]
        {
          dst[offset + i] := incoming[i];
        }
        incoming := incoming[ret..];
      }
    }

    /** `write(fd, src + offset, n)`. */
    method Send(src: array<byte>, offset: nat, n: nat) returns (ret: int)
      requires offset + n <= src.Length
      modifies this`outgoing, this`sendCalls
      ensures -1 <= ret <= n && sendCalls == old(sendCalls) + [Transfer(n, ret)]
      ensures outgoing == old(outgoing) + if ret > 0 then src[offset..offset + ret] else []
    {
      ret :| -1 <= ret <= n;
      sendCalls := sendCalls + [Transfer(n, ret)];
      if ret > 0 {
        outgoing := outgoing + src[offset..offset + ret];
      }
    }
  }

  /** What became of a readable event; `Exit` stands for the termination of the process. */
  datatype Outcome = Exit | Disconnected | Readable

  class TcpConnection {
    const readBuffer: Buffer
    const writeBuffer: Buffer
    var lastActiveTime: int
    var close: bool

    ghost predicate Valid()
      reads this, readBuffer, writeBuffer, readBuffer.data, writeBuffer.data
    {
      && readBuffer != writeBuffer && readBuffer.data != writeBuffer.data
      && readBuffer.Valid() && writeBuffer.Valid() && readBuffer.GrowthWorks() && writeBuffer.GrowthWorks()
      && Growth.NextSize(readBuffer.maxSize, readBuffer.growFactor) <= INT_MAX
    }

    /** The connection holds the buffers of one end of each of two links. */
    ghost function Incoming(): Bytes
      requires Valid()
      reads this, readBuffer, writeBuffer, readBuffer.data, writeBuffer.data
    {
      readBuffer.Contents()
    }

    ghost function Outgoing(): Bytes
      requires Valid()
      reads this, readBuffer, writeBuffer, readBuffer.data, writeBuffer.data
    {
      writeBuffer.Contents()
    }

    /** The buffers have the default growth factor, so that one that is to grow needs two bytes to begin with. Growth
        stays within `int` for sizes up to 2^30 at least. */
    constructor (readInit: nat, readMax: nat, writeInit: nat, writeMax: nat, now: int)
      requires readInit <= readMax <= INT_MAX && (readInit < readMax ==> readInit >= 2)
      requires writeInit <= writeMax <= INT_MAX && (writeInit < writeMax ==> writeInit >= 2)
      requires readMax <= 0x4000_0000 || Growth.NextSize(readMax, 1.5) <= INT_MAX
      ensures Valid() && Incoming() == [] && Outgoing() == [] && !close && lastActiveTime == now
      ensures readBuffer.maxSize == readMax && writeBuffer.maxSize == writeMax
    {
      hide Growth.Grows, Growth.NextSize, Growth.IsSingle, Ring;
      Growth.DefaultFactorNeedsTwo(readInit);
      Growth.DefaultFactorNeedsTwo(writeInit);
      if readMax <= 0x4000_0000 {
        Growth.DefaultFactorIsSafe(readMax);
      }
      readBuffer := new Buffer(readInit, readMax, 1.5);
      writeBuffer := new Buffer(writeInit, writeMax, 1.5);
      lastActiveTime, close := now, false;
    }

    /** What the caller of a send has to see to: that growing the write buffer stays within `int`. */
    ghost predicate SendIsSized(size: int, str: Bytes)
      requires Valid()
      reads this, readBuffer, writeBuffer, readBuffer.data, writeBuffer.data
    {
      var n := |Formatted(size, str)|;
      writeBuffer.NeedGrow(n) && writeBuffer.CanGrow() ==> writeBuffer.IntSized(n)
    }

    /** `sendMessage` of a string: the `Send` move of a link. A frame that does not fit is cut off. */
    method SendMessage(str: Bytes)
      requires Valid() && SendIsSized(|str|, str)
      modifies writeBuffer, writeBuffer.data
      ensures Valid() && Incoming() == old(Incoming())
      ensures forall l: Links.Link | l.wbuf == old(Outgoing()) && l.wmax == writeBuffer.maxSize ::
                Links.Do(l, Links.Send(str)) == l.(sent := l.sent + [str], wbuf := Outgoing())
    {
      hide Formatted, Growth.NextSize, Growth.IsSingle, Growth.Grows, Ring;
      Links.FrameLength(str);
      var buf := Formatted(|str|, str);
      var k := writeBuffer.Write(buf, |buf|);
    }

    /** `sendMessage` of a C string: that of the characters before its NUL byte. */
    method SendCString(str: Bytes)
      requires Valid() && SendIsSized(|UpToNul(str)|, str)
      modifies writeBuffer, writeBuffer.data
      ensures Valid() && Incoming() == old(Incoming())
      ensures forall l: Links.Link | l.wbuf == old(Outgoing()) && l.wmax == writeBuffer.maxSize ::
                Links.Do(l, Links.Send(UpToNul(str))) == l.(sent := l.sent + [UpToNul(str)], wbuf := Outgoing())
    {
      assert Formatted(|UpToNul(str)|, UpToNul(str)) == Formatted(|UpToNul(str)|, str);
      SendMessage(UpToNul(str));
    }

    /** `sendMessage` of a C string with a size of the caller's choice: the `SendSized` move of a link. */
    method SendSized(str: Bytes, size: int)
      requires Valid() && SendIsSized(size, str)
      modifies writeBuffer, writeBuffer.data
      ensures Valid() && Incoming() == old(Incoming())
      ensures forall l: Links.Link | l.wbuf == old(Outgoing()) && l.wmax == writeBuffer.maxSize ::
                Links.Do(l, Links.SendSized(str, size)) ==
                l.(sent := l.sent + [Links.Meant(str, size)], wbuf := Outgoing())
    {
      hide Formatted, Growth.NextSize, Growth.IsSingle, Growth.Grows, Ring;
      var buf := Formatted(size, str);
      var k := writeBuffer.Write(buf, |buf|);
    }

    /** Looks at the header of the next frame; when the whole frame is there, drops the header and
        returns the length of the payload, which is then at the front of the read buffer. `overflow` when the header
        leaves the range of `int`. */
    method TakeHeader() returns (consumed: bool, size: nat, overflow: bool)
      requires Valid()
      modifies readBuffer`begin, readBuffer`count
      ensures Valid() && Outgoing() == old(Outgoing())
      ensures overflow <==> !HeaderInRange(old(Incoming()))
      ensures consumed <==> !overflow && Decode(old(Incoming())).Message?
      ensures !consumed ==> Incoming() == old(Incoming())
      ensures consumed ==>
          size <= |Incoming()|
            && Decode(old(Incoming())) == Message(Incoming()[..size], Incoming()[size..])
    {
      hide Growth.Grows, Growth.NextSize, Growth.IsSingle, Ring;
      consumed := false;
      var ok, temp, tempLen;
      ok, temp, tempLen, overflow := readBuffer.PeekIntWithLength(SPACE);
      size := temp;
      if ok && !overflow {
        if tempLen + 1 + temp > INT_MAX {
          overflow := true;
        } else if readBuffer.GetSize() >= tempLen + 1 + temp {
          readBuffer.SkipHead(tempLen + 1);
          consumed := true;
        }
      }
    }

    /** Takes one message off the read buffer if a whole frame is there; `consumed` tells an empty
        message from an incomplete one. This is the `Receive` move of a link. */
    method ReceiveMessage(dst: array<byte>) returns (ret: nat, consumed: bool, overflow: bool)
      requires Valid() && dst != readBuffer.data && dst != writeBuffer.data
      requires Decode(Incoming()).Message? ==> |Decode(Incoming()).payload| <= dst.Length
      modifies readBuffer`begin, readBuffer`count, dst
      ensures Valid() && Outgoing() == old(Outgoing()) && ret <= dst.Length
      ensures overflow <==> !HeaderInRange(old(Incoming()))
      ensures consumed <==> !overflow && Decode(old(Incoming())).Message?
      ensures !consumed ==> ret == 0 && Incoming() == old(Incoming())
      ensures consumed ==> Decode(old(Incoming())) == Message(dst[..ret], Incoming())
      ensures !overflow ==> forall l: Links.Link | l.rbuf == old(Incoming()) ::
                Links.Do(l, Links.Receive) ==
                if consumed then l.(rbuf := Incoming(), got := l.got + [dst[..ret]]) else l
    {
      hide Growth.Grows, Growth.NextSize, Growth.IsSingle, Ring, Decode, HeaderInRange;
      ret := 0;
      var size;
      consumed, size, overflow := TakeHeader();
      if consumed {
        ret := readBuffer.Read(dst, size);
      }
    }

    /** Takes one message as a string: the payload up to its first NUL byte; empty when none is complete. This is the
        `Receive` move of a link, of which the caller sees the payload up to that byte. */
    method ReceiveMessageAsString() returns (res: Bytes, consumed: bool, overflow: bool)
      requires Valid()
      modifies readBuffer`begin, readBuffer`count
      ensures Valid() && Outgoing() == old(Outgoing())
      ensures overflow <==> !HeaderInRange(old(Incoming()))
      ensures consumed <==> !overflow && Decode(old(Incoming())).Message?
      ensures !consumed ==> res == [] && Incoming() == old(Incoming())
      ensures consumed ==> res == UpToNul(Decode(old(Incoming())).payload) && Incoming() == Decode(old(Incoming())).rest
      ensures !overflow ==> forall l: Links.Link | l.rbuf == old(Incoming()) ::
                Links.Do(l, Links.Receive) ==
                if consumed then l.(rbuf := Incoming(), got := l.got + [Decode(old(Incoming())).payload]) else l
    {
      hide Growth.Grows, Growth.NextSize, Growth.IsSingle, Ring, Decode, HeaderInRange;
      res := [];
      var size;
      consumed, size, overflow := TakeHeader();
      if consumed {
        var buffer := new byte[size](_ => NUL);
        var k := readBuffer.Read(buffer, size);
        assert buffer[..] == buffer[..k];
        res := UpToNul(buffer[..]);
      }
    }

    /** Reads what the socket has, as far as there is space for it: the `calls` go on until one of them gets nothing.
        Whatever the socket does, no byte is dropped or repeated. This is the `Deliver(n)` move of a link. */
    method OnReadableEvent(socket: Socket, now: int)
      returns (outcome: Outcome, ghost n: nat, ghost calls: seq<Transfer>)
      requires Valid()
      modifies this`lastActiveTime, this`close, readBuffer, readBuffer.data, socket`incoming, socket`recvCalls
      ensures lastActiveTime == now && socket.recvCalls == old(socket.recvCalls) + calls && n == Total(calls)
      ensures if outcome == Exit then calls == [] else Exhausts(calls, readBuffer.maxSize - |old(Incoming())|)
      ensures outcome == Disconnected <==> calls != [] && calls[0].ret <= 0
      ensures Valid() && Outgoing() == old(Outgoing())
      ensures n <= |old(socket.incoming)| && Incoming() == old(Incoming()) + old(socket.incoming)[..n]
      ensures socket.incoming == old(socket.incoming)[n..]
      ensures outcome == Exit <==> |old(Incoming())| == readBuffer.maxSize
      ensures outcome == Readable <==> n > 0
      ensures close == (old(close) || outcome == Disconnected)
      ensures forall l: Links.Link | l.rbuf == old(Incoming()) && l.flight == old(socket.incoming)
        && l.rmax == readBuffer.maxSize ::
                && Links.Do(l, Links.Deliver(n)) == l.(rbuf := Incoming(), flight := socket.incoming)
                && (outcome == Exit <==> Links.ExitsOnRead(l))
    {
      hide Growth.Grows, Growth.NextSize, Growth.IsSingle, Ring, Links.Do;
      lastActiveTime := now;
      n, calls := 0, [];
      var space := readBuffer.GetMaxSpace();
      if space <= 0 {
        Links.DeliverTakes(Incoming(), socket.incoming, readBuffer.maxSize, 0);
        assert Incoming() + socket.incoming[..0] == Incoming();
        return Exit, 0, [];
      }
      var buffer := new byte[space](_ => 0);
      var totalRead;
      totalRead, calls := ReceiveAll(socket, buffer);
      NothingTransferredIff(calls, space);
      n := totalRead;
      if totalRead <= 0 {
        outcome := Disconnected;
        close := true;
      } else {
        StoreReceived(buffer, totalRead);
        outcome := Readable;
      }
      Links.DeliverTakes(old(Incoming()), old(socket.incoming), readBuffer.maxSize, n);
    }

    /** The bytes read go into the read buffer, which has space for all of them. */
    method StoreReceived(buffer: array<byte>, n: nat)
      requires Valid() && n <= buffer.Length && |Incoming()| + n <= readBuffer.maxSize
      requires buffer != readBuffer.data && buffer != writeBuffer.data
      modifies readBuffer, readBuffer.data
      ensures Valid() && Outgoing() == old(Outgoing()) && Incoming() == old(Incoming()) + buffer[..n]
    {
      hide Growth.Grows, Growth.NextSize, Growth.IsSingle, Ring;
      Growth.NextSizeMonotone(readBuffer.count + n, readBuffer.maxSize, readBuffer.growFactor);
      ghost var src := buffer[..n];
      var k := readBuffer.Write(buffer[..n], n);
      assert src[..n] == src;
    }

    /** Reads until the socket has no more or the buffer is full. */
    method ReceiveAll(socket: Socket, buffer: array<byte>) returns (totalRead: nat, ghost calls: seq<Transfer>)
      modifies socket`incoming, socket`recvCalls, buffer
      ensures socket.recvCalls == old(socket.recvCalls) + calls && Exhausts(calls, buffer.Length)
        && totalRead == Total(calls)
      ensures totalRead <= buffer.Length && totalRead <= |old(socket.incoming)|
      ensures buffer[..totalRead] == old(socket.incoming)[..totalRead]
        && socket.incoming == old(socket.incoming)[totalRead..]
    {
      hide Total, Proceeds;
      totalRead := 0;
      var space := buffer.Length;
      ghost var bytes, before := socket.incoming, socket.recvCalls;
      var ret := socket.Recv(buffer, totalRead, space);
      calls := [Transfer(space, ret)];
      ProceedsFirst(calls[0], buffer.Length);
      ghost var got := if ret > 0 then ret else 0;
      while ret > 0
        invariant got == totalRead + (if ret > 0 then ret else 0) && totalRead + space == buffer.Length
        invariant ret <= space && 0 <= space
        invariant socket.recvCalls == before + calls && Proceeds(calls, buffer.Length) && Total(calls) == got
        invariant calls != [] && calls[|calls| - 1].ret == ret
        invariant got <= |bytes| && socket.incoming == bytes[got..] && buffer[..got] == bytes[..got]
        decreases space + if ret > 0 then 1 else 0
      {
        totalRead := totalRead + ret;
        space := space - ret;
        ret := socket.Recv(buffer, totalRead, space);
        ProceedsNext(calls, Transfer(space, ret), buffer.Length);
        Onward(before, calls, Transfer(space, ret));
        calls := calls + [Transfer(space, ret)];
        OnwardBytes(bytes, got, if ret > 0 then ret else 0);
        got := got + if ret > 0 then ret else 0;
      }
    }

    /** Writes what the socket takes, if there is anything to write: the `calls` go on until one of them writes nothing.
        This is the `Flush(n)` move of a link. */
    method OnWritableEvent(socket: Socket, now: int) returns (ghost n: nat, ghost calls: seq<Transfer>)
      requires Valid()
      modifies this`lastActiveTime, writeBuffer`begin, writeBuffer`count, socket`outgoing, socket`sendCalls
      ensures lastActiveTime == now && socket.sendCalls == old(socket.sendCalls) + calls && n == Total(calls)
      ensures if old(Outgoing()) == [] then calls == [] else Exhausts(calls, |old(Outgoing())|)
      ensures Valid() && Incoming() == old(Incoming())
      ensures n <= |old(Outgoing())| && Outgoing() == old(Outgoing())[n..]
      ensures socket.outgoing == old(socket.outgoing) + old(Outgoing())[..n]
      ensures forall l: Links.Link | l.wbuf == old(Outgoing()) ::
                Links.Do(l, Links.Flush(n)) == l.(wbuf := Outgoing(), flight := l.flight + old(Outgoing())[..n])
    {
      hide Growth.Grows, Growth.NextSize, Growth.IsSingle, Ring;
      lastActiveTime := now;
      n, calls := 0, [];
      var size := writeBuffer.GetSize();
      if size <= 0 {
        return;
      }
      var buffer := new byte[size](_ => 0);
      var k := writeBuffer.Copy(buffer, size);
      var totalWrite;
      totalWrite, calls := SendAll(socket, buffer);
      n := totalWrite;
      if totalWrite > 0 {
        writeBuffer.SkipHead(totalWrite);
      }
    }

    /** Writes until the socket takes no more. */
    method SendAll(socket: Socket, buffer: array<byte>) returns (totalWrite: nat, ghost calls: seq<Transfer>)
      modifies socket`outgoing, socket`sendCalls
      ensures socket.sendCalls == old(socket.sendCalls) + calls && Exhausts(calls, buffer.Length)
        && totalWrite == Total(calls)
      ensures totalWrite <= buffer.Length && socket.outgoing == old(socket.outgoing) + buffer[..totalWrite]
    {
      hide Total, Proceeds;
      totalWrite := 0;
      var size := buffer.Length;
      ghost var out, before := socket.outgoing, socket.sendCalls;
      var ret := socket.Send(buffer, totalWrite, size);
      calls := [Transfer(size, ret)];
      ProceedsFirst(calls[0], buffer.Length);
      ghost var put := if ret > 0 then ret else 0;
      while ret > 0
        invariant put == totalWrite + (if ret > 0 then ret else 0) && totalWrite + size == buffer.Length
        invariant ret <= size && 0 <= size
        invariant socket.sendCalls == before + calls && Proceeds(calls, buffer.Length) && Total(calls) == put
        invariant calls != [] && calls[|calls| - 1].ret == ret
        invariant socket.outgoing == out + buffer[..put]
        decreases size + if ret > 0 then 1 else 0
      {
        totalWrite := totalWrite + ret;
        size := size - ret;
        ret := socket.Send(buffer, totalWrite, size);
        ProceedsNext(calls, Transfer(size, ret), buffer.Length);
        Onward(before, calls, Transfer(size, ret));
        calls := calls + [Transfer(size, ret)];
        OnwardOut(out, buffer[..], put, if ret > 0 then ret else 0);
        put := put + if ret > 0 then ret else 0;
      }
    }
  }
}
