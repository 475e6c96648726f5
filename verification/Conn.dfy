/** UI/conn.c: the partial-transfer loops over a non-blocking socket. */
module Conn {
  import opened Bytes
  import opened Environment
  import opened Buffers

  /** A `select` that is repeated for as long as it is interrupted, with the same sets. */
  method SelectRetrying(sock: Socket, watchExceptional: bool, timed: bool) returns (ret: int, normal: bool, exceptional: bool)
    requires sock.Valid()
    modifies sock`selectAt
    ensures sock.Valid()
    ensures old(sock.selectAt) <= sock.selectAt && (old(sock.selectAt) < |sock.selectScript| ==> old(sock.selectAt) < sock.selectAt)
    ensures ret in {0, -1} || 1 <= ret == (if normal then 1 else 0) + (if exceptional then 1 else 0)
    ensures exceptional && 1 <= ret ==> watchExceptional
    ensures ret == 0 ==> timed && sock.TimedOut()
    ensures ret == -1 || (1 <= ret && exceptional) ==> sock.SelectFailed()
    ensures sock.SelectsPass(old(sock.selectAt), sock.selectAt - 1, timed)
    ensures 1 <= ret ==> sock.SelectsPass(old(sock.selectAt), sock.selectAt, timed)
    ensures watchExceptional && old(sock.ExceptionalNext()) ==> 1 <= ret && exceptional
    ensures sock.QuietIn() ==> ret == 1 && !exceptional
  {
    exceptional := watchExceptional;
    while true
      invariant sock.Valid() && old(sock.selectAt) <= sock.selectAt && exceptional == watchExceptional
      invariant sock.SelectsPass(old(sock.selectAt), sock.selectAt, timed)
      invariant old(sock.ExceptionalNext()) && watchExceptional ==> sock.selectAt == old(sock.selectAt)
      decreases |sock.selectScript| - sock.selectAt
    {
      var errno;
      ret, normal, exceptional, errno := sock.Select(watchExceptional, timed);
      if !(ret == -1 && errno == EINTR) {
        return;
      }
      exceptional := watchExceptional;
    }
  }

  /** The `read_intr` label: a `read` that is repeated for as long as it is interrupted. */
  method ReadRetrying(sock: Socket, buf: array<byte>, off: nat, len: nat) returns (t: int, errno: Errno)
    requires sock.Valid() && 0 < len && off + len <= buf.Length
    modifies sock`got, sock`readAt, sock`trace, buf
    ensures sock.Valid() && old(sock.readAt) <= sock.readAt && old(sock.trace) <= sock.trace
    ensures -1 <= t <= len
    ensures t <= 0 ==> sock.got == old(sock.got) && buf[..] == old(buf[..])
    ensures 0 < t ==> sock.got == old(sock.got) + t
    ensures 0 < t ==> buf[..] == Overwrite(old(buf[..]), off, sock.stream[old(sock.got)..sock.got])
    ensures t == -1 ==> old(sock.readAt) < sock.readAt && errno in {EAGAIN, EOTHER}
    ensures t == 0 ==> sock.Closed()
    // Only interruptions are passed over, and the answer is that of the last event.
    ensures forall i | old(sock.readAt) <= i < sock.readAt - 1 :: sock.readScript[i] == ReadInterrupted
    ensures t == -1 ==> if errno == EAGAIN then sock.Blocked() else sock.readScript[sock.readAt - 1] == ReadFailed
    ensures t != 0 ==> sock.NoEof(old(sock.readAt), sock.readAt)
    ensures t != -1 || errno == EOTHER ==> sock.NoBlock(old(sock.readAt), sock.readAt)
  {
    while true
      invariant sock.Valid() && old(sock.readAt) <= sock.readAt && old(sock.trace) <= sock.trace
      invariant sock.got == old(sock.got) && buf[..] == old(buf[..])
      invariant forall i | old(sock.readAt) <= i < sock.readAt :: sock.readScript[i] == ReadInterrupted
      decreases |sock.readScript| - sock.readAt
    {
      t, errno := sock.Read(buf, off, len);
      if !(t == -1 && errno == EINTR) {
        return;
      }
    }
  }

  /** The `for` loop of `conn_read` over what `select` reported: -1 and -3 end the transfer, 0 does not. */
  method ReadReady(sock: Socket, buf: array<byte>, off: nat, left: nat, ret: int, normal: bool, exceptional: bool)
    returns (verdict: int, moved: nat)
    requires sock.Valid() && 0 < left && off + left <= buf.Length
    requires 1 <= ret == (if normal then 1 else 0) + (if exceptional then 1 else 0)
    modifies sock`got, sock`readAt, sock`trace, buf
    ensures sock.Valid() && old(sock.readAt) <= sock.readAt && verdict in {0, -1, -3}
    ensures sock.got == old(sock.got) + moved && moved <= left
    ensures buf[..] == Overwrite(old(buf[..]), off, sock.stream[old(sock.got)..sock.got])
    ensures if verdict == 0 then old(sock.readAt) < sock.readAt || 0 < moved else moved == 0
    ensures verdict == -1 <==> exceptional
    ensures verdict == -3 ==> sock.Closed()
    ensures sock.NoEof(old(sock.readAt), sock.readAt - 1)
    ensures verdict != -3 ==> sock.NoEof(old(sock.readAt), sock.readAt)
  {
    hide Overwrite;
    moved := 0;
    var i := 0;
    while i < ret
      invariant sock.Valid() && 0 <= i <= ret && (0 < i ==> !exceptional)
      invariant i == 0 ==> moved == 0 && sock.readAt == old(sock.readAt)
      invariant 0 < i ==> old(sock.readAt) < sock.readAt || 0 < moved
      invariant old(sock.readAt) <= sock.readAt && sock.got == old(sock.got) + moved && moved <= left
      invariant sock.NoEof(old(sock.readAt), sock.readAt)
      invariant buf[..] == Overwrite(old(buf[..]), off, sock.stream[old(sock.got)..sock.got])
    {
      if exceptional {
        return -1, 0;
      } else if normal {
        var t, errno := ReadRetrying(sock, buf, off, left);
        if t == -1 {
          // would block, or another error: back to `select`
        } else if t == 0 {
          return -3, 0;
        } else {
          moved := t;
        }
      }
      i := i + 1;
    }
    return 0, moved;
  }

  /** One turn of the loop of `conn_read`: waits and reads once; 0 goes on, everything else is its answer. */
  method ReadTurn(sock: Socket, buf: array<byte>, off: nat, left: nat, watchExceptional: bool, timed: bool)
    returns (verdict: int, moved: nat, exceptional: bool)
    requires sock.Valid() && 0 < left && off + left <= buf.Length
    modifies sock`got, sock`selectAt, sock`readAt, sock`trace, buf
    ensures sock.Valid() && verdict in {0, -1, -2, -3} && (verdict == 0 ==> !exceptional)
    ensures old(sock.selectAt) <= sock.selectAt && old(sock.readAt) <= sock.readAt
    ensures sock.got == old(sock.got) + moved && moved <= left && (verdict != 0 ==> moved == 0)
    ensures buf[..] == Overwrite(old(buf[..]), off, sock.stream[old(sock.got)..sock.got])
    ensures verdict == 0 ==> old(sock.readAt) < sock.readAt || 0 < moved
    ensures verdict == -1 ==> sock.SelectFailed()
    ensures verdict == -2 ==> timed && sock.TimedOut()
    ensures verdict == -3 ==> sock.Closed()
    ensures watchExceptional && old(sock.ExceptionalNext()) ==> verdict == -1
    ensures sock.SelectsPass(old(sock.selectAt), sock.selectAt - 1, timed)
    ensures verdict in {0, -3} ==> sock.SelectsPass(old(sock.selectAt), sock.selectAt, timed)
    ensures sock.NoEof(old(sock.readAt), sock.readAt - 1)
    ensures verdict != -3 ==> sock.NoEof(old(sock.readAt), sock.readAt)
    ensures sock.QuietIn() ==> verdict == 0 || (verdict == -3 && sock.Unread() == [])
  {
    hide Overwrite;
    moved := 0;
    var ret, normal;
    ret, normal, exceptional := SelectRetrying(sock, watchExceptional, timed);
    NothingStored(buf[..], off, sock.stream, sock.got);
    if ret == 0 {
      return -2, 0, exceptional;
    } else if ret == -1 {
      return -1, 0, exceptional;
    }
    verdict, moved := ReadReady(sock, buf, off, left, ret, normal, exceptional);
  }

  lemma NothingStored(base: seq<byte>, off: nat, stream: seq<byte>, at: nat)
    requires off <= |base| && at <= |stream|
    ensures stream[at..at] == [] && Overwrite(base, off, []) == base
  {
  }

  /** Reads exactly `len` octets to `buf[off..]`, or says why it could not. */
  method ConnRead(sock: Socket, buf: array<byte>, off: nat, len: uint32) returns (result: int)
    requires sock.Valid() && off + len <= buf.Length
    modifies sock`got, sock`selectAt, sock`readAt, sock`trace, buf
    ensures sock.Valid() && result in {0, -1, -2, -3}
    // A prefix of the stream was stored in order, and nothing else was touched.
    ensures old(sock.got) <= sock.got <= old(sock.got) + len
    ensures buf[..] == Overwrite(old(buf[..]), off, sock.stream[old(sock.got)..sock.got])
    ensures result == 0 <==> sock.got == old(sock.got) + len
    ensures result == -2 ==> len != 1
    ensures result == -3 ==> sock.Closed()
    ensures sock.QuietIn() ==> result in {0, -3} && (result == 0 <==> len <= |old(sock.Unread())|)
    // Each way to end has its event, which is the last one, and no other event ends a transfer.
    ensures sock.SelectsPass(old(sock.selectAt), sock.selectAt - 1, len != 1)
    ensures result in {0, -3} ==> sock.SelectsPass(old(sock.selectAt), sock.selectAt, len != 1)
    ensures result == -2 ==> sock.TimedOut()
    ensures result == -1 ==> sock.SelectFailed()
    ensures 0 < len && old(sock.ExceptionalNext()) ==> result == -1 && sock.got == old(sock.got)
    ensures sock.NoEof(old(sock.readAt), sock.readAt - 1)
    ensures result != -3 ==> sock.NoEof(old(sock.readAt), sock.readAt)
  {
    hide Overwrite;
    var r, left := 0, len;
    var timed := len != 1;
    var exceptional := true;
    while 0 < left
      invariant sock.Valid() && 0 <= left && r + left == len
      invariant sock.got == old(sock.got) + r
      invariant buf[..] == Overwrite(old(buf[..]), off, sock.stream[old(sock.got)..sock.got])
      invariant old(sock.selectAt) <= sock.selectAt && old(sock.readAt) <= sock.readAt
      invariant sock.SelectsPass(old(sock.selectAt), sock.selectAt, timed)
      invariant sock.NoEof(old(sock.readAt), sock.readAt)
      invariant old(sock.ExceptionalNext()) ==> sock.selectAt == old(sock.selectAt) && exceptional && r == 0
      decreases |sock.selectScript| - sock.selectAt + |sock.readScript| - sock.readAt + left
    {
      ghost var mark := sock.got;
      var verdict, t;
      verdict, t, exceptional := ReadTurn(sock, buf, off + r, left, exceptional, timed);
      if verdict != 0 {
        return verdict;
      }
      OverwriteTwice(old(buf[..]), off, sock.stream[old(sock.got)..mark], sock.stream[mark..sock.got]);
      assert sock.stream[old(sock.got)..sock.got] == sock.stream[old(sock.got)..mark] + sock.stream[mark..sock.got];
      r, left := r + t, left - t;
    }
    return 0;
  }

  /** The `read_to_end` label: makes room for 1024 octets, reads at most that many, and counts them in. */
  method ReadMore(sock: Socket, buf: Buffer) returns (t: int, errno: Errno)
    requires sock.Valid() && buf.Valid()
    requires buf.len + |sock.Unread()| + 1024 < 0x1_0000_0000
    modifies sock`got, sock`readAt, sock`trace, buf, buf.buf
    ensures sock.Valid() && buf.Valid() && old(sock.readAt) <= sock.readAt && old(sock.trace) <= sock.trace
    ensures buf.buf == old(buf.buf) || fresh(buf.buf)
    ensures -1 <= t <= 1024
    ensures sock.got == old(sock.got) + if t <= 0 then 0 else t
    ensures buf.Content() == old(buf.Content()) + sock.stream[old(sock.got)..sock.got]
    ensures t <= 0 ==> buf.len + 1024 <= buf.size
    ensures t == -1 ==> old(sock.readAt) < sock.readAt
    ensures t == 0 ==> sock.Closed() && sock.NoBlock(old(sock.readAt), sock.readAt)
    ensures t == -1 && errno == EAGAIN ==> sock.Blocked()
    ensures sock.NoStop(old(sock.readAt), sock.readAt - 1)
    ensures 0 < t || (t == -1 && errno != EAGAIN) ==> sock.NoStop(old(sock.readAt), sock.readAt)
  {
    buf.Append(1024);
    ghost var stored := buf.buf[..];
    t, errno := ReadRetrying(sock, buf.buf, buf.len, 1024);
    if 0 < t {
      assert forall i :: buf.len + t <= i < buf.buf.Length ==> buf.buf[..][i] == stored[i];
      buf.len := buf.len + t;
    } else {
      assert forall i :: 0 <= i < buf.buf.Length ==> buf.buf[..][i] == stored[i];
    }
  }

  /** What the drain has done so far: the octets read since `mark` stand behind the old content. */
  ghost predicate Drained(sock: Socket, buf: Buffer, content: seq<byte>, mark: nat)
    reads sock, buf, buf.buf
  {
    && sock.Valid() && buf.Valid()
    && mark <= sock.got
    && buf.Content() == content + sock.stream[mark..sock.got]
  }

  lemma DrainedMeans(sock: Socket, buf: Buffer, content: seq<byte>, mark: nat)
    requires Drained(sock, buf, content, mark)
    ensures sock.Valid() && buf.Valid() && mark <= sock.got
    ensures buf.Content() == content + sock.stream[mark..sock.got]
    ensures |content| + |sock.stream| - mark == buf.len + |sock.Unread()|
  {
  }

  lemma NothingDrained(sock: Socket, buf: Buffer)
    requires sock.Valid() && buf.Valid()
    ensures Drained(sock, buf, buf.Content(), sock.got)
  {
  }

  lemma DrainedFurther(sock: Socket, buf: Buffer, before: seq<byte>, content: seq<byte>, mark: nat, here: nat)
    requires mark <= here <= |sock.stream| && before == content + sock.stream[mark..here]
    requires Drained(sock, buf, before, here)
    ensures Drained(sock, buf, content, mark)
  {
    assert sock.stream[mark..sock.got] == sock.stream[mark..here] + sock.stream[here..sock.got];
  }

  /** The `for` loop of `conn_read_all` over what `select` reported: 1 goes back to `select`. */
  method DrainReady(sock: Socket, buf: Buffer, ret: int, normal: bool, exceptional: bool) returns (verdict: int)
    requires sock.Valid() && buf.Valid()
    requires buf.len + |sock.Unread()| + 1024 < 0x1_0000_0000
    requires 1 <= ret == (if normal then 1 else 0) + (if exceptional then 1 else 0)
    modifies sock`got, sock`readAt, sock`trace, buf, buf.buf
    ensures verdict in {1, 0, -1, -3}
    ensures buf.buf == old(buf.buf) || fresh(buf.buf)
    ensures Drained(sock, buf, old(buf.Content()), old(sock.got)) && old(sock.readAt) <= sock.readAt && old(sock.trace) <= sock.trace
    ensures verdict == -1 ==> sock.got == old(sock.got) && buf.size == old(buf.size)
    ensures verdict == -1 <==> exceptional
    ensures verdict != -1 ==> buf.len + 1024 <= buf.size
    ensures verdict in {0, 1} ==> old(sock.readAt) < sock.readAt
    ensures verdict == -3 ==> sock.Closed() && sock.NoBlock(old(sock.readAt), sock.readAt)
    ensures verdict == 0 ==> sock.Blocked()
    ensures sock.NoStop(old(sock.readAt), sock.readAt - 1)
    ensures verdict in {1, -1} ==> sock.NoStop(old(sock.readAt), sock.readAt)
  {
    ghost var content, mark := buf.Content(), sock.got;
    var i := 0;
    while i < ret
      invariant Drained(sock, buf, content, mark) && old(sock.readAt) <= sock.readAt && old(sock.trace) <= sock.trace
      invariant 0 <= i <= ret && (0 < i ==> !exceptional)
      invariant i == 0 ==> sock.got == mark && buf.size == old(buf.size)
      invariant 0 < i ==> old(sock.readAt) < sock.readAt && buf.len + 1024 <= buf.size
      invariant buf.buf == old(buf.buf) || fresh(buf.buf)
      invariant sock.NoStop(old(sock.readAt), sock.readAt)
    {
      if exceptional {
        return -1;
      } else if normal {
        var draining := true;
        while draining
          invariant Drained(sock, buf, content, mark) && old(sock.readAt) <= sock.readAt && old(sock.trace) <= sock.trace
          invariant !draining ==> old(sock.readAt) < sock.readAt && buf.len + 1024 <= buf.size
          invariant buf.buf == old(buf.buf) || fresh(buf.buf)
          invariant sock.NoStop(old(sock.readAt), sock.readAt)
          decreases draining, |sock.readScript| - sock.readAt, |sock.stream| - sock.got
        {
          var t, errno := ReadMore(sock, buf);
          if t == -1 {
            if errno == EAGAIN {
              return 0;
            }
            draining := false;
          } else if t == 0 {
            return -3;
          }
        }
      }
      i := i + 1;
    }
    return 1;
  }

  /** One turn of the loop of `conn_read_all`: waits and drains; 1 goes on, everything else is its answer. */
  method DrainTurn(sock: Socket, buf: Buffer, watchExceptional: bool) returns (verdict: int, exceptional: bool)
    requires sock.Valid() && buf.Valid()
    requires buf.len + |sock.Unread()| + 1024 < 0x1_0000_0000
    modifies sock`got, sock`selectAt, sock`readAt, sock`trace, buf, buf.buf
    ensures verdict in {1, 0, -1, -3} && (verdict != -1 ==> !exceptional)
    ensures buf.buf == old(buf.buf) || fresh(buf.buf)
    ensures Drained(sock, buf, old(buf.Content()), old(sock.got))
    ensures old(sock.selectAt) <= sock.selectAt && old(sock.readAt) <= sock.readAt && old(sock.trace) <= sock.trace
    ensures verdict in {0, 1} ==> old(sock.readAt) < sock.readAt
    ensures verdict != -1 ==> buf.len + 1024 <= buf.size
    ensures verdict == -1 ==> sock.SelectFailed() && sock.got == old(sock.got) && buf.size == old(buf.size)
    ensures verdict == 0 ==> sock.Blocked()
    ensures verdict == -3 ==> sock.Closed() && sock.NoBlock(old(sock.readAt), sock.readAt)
    ensures watchExceptional && old(sock.ExceptionalNext()) ==> verdict == -1
    ensures sock.NoStop(old(sock.readAt), sock.readAt - 1)
    ensures verdict in {1, -1} ==> sock.NoStop(old(sock.readAt), sock.readAt)
    ensures sock.SelectsPass(old(sock.selectAt), sock.selectAt - 1, false)
    ensures verdict != -1 ==> sock.SelectsPass(old(sock.selectAt), sock.selectAt, false)
    ensures sock.QuietIn() ==> verdict != -1 && (verdict == -3 ==> sock.Unread() == [])
  {
    hide Drained;
    ghost var content, mark := buf.Content(), sock.got;
    var ret, normal;
    ret, normal, exceptional := SelectRetrying(sock, watchExceptional, false);
    NothingDrained(sock, buf);
    // without a time limit `select` does not answer 0, so -2 is never returned
    if ret == -1 {
      return -1, exceptional;
    }
    verdict := DrainReady(sock, buf, ret, normal, exceptional);
    DrainedMeans(sock, buf, content, mark);
  }

  /**
  Drains the socket into the buffer: 0 when it would block, -3 at end-of-file, -1 on failure.
  The content grows by exactly what was read, 1024 octets are free at every `read`, and the
  tail stays zero.
  */
  method ConnReadAll(sock: Socket, buf: Buffer) returns (result: int)
    requires sock.Valid() && buf.Valid()
    requires buf.len + |sock.Unread()| + 1024 < 0x1_0000_0000
    modifies sock`got, sock`selectAt, sock`readAt, sock`trace, buf, buf.buf
    ensures result in {0, -1, -3}
    ensures buf.buf == old(buf.buf) || fresh(buf.buf)
    ensures Drained(sock, buf, old(buf.Content()), old(sock.got))
    ensures buf.len + 1024 <= buf.size || (result == -1 && sock.got == old(sock.got) && buf.size == old(buf.size))
    ensures old(sock.trace) <= sock.trace
    ensures old(sock.readAt) <= sock.readAt && (result == 0 ==> old(sock.readAt) < sock.readAt)
    ensures result == -3 ==> sock.Closed() && sock.NoBlock(old(sock.readAt), sock.readAt)
    ensures sock.QuietIn() ==> result != -1 && (result == -3 ==> sock.Unread() == [])
    // 0 is the answer to the first read that would block, and nothing is read after it.
    ensures result == 0 ==> sock.Blocked()
    ensures sock.NoStop(old(sock.readAt), sock.readAt - 1)
    ensures result == -1 ==> sock.NoStop(old(sock.readAt), sock.readAt)
    // -1 is the answer to a `select` that fails or reports an exceptional condition.
    ensures sock.SelectsPass(old(sock.selectAt), sock.selectAt - 1, false)
    ensures result != -1 ==> sock.SelectsPass(old(sock.selectAt), sock.selectAt, false)
    ensures result == -1 ==> sock.SelectFailed()
    ensures old(sock.ExceptionalNext()) ==> result == -1 && sock.got == old(sock.got)
  {
    hide Drained;
    ghost var content, mark := buf.Content(), sock.got;
    NothingDrained(sock, buf);
    var exceptional := true;
    while true
      invariant sock.Valid() && buf.Valid() && Drained(sock, buf, content, mark)
      invariant old(sock.readAt) <= sock.readAt && old(sock.trace) <= sock.trace
      invariant buf.buf == old(buf.buf) || fresh(buf.buf)
      invariant buf.len + 1024 <= buf.size || (sock.got == mark && buf.size == old(buf.size))
      invariant old(sock.selectAt) <= sock.selectAt && sock.SelectsPass(old(sock.selectAt), sock.selectAt, false)
      invariant sock.NoStop(old(sock.readAt), sock.readAt)
      invariant old(sock.ExceptionalNext()) ==> sock.selectAt == old(sock.selectAt) && sock.got == mark && exceptional
      decreases |sock.selectScript| - sock.selectAt + |sock.readScript| - sock.readAt
    {
      DrainedMeans(sock, buf, content, mark);
      ghost var here, before := sock.got, buf.Content();
      var verdict;
      verdict, exceptional := DrainTurn(sock, buf, exceptional);
      DrainedMeans(sock, buf, before, here);
      DrainedFurther(sock, buf, before, content, mark, here);
      if verdict != 1 {
        return verdict;
      }
    }
  }

  /** The `write_intr` label: a `write` that is repeated for as long as it is interrupted. */
  method WriteRetrying(sock: Socket, buf: array<byte>, off: nat, len: nat) returns (t: int, errno: Errno)
    requires sock.Valid() && 0 < len && off + len <= buf.Length
    modifies sock`sent, sock`writeAt
    ensures sock.Valid() && old(sock.writeAt) <= sock.writeAt
    ensures -1 <= t <= len
    ensures sock.sent == if t <= 0 then old(sock.sent) else old(sock.sent) + buf[off..off + t]
    ensures t <= 0 ==> old(sock.writeAt) < sock.writeAt
    ensures t == -1 ==> errno in {EAGAIN, EOTHER}
    ensures t == -1 && errno == EOTHER ==> WriteFailed in sock.writeScript
    // Only interruptions are passed over, and the answer is that of the last event.
    ensures forall i | old(sock.writeAt) <= i < sock.writeAt - 1 :: sock.writeScript[i] == WriteInterrupted
    ensures t == -1 ==> sock.writeScript[sock.writeAt - 1] == if errno == EAGAIN then WriteAgain else WriteFailed
    ensures t != -1 || errno == EAGAIN ==> sock.NoWriteFailure(old(sock.writeAt), sock.writeAt)
  {
    while true
      invariant sock.Valid() && old(sock.writeAt) <= sock.writeAt
      invariant sock.sent == old(sock.sent)
      invariant forall i | old(sock.writeAt) <= i < sock.writeAt :: sock.writeScript[i] == WriteInterrupted
      decreases |sock.writeScript| - sock.writeAt
    {
      t, errno := sock.Write(buf, off, len);
      if !(t == -1 && errno == EINTR) {
        return;
      }
    }
  }

  /** The `for` loop of `conn_write` over what `select` reported: -1 ends the transfer, 0 does not. */
  method WriteReady(sock: Socket, buf: array<byte>, off: nat, left: nat, ret: int, normal: bool, exceptional: bool)
    returns (verdict: int, moved: nat)
    requires sock.Valid() && 0 < left && off + left <= buf.Length
    requires 1 <= ret == (if normal then 1 else 0) + (if exceptional then 1 else 0)
    modifies sock`sent, sock`writeAt
    ensures sock.Valid() && old(sock.writeAt) <= sock.writeAt && verdict in {0, -1}
    ensures moved <= left && sock.sent == old(sock.sent) + buf[off..off + moved]
    ensures if verdict == 0 then old(sock.writeAt) < sock.writeAt || 0 < moved else moved == 0
    ensures exceptional ==> verdict == -1
    ensures verdict == -1 ==> exceptional || (0 < sock.writeAt && sock.writeScript[sock.writeAt - 1] == WriteFailed)
    ensures sock.NoWriteFailure(old(sock.writeAt), sock.writeAt - 1)
    ensures verdict == 0 ==> sock.NoWriteFailure(old(sock.writeAt), sock.writeAt)
  {
    moved := 0;
    var i := 0;
    while i < ret
      invariant sock.Valid() && 0 <= i <= ret && (0 < i ==> !exceptional)
      invariant old(sock.writeAt) <= sock.writeAt && moved <= left
      invariant sock.sent == old(sock.sent) + buf[off..off + moved]
      invariant sock.NoWriteFailure(old(sock.writeAt), sock.writeAt)
      invariant if i == 0 then moved == 0 else old(sock.writeAt) < sock.writeAt || 0 < moved
    {
      if exceptional {
        return -1, 0;
      } else if normal {
        var t, errno := WriteRetrying(sock, buf, off, left);
        if t < 0 {
          if errno != EAGAIN {
            return -1, 0;
          }
        } else {
          moved := t;
        }
      }
      i := i + 1;
    }
    return 0, moved;
  }

  /** Writes all of `buf[..len]`, or says why it could not; always a prefix, in order. */
  method ConnWrite(sock: Socket, buf: array<byte>, len: uint32) returns (result: int)
    requires sock.Valid() && len <= buf.Length
    modifies sock`sent, sock`selectAt, sock`writeAt
    ensures sock.Valid() && result in {0, -1}
    ensures |old(sock.sent)| <= |sock.sent| <= |old(sock.sent)| + len
    ensures sock.sent == old(sock.sent) + buf[..|sock.sent| - |old(sock.sent)|]
    ensures result == 0 <==> |sock.sent| == |old(sock.sent)| + len
    ensures sock.Quiet() ==> result == 0
    // -1 has its event, which is the last one, and no other event ends a transfer.
    ensures result == -1 ==> sock.SelectFailed() || (0 < sock.writeAt && sock.writeScript[sock.writeAt - 1] == WriteFailed)
    ensures sock.SelectsPass(old(sock.selectAt), sock.selectAt - 1, false)
    ensures sock.NoWriteFailure(old(sock.writeAt), sock.writeAt - 1)
    ensures result == 0 ==> && sock.SelectsPass(old(sock.selectAt), sock.selectAt, false)
                            && sock.NoWriteFailure(old(sock.writeAt), sock.writeAt)
    ensures 0 < len && old(sock.ExceptionalNext()) ==> result == -1 && sock.sent == old(sock.sent)
  {
    var r, left := 0, len;
    var exceptional := true;
    while 0 < left
      invariant sock.Valid() && 0 <= r && 0 <= left && r + left == len
      invariant sock.sent == old(sock.sent) + buf[..r]
      invariant old(sock.selectAt) <= sock.selectAt && sock.SelectsPass(old(sock.selectAt), sock.selectAt, false)
      invariant old(sock.writeAt) <= sock.writeAt && sock.NoWriteFailure(old(sock.writeAt), sock.writeAt)
      invariant old(sock.ExceptionalNext()) ==> sock.selectAt == old(sock.selectAt) && exceptional && r == 0
      decreases |sock.selectScript| - sock.selectAt + |sock.writeScript| - sock.writeAt + left
    {
      var ret, normal;
      ret, normal, exceptional := SelectRetrying(sock, exceptional, false);
      // without a time limit `select` does not answer 0, so -2 is never returned
      if ret == -1 {
        return -1;
      }
      var verdict, t := WriteReady(sock, buf, r, left, ret, normal, exceptional);
      if verdict != 0 {
        return verdict;
      }
      assert buf[..r + t] == buf[..r] + buf[r..r + t];
      r, left := r + t, left - t;
    }
    return 0;
  }
}
