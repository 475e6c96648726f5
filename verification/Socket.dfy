/**
The operating system as the transfer loops of UI/conn.c see it: `select`, `read` and
`write` answer from scripts of events that may be as hostile as one likes.  A script that
has run out is followed by a cooperative tail: the descriptor is ready, everything the
peer sent is delivered, and then the peer closes.
*/
module Environment {
  import opened Bytes

  datatype SelectEvent =
    | SelTimeout
    | SelInterrupted
    | SelFailed
    | SelReady(normal: bool, exceptional: bool)

  datatype ReadEvent =
    | ReadData(atMost: nat)
    | ReadAgain
    | ReadInterrupted
    | ReadFailed
    | ReadEof

  datatype WriteEvent =
    | WriteTakes(atMost: nat)
    | WriteAgain
    | WriteInterrupted
    | WriteFailed

  datatype Errno = NoError | EINTR | EAGAIN | EOTHER

  function Min(a: nat, b: nat): nat {
    if a <= b then a else b
  }

  /**
  The next event a `select` call reports, and the script position after it.  Readiness it
  does not watch is no event, and a call without a time limit never times out.
  */
  function Poll(script: seq<SelectEvent>, at: nat, watchExceptional: bool, timed: bool): (r: (SelectEvent, nat))
    requires at <= |script|
    ensures at <= r.1 <= |script| && (at < |script| ==> at < r.1)
    ensures match r.0
            case SelTimeout => timed && SelTimeout in script
            case SelInterrupted => at < |script|
            case SelFailed => SelFailed in script
            case SelReady(n, e) => (n || e) && (e ==> watchExceptional && exists x <- script :: x.SelReady? && x.exceptional)
    // The event reported is the last one passed, and nothing that would have been reported is passed over.
    ensures r.0 == SelTimeout ==> at < r.1 && script[r.1 - 1] == SelTimeout
    ensures r.0 == SelFailed ==> at < r.1 && script[r.1 - 1] == SelFailed
    ensures r.0.SelReady? && r.0.exceptional ==> at < r.1 && script[r.1 - 1].SelReady? && script[r.1 - 1].exceptional
    ensures forall i | at <= i < r.1 :: script[i] == SelFailed ==> i == r.1 - 1 && r.0 == SelFailed
    ensures timed ==> forall i | at <= i < r.1 :: script[i] == SelTimeout ==> i == r.1 - 1 && r.0 == SelTimeout
    ensures at < |script| && watchExceptional && script[at].SelReady? && script[at].exceptional ==>
              r.1 == at + 1 && r.0.SelReady? && r.0.exceptional
    decreases |script| - at
  {
    if at == |script| then (SelReady(true, false), at)
    else
      match script[at]
      case SelTimeout => if timed then (SelTimeout, at + 1) else Poll(script, at + 1, watchExceptional, timed)
      case SelReady(n, e) =>
        if n || (e && watchExceptional) then (SelReady(n, e && watchExceptional), at + 1)
        else Poll(script, at + 1, watchExceptional, timed)
      case other => (other, at + 1)
  }

  class Socket {
    const stream: seq<byte>   // everything the peer sends
    var got: nat              // how much of it has been read
    var sent: seq<byte>       // what the kernel has accepted so far
    const selectScript: seq<SelectEvent>
    const readScript: seq<ReadEvent>
    const writeScript: seq<WriteEvent>
    var selectAt: nat
    var readAt: nat
    var writeAt: nat
    ghost var trace: seq<nat> // how much had been read after each read event

    constructor (stream: seq<byte>, selects: seq<SelectEvent>, readEvents: seq<ReadEvent>, writes: seq<WriteEvent>)
      ensures Valid() && Unread() == stream && sent == []
      ensures this.stream == stream && selectScript == selects && readScript == readEvents && writeScript == writes
    {
      this.stream, got, sent := stream, 0, [];
      selectScript, readScript, writeScript := selects, readEvents, writes;
      selectAt, readAt, writeAt, trace := 0, 0, 0, [];
    }

    ghost predicate Valid()
      reads this
    {
      got <= |stream| && selectAt <= |selectScript| && readAt <= |readScript| && writeAt <= |writeScript|
      && |trace| == readAt
    }

    ghost function Unread(): seq<byte>
      reads this
      requires Valid()
    {
      stream[got..]
    }

    /** No read can fail: there are only short reads, interruptions and would-block answers. */
    ghost predicate QuietIn() {
      && (forall e <- selectScript :: e.SelInterrupted? || (e.SelReady? && !e.exceptional))
      && ReadEof !in readScript
    }

    /** No transfer in either direction can fail. */
    ghost predicate Quiet() {
      QuietIn() && WriteFailed !in writeScript
    }

    /** The peer has closed: the last `read` answered end-of-file, from the script or after its end. */
    ghost predicate Closed()
      reads this
      requires Valid()
    {
      || (0 < readAt && readScript[readAt - 1] == ReadEof)
      || (readAt == |readScript| && got == |stream|)
    }

    /** The `select` events from one position to another do not end a transfer. */
    ghost predicate SelectsPass(from: int, to: int, timed: bool) {
      forall i | 0 <= i < |selectScript| && from <= i < to ::
        selectScript[i] != SelFailed && (timed ==> selectScript[i] != SelTimeout)
    }

    /** The last `select` event taken is a time-out, a failure or an exceptional condition. */
    ghost predicate TimedOut()
      reads this
    {
      0 < selectAt <= |selectScript| && selectScript[selectAt - 1] == SelTimeout
    }

    ghost predicate SelectFailed()
      reads this
    {
      && 0 < selectAt <= |selectScript|
      && var e := selectScript[selectAt - 1]; e == SelFailed || (e.SelReady? && e.exceptional)
    }

    /** The next `select` event is an exceptional condition. */
    ghost predicate ExceptionalNext()
      reads this
    {
      selectAt < |selectScript| && selectScript[selectAt].SelReady? && selectScript[selectAt].exceptional
    }

    /** The read events from one position to another are not end-of-file. */
    ghost predicate NoEof(from: int, to: int) {
      forall i | 0 <= i < |readScript| && from <= i < to :: readScript[i] != ReadEof
    }

    /** They do not say either that a read would block. */
    ghost predicate NoBlock(from: int, to: int) {
      forall i | 0 <= i < |readScript| && from <= i < to :: readScript[i] != ReadAgain && readScript[i] != ReadData(0)
    }

    /** Neither end-of-file nor a read that would block. */
    ghost predicate NoStop(from: int, to: int) {
      forall i | 0 <= i < |readScript| && from <= i < to :: readScript[i] !in {ReadEof, ReadAgain, ReadData(0)}
    }

    /** The last read event says that the read would block: in so many words, or by having nothing to deliver. */
    ghost predicate Blocked()
      reads this
    {
      && 0 < readAt <= |readScript| && |trace| == readAt && trace[readAt - 1] == got
      && var e := readScript[readAt - 1]; e == ReadAgain || (e.ReadData? && (e.atMost == 0 || got == |stream|))
    }

    /** The write events from one position to another are not failures. */
    ghost predicate NoWriteFailure(from: int, to: int) {
      forall i | 0 <= i < |writeScript| && from <= i < to :: writeScript[i] != WriteFailed
    }

    /** `select` on this descriptor; the two booleans returned are the bits left in the sets. */
    method Select(watchExceptional: bool, timed: bool)
      returns (ret: int, normal: bool, exceptional: bool, errno: Errno)
      requires Valid()
      modifies `selectAt
      ensures Valid()
      ensures old(selectAt) <= selectAt && (old(selectAt) < |selectScript| ==> old(selectAt) < selectAt)
      ensures ret in {0, -1} || 1 <= ret == (if normal then 1 else 0) + (if exceptional then 1 else 0)
      ensures exceptional ==> watchExceptional
      ensures ret == 0 ==> timed
      ensures ret == -1 ==> errno in {EINTR, EOTHER} && old(selectAt) < selectAt
      ensures QuietIn() ==> (ret == -1 && errno == EINTR) || (ret == 1 && !exceptional)
      ensures SelectsPass(old(selectAt), selectAt - 1, timed)
      ensures ret == 0 ==> TimedOut()
      ensures ret != 0 && !(ret == -1 && errno == EOTHER) ==> SelectsPass(old(selectAt), selectAt, timed)
      ensures (ret == -1 && errno == EOTHER) || (1 <= ret && exceptional) ==> SelectFailed()
      ensures watchExceptional && old(ExceptionalNext()) ==> 1 <= ret && exceptional
    {
      var polled := Poll(selectScript, selectAt, watchExceptional, timed);
      selectAt := polled.1;
      match polled.0
      case SelTimeout => ret, normal, exceptional, errno := 0, false, false, NoError;
      case SelInterrupted => ret, normal, exceptional, errno := -1, true, watchExceptional, EINTR;
      case SelFailed => ret, normal, exceptional, errno := -1, true, watchExceptional, EOTHER;
      case SelReady(n, e) =>
        ret, normal, exceptional, errno := (if n then 1 else 0) + (if e then 1 else 0), n, e, NoError;
    }

    /** `read` of at most `len` bytes to `buf[off..]`; the loops must never ask for none. */
    method Read(buf: array<byte>, off: nat, len: nat) returns (t: int, errno: Errno)
      requires Valid() && 0 < len && off + len <= buf.Length
      modifies `got, `readAt, `trace, buf
      ensures Valid() && old(trace) <= trace
      ensures old(readAt) < readAt ==> trace[old(readAt)] == got
      ensures readAt == if old(readAt) == |readScript| then old(readAt) else old(readAt) + 1
      ensures -1 <= t <= len
      ensures t <= 0 ==> got == old(got) && buf[..] == old(buf[..])
      ensures 0 < t ==> got == old(got) + t && buf[..] == Overwrite(old(buf[..]), off, stream[old(got)..got])
      ensures t == -1 ==> errno != NoError && old(readAt) < readAt
      ensures t == 0 ==> Closed()
      ensures if old(readAt) == |readScript| then t == Min(len, |stream| - old(got))
              else
                match readScript[old(readAt)]
                case ReadData(k) =>
                  if k == 0 || old(got) == |stream| then t == -1 && errno == EAGAIN
                  else t == Min(Min(len, k), |stream| - old(got))
                case ReadAgain => t == -1 && errno == EAGAIN
                case ReadInterrupted => t == -1 && errno == EINTR
                case ReadFailed => t == -1 && errno == EOTHER
                case ReadEof => t == 0
    {
      if readAt == |readScript| {
        t, errno := Min(len, |stream| - got), NoError;
      } else {
        var e := readScript[readAt];
        readAt := readAt + 1;
        match e
        case ReadData(k) =>
          t, errno := Min(Min(len, k), |stream| - got), NoError;
          if t == 0 {
            t, errno := -1, EAGAIN;
          }
        case ReadAgain => t, errno := -1, EAGAIN;
        case ReadInterrupted => t, errno := -1, EINTR;
        case ReadFailed => t, errno := -1, EOTHER;
        case ReadEof => t, errno := 0, NoError;
      }
      if 0 < t {
        forall i | 0 <= i < t {
          buf[off + i] := stream[got + i];
        }
        got := got + t;
      }
      if |trace| < readAt {
        trace := trace + [got];
      }
    }

    /** `write` of `len` bytes from `buf[off..]`. */
    method Write(buf: array<byte>, off: nat, len: nat) returns (t: int, errno: Errno)
      requires Valid() && off + len <= buf.Length
      modifies `sent, `writeAt
      ensures Valid()
      ensures writeAt == if old(writeAt) == |writeScript| then old(writeAt) else old(writeAt) + 1
      ensures -1 <= t <= len
      ensures sent == if t <= 0 then old(sent) else old(sent) + buf[off..off + t]
      ensures t == -1 ==> errno != NoError
      ensures t <= 0 < len ==> old(writeAt) < writeAt
      ensures t == -1 && errno == EOTHER ==> WriteFailed in writeScript
      ensures if old(writeAt) == |writeScript| then t == len
              else
                match writeScript[old(writeAt)]
                case WriteTakes(k) => t == Min(len, k)
                case WriteAgain => t == -1 && errno == EAGAIN
                case WriteInterrupted => t == -1 && errno == EINTR
                case WriteFailed => t == -1 && errno == EOTHER
    {
      if writeAt == |writeScript| {
        t, errno := len, NoError;
      } else {
        var e := writeScript[writeAt];
        writeAt := writeAt + 1;
        match e
        case WriteTakes(k) => t, errno := Min(len, k), NoError;
        case WriteAgain => t, errno := -1, EAGAIN;
        case WriteInterrupted => t, errno := -1, EINTR;
        case WriteFailed => t, errno := -1, EOTHER;
      }
      if 0 < t {
        sent := sent + buf[off..off + t];
      }
    }
  }

  /** What a quiet transport is: none of these events, and anything else. */
  lemma QuietExactly(sock: Socket)
    ensures sock.Quiet() <==>
            && (forall i | 0 <= i < |sock.selectScript| :: sock.selectScript[i] !in {SelTimeout, SelFailed})
            && (forall i | 0 <= i < |sock.selectScript| :: sock.selectScript[i].SelReady? ==> !sock.selectScript[i].exceptional)
            && (forall i | 0 <= i < |sock.readScript| :: sock.readScript[i] != ReadEof)
            && (forall i | 0 <= i < |sock.writeScript| :: sock.writeScript[i] != WriteFailed)
  {
    if sock.Quiet() {
      forall i | 0 <= i < |sock.selectScript|
        ensures sock.selectScript[i] !in {SelTimeout, SelFailed} && (sock.selectScript[i].SelReady? ==> !sock.selectScript[i].exceptional)
      {
        assert sock.selectScript[i] in sock.selectScript;
      }
    }
  }
}
