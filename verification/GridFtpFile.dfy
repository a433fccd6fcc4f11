/** The GridFTP file descriptor: GridFTPFileDesc, GridFTPModule::read and lseek and the
    internal pread of src/plugins/gridftp/gridftp_io.cpp, over the stream callbacks and
    gridftp_read_stream of src/plugins/gridftp/gridftpwrapper.cpp.

    Globus is an environment: each operation receives an event that says which callbacks
    arrived. The remote file is a fixed sequence of bytes. */
module GridFtpFile {
  import opened Wrappers

  type Byte = b: int | 0 <= b < 256

  /** One data callback: the bytes it stored at the start of the buffer, and its flags. */
  datatype Callback = Callback(data: seq<Byte>, eof: bool, failed: bool)

  /** What Globus did for one read on the main GET. */
  datatype StreamEvent = Refused | Called(cb: Callback) | TimedOut(late: Option<Callback>)

  /** What Globus did for one partial GET; the callbacks share one buffer. */
  datatype PartialEvent = RefusedGet | Transfer(cbs: seq<Callback>, timedOut: bool, requestFails: bool)

  /** What lseek met: the main request was over, or aborting it ended in this way. */
  datatype AbortEvent = AlreadyDone | Aborted | AbortedCanceled | AbortFails

  datatype Whence = SeekSet | SeekCur | SeekEnd

  /** GridFTPStreamState: offset, eof and whether an error was ever recorded. */
  datatype Stream = Stream(offset: nat, eof: bool, error: bool)

  datatype Desc = Desc(cursor: int, stream: Option<Stream>, readOnly: bool)

  const FAILED: int := -1

  // ---- What the code computes ------------------------------------------------

  /** A callback stores its bytes at the start of the buffer. */
  function Overlay(buf: seq<Byte>, data: seq<Byte>): (r: seq<Byte>)
    requires |data| <= |buf|
    ensures |r| == |buf|
  {
    data + buf[|data|..]
  }

  predicate Fit(cbs: seq<Callback>, n: nat) { forall cb | cb in cbs :: |cb.data| <= n }

  /** The buffer after all callbacks of one partial GET. */
  function Filled(buf: seq<Byte>, cbs: seq<Callback>): (r: seq<Byte>)
    requires Fit(cbs, |buf|)
    ensures |r| == |buf|
    decreases |cbs|
  {
    if cbs == [] then buf else Filled(Overlay(buf, cbs[0].data), cbs[1..])
  }

  function Total(cbs: seq<Callback>): nat {
    if cbs == [] then 0 else |cbs[0].data| + Total(cbs[1..])
  }

  function Concat(cbs: seq<Callback>): seq<Byte> {
    if cbs == [] then [] else cbs[0].data + Concat(cbs[1..])
  }

  predicate AnyFailed(cbs: seq<Callback>) { exists cb | cb in cbs :: cb.failed }

  function Apply(st: Stream, cb: Callback): Stream {
    Stream(st.offset + |cb.data|, cb.eof, st.error || cb.failed)
  }

  function StreamAfter(st: Stream, ev: StreamEvent): Stream {
    if st.eof then st
    else match ev
      case Refused => st
      case Called(cb) => Apply(st, cb)
      case TimedOut(late) => (if late.Some? then Apply(st, late.value) else st).(error := true)
  }

  predicate UsesStream(d: Desc) {
    d.readOnly && d.stream.Some? && d.cursor == d.stream.value.offset
  }

  // ---- What Globus promises ---------------------------------------------------

  function Clip(i: int, n: nat): (r: nat)
    ensures r <= n && (0 <= i <= n ==> r == i)
  {
    if i < 0 then 0 else if i > n then n else i
  }

  function Slice(content: seq<Byte>, from: nat, count: nat): (r: seq<Byte>)
    ensures |r| <= count
  {
    content[Clip(from, |content|)..Clip(from + count, |content|)]
  }

  /** What has happened to the main request: whether the descriptor was opened with one, the
      events of the reads on it, whether it was aborted or found finished, and whether a seek has
      left it for good. */
  datatype History = History(streaming: bool, heard: seq<StreamEvent>, over: bool, left: bool)

  function CallbacksOf(ev: StreamEvent): seq<Callback> {
    match ev
    case Refused => []
    case Called(cb) => [cb]
    case TimedOut(late) => if late.Some? then [late.value] else []
  }

  /** All callbacks on the main request, failed and late ones included. */
  function Callbacks(heard: seq<StreamEvent>): seq<Callback> {
    if heard == [] then [] else Callbacks(heard[..|heard| - 1]) + CallbacksOf(heard[|heard| - 1])
  }

  /** The bytes that Globus has delivered on the main request. */
  function Delivered(heard: seq<StreamEvent>): nat { Total(Callbacks(heard)) }

  /** The last callback said eof. */
  predicate SaidEof(heard: seq<StreamEvent>) {
    var cbs := Callbacks(heard);
    cbs != [] && cbs[|cbs| - 1].eof
  }

  /** Some read timed out or was told of an error. */
  predicate Broken(heard: seq<StreamEvent>) {
    exists ev | ev in heard :: ev.TimedOut? || (ev.Called? && ev.cb.failed)
  }

  /** A successful callback on a GET that nothing has happened to carries the bytes behind those
      delivered so far; it is empty only at the end, and says eof only there. A request that is
      over gives no successful callback. Failed and late callbacks promise nothing but their
      bounds. */
  predicate StreamObeys(content: seq<Byte>, h: History, count: nat, ev: StreamEvent) {
    ev.Called? && !ev.cb.failed && !Broken(h.heard) ==>
      var cb, pos := ev.cb, Delivered(h.heard);
      && !h.over && pos + |cb.data| <= |content|
      && cb.data == content[pos..pos + |cb.data|]
      && (cb.eof ==> pos + |cb.data| == |content|)
      && (cb.data == [] && count > 0 ==> cb.eof)
  }

  predicate NothingFails(ev: PartialEvent) {
    ev.Transfer? && !ev.timedOut && !ev.requestFails && forall cb | cb in ev.cbs :: !cb.failed
  }

  /** A partial GET in which nothing fails delivers the requested range, clipped to the file, and
      only its last callback says eof. A negative offset is refused by the server. */
  predicate PartialObeys(content: seq<Byte>, from: int, count: nat, ev: PartialEvent) {
    NothingFails(ev) ==>
      && from >= 0
      && ev.cbs != [] && ev.cbs[|ev.cbs| - 1].eof
      && (forall i | 0 <= i < |ev.cbs| - 1 :: !ev.cbs[i].eof)
      && Concat(ev.cbs) == Slice(content, from, count)
  }

  /** The extra promise the source's own comment relies on: a callback that does not say
      eof filled the buffer. */
  predicate FillsBuffer(count: nat, ev: PartialEvent) {
    NothingFails(ev) ==> forall i | 0 <= i < |ev.cbs| - 1 :: |ev.cbs[i].data| == count
  }

  datatype ReadEvent = ReadEvent(stream: StreamEvent, partial: PartialEvent)

  /** No callback stores more than was asked for. */
  predicate InBounds(count: nat, ev: ReadEvent) {
    && (ev.stream.Called? ==> |ev.stream.cb.data| <= count)
    && (ev.stream.TimedOut? && ev.stream.late.Some? ==> |ev.stream.late.value.data| <= count)
    && (ev.partial.Transfer? ==> Fit(ev.partial.cbs, count))
  }

  /** A read at this cursor goes to the main request. */
  predicate OnMain(h: History, readOnly: bool, cursor: int) {
    h.streaming && !h.left && readOnly && cursor == Delivered(h.heard)
  }

  predicate Obeys(content: seq<Byte>, d: Desc, h: History, count: nat, ev: ReadEvent) {
    && InBounds(count, ev)
    && (OnMain(h, d.readOnly, d.cursor) ==> StreamObeys(content, h, count, ev.stream))
    && PartialObeys(content, d.cursor, count, ev.partial)
    && (!OnMain(h, d.readOnly, d.cursor) ==> FillsBuffer(count, ev.partial))
  }

  // ---- One read and one seek as functions ------------------------------------

  datatype Outcome = Outcome(desc: Desc, buf: seq<Byte>, ret: int)

  function ReadStep(d: Desc, buf: seq<Byte>, ev: ReadEvent): Outcome
    requires InBounds(|buf|, ev)
  {
    if UsesStream(d) then
      var st := d.stream.value;
      var d' := d.(stream := Some(StreamAfter(st, ev.stream)));
      if st.eof then Outcome(d, buf, 0)
      else match ev.stream
        case Refused => Outcome(d, buf, FAILED)
        case Called(cb) =>
          if st.error || cb.failed then Outcome(d', Overlay(buf, cb.data), FAILED)
          else Outcome(d'.(cursor := d.cursor + |cb.data|), Overlay(buf, cb.data), |cb.data|)
        case TimedOut(late) =>
          Outcome(d', if late.Some? then Overlay(buf, late.value.data) else buf, FAILED)
    else
      match ev.partial
      case RefusedGet => Outcome(d, buf, FAILED)
      case Transfer(cbs, timedOut, requestFails) =>
        if timedOut || requestFails || AnyFailed(cbs) then Outcome(d, Filled(buf, cbs), FAILED)
        else Outcome(d.(cursor := d.cursor + Total(cbs)), Filled(buf, cbs), Total(cbs))
  }

  function SeekStep(d: Desc, offset: int, whence: Whence, ev: AbortEvent): (r: (Desc, int)) {
    if whence.SeekEnd? then (d, FAILED)
    else
      var target := if whence.SeekSet? then offset else d.cursor + offset;
      if target == d.cursor then (d, target)
      else if ev.AbortFails? then (d, FAILED)
      else (d.(stream := None, cursor := target), target)
  }

  // ---- The descriptor as an object -------------------------------------------

  class FileDesc {
    var cursor: int
    var stream: Option<Stream>
    const readOnly: bool

    ghost function Model(): Desc
      reads this
    {
      Desc(cursor, stream, readOnly)
    }

    /** GridFTPModule::open: a GET or PUT stream, or none when the flags ask for both. */
    constructor (readOnly: bool, writeOnly: bool)
      ensures Model() == Desc(0, if readOnly || writeOnly then Some(Stream(0, false, false)) else None, readOnly)
    {
      this.readOnly := readOnly;
      cursor := 0;
      stream := if readOnly || writeOnly then Some(Stream(0, false, false)) else None;
    }

    /** gridftp_read_stream without expect_eof: one callback ends the wait. */
    method ReadStream(buffer: array<Byte>, ev: StreamEvent) returns (ret: int)
      requires stream.Some?
      requires ev.Called? ==> |ev.cb.data| <= buffer.Length
      requires ev.TimedOut? && ev.late.Some? ==> |ev.late.value.data| <= buffer.Length
      modifies this, buffer
      ensures cursor == old(cursor) && stream == Some(StreamAfter(old(stream.value), ev))
      ensures old(stream.value.eof) ==> ret == 0 && buffer[..] == old(buffer[..])
      ensures !old(stream.value.eof) && ev.Refused? ==> ret == FAILED && buffer[..] == old(buffer[..])
      ensures !old(stream.value.eof) && ev.Called? ==>
                && buffer[..] == Overlay(old(buffer[..]), ev.cb.data)
                && ret == if old(stream.value.error) || ev.cb.failed then FAILED else |ev.cb.data|
      ensures !old(stream.value.eof) && ev.TimedOut? ==>
                && ret == FAILED
                && buffer[..] == if ev.late.Some? then Overlay(old(buffer[..]), ev.late.value.data) else old(buffer[..])
    {
      var initial := stream.value.offset;
      if stream.value.eof {
        return 0;
      }
      match ev
      case Refused => return FAILED;
      case Called(cb) =>
        Store(buffer, cb.data);
        stream := Some(Stream(stream.value.offset + |cb.data|, cb.eof, stream.value.error || cb.failed));
        ret := if stream.value.error then FAILED else stream.value.offset - initial;
      case TimedOut(late) =>
        if late.Some? {
          Store(buffer, late.value.data);
          var cb := late.value;
          stream := Some(Stream(stream.value.offset + |cb.data|, cb.eof, stream.value.error || cb.failed));
        }
        stream := Some(stream.value.(error := true));
        ret := FAILED;
    }

    method Store(buffer: array<Byte>, data: seq<Byte>)
      requires |data| <= buffer.Length
      modifies buffer
      ensures buffer[..] == Overlay(old(buffer[..]), data)
    {
      for i := 0 to |data|
        invariant buffer[..i] == data[..i]
        invariant buffer[i..] == old(buffer[i..])
      {
        buffer[i] := data[i];
      }
    }

    /** gridftp_rw_internal_pread: every callback before eof re-registers the same buffer. */
    method InternalPread(buffer: array<Byte>, ev: PartialEvent) returns (ret: int)
      requires ev.Transfer? ==> Fit(ev.cbs, buffer.Length)
      modifies buffer
      ensures ev.RefusedGet? ==> ret == FAILED && buffer[..] == old(buffer[..])
      ensures ev.Transfer? ==> buffer[..] == Filled(old(buffer[..]), ev.cbs)
      ensures ev.Transfer? ==> ret == if NothingFails(ev) then Total(ev.cbs) else FAILED
    {
      if ev.RefusedGet? {
        return FAILED;
      }
      var offset, error := 0, false;
      var i := 0;
      while i < |ev.cbs|
        invariant 0 <= i <= |ev.cbs|
        invariant Filled(buffer[..], ev.cbs[i..]) == Filled(old(buffer[..]), ev.cbs)
        invariant offset + Total(ev.cbs[i..]) == Total(ev.cbs)
        invariant error == AnyFailed(ev.cbs[..i])
      {
        var cb := ev.cbs[i];
        Store(buffer, cb.data);
        offset := offset + |cb.data|;
        error := error || cb.failed;
        assert ev.cbs[..i + 1] == ev.cbs[..i] + [cb];
        i := i + 1;
      }
      assert ev.cbs[..i] == ev.cbs;
      ret := if error || ev.timedOut || ev.requestFails then FAILED else offset;
    }

    method Read(buffer: array<Byte>, ev: ReadEvent) returns (ret: int)
      requires InBounds(buffer.Length, ev)
      modifies this, buffer
      ensures Outcome(Model(), buffer[..], ret) == ReadStep(old(Model()), old(buffer[..]), ev)
    {
      if stream.Some? && cursor == stream.value.offset && readOnly {
        ret := ReadStream(buffer, ev.stream);
      } else {
        ret := InternalPread(buffer, ev.partial);
      }
      if ret == FAILED {
        return;
      }
      cursor := cursor + ret;
    }

    method Seek(offset: int, whence: Whence, ev: AbortEvent) returns (ret: int)
      modifies this
      ensures (Model(), ret) == SeekStep(old(Model()), offset, whence, ev)
    {
      var target;
      match whence {
        case SeekSet => target := offset;
        case SeekCur => target := cursor + offset;
        case SeekEnd => return FAILED;
      }
      if target == cursor {
        return cursor;
      }
      if ev.AbortFails? {
        return FAILED;
      }
      stream := None;
      cursor := target;
      return cursor;
    }
  }

  // ---- Refinement of a plain file with a cursor -------------------------------

  /** The stream state for a history. */
  function StreamFor(heard: seq<StreamEvent>): Stream { Stream(Delivered(heard), SaidEof(heard), Broken(heard)) }

  /** The stream state is what Globus has done: it is there until a seek leaves it, its offset is
      the number of bytes delivered, and it has recorded every error. */
  predicate Tracks(d: Desc, h: History) {
    && (d.stream.Some? <==> h.streaming && !h.left)
    && (d.stream.Some? ==> d.stream.value == StreamFor(h.heard))
  }

  /** A live GET is inside the file, and its eof is the file's. */
  predicate Inv(content: seq<Byte>, d: Desc, h: History) {
    && Tracks(d, h)
    && (!Broken(h.heard) ==> Delivered(h.heard) <= |content| && (SaidEof(h.heard) ==> Delivered(h.heard) == |content|))
  }

  /** A plain read: it fails and moves nothing, or it stores the file's bytes at the cursor
      and moves by as many. */
  predicate PlainRead(content: seq<Byte>, cursor: int, cursor': int, buf': seq<Byte>, ret: int) {
    if ret == FAILED then cursor' == cursor
    else
      && 0 <= ret <= |buf'|
      && cursor' == cursor + ret
      && (ret > 0 ==> 0 <= cursor && cursor + ret <= |content| && buf'[..ret] == content[cursor..cursor + ret])
  }

  /** A plain seek: from the start or the cursor, to any offset; from the end it is refused. It
      may also be refused when it really moves and the old request cannot be aborted. */
  predicate PlainSeek(cursor: int, cursor': int, offset: int, whence: Whence, ev: AbortEvent, ret: int) {
    var target := if whence.SeekSet? then offset else cursor + offset;
    if whence.SeekEnd? || (target != cursor && ev.AbortFails?) then ret == FAILED && cursor' == cursor
    else ret == cursor' == target
  }

  lemma {:induction false} EmptyCallbacks(buf: seq<Byte>, cbs: seq<Callback>)
    requires forall cb | cb in cbs :: cb.data == []
    ensures Filled(buf, cbs) == buf && Total(cbs) == 0 && Concat(cbs) == []
  {
    if cbs != [] {
      assert Overlay(buf, cbs[0].data) == buf;
      EmptyCallbacks(buf, cbs[1..]);
    }
  }

  lemma {:induction false} TotalIsConcat(cbs: seq<Callback>)
    ensures |Concat(cbs)| == Total(cbs)
  {
    if cbs != [] {
      TotalIsConcat(cbs[1..]);
    }
  }

  /** All bytes of the transfer came in one callback. */
  predicate OneCarrier(cbs: seq<Callback>) {
    forall i, j | 0 <= i < j < |cbs| :: cbs[i].data == [] || cbs[j].data == []
  }

  lemma {:induction false} OneCarrierIsExact(buf: seq<Byte>, cbs: seq<Callback>)
    requires Fit(cbs, |buf|) && OneCarrier(cbs)
    ensures Total(cbs) <= |buf|
    ensures Filled(buf, cbs)[..Total(cbs)] == Concat(cbs)
  {
    if cbs != [] {
      var buf1 := Overlay(buf, cbs[0].data);
      if cbs[0].data == [] {
        assert buf1 == buf;
        OneCarrierIsExact(buf, cbs[1..]);
      } else {
        forall cb | cb in cbs[1..] ensures cb.data == [] {
          var j :| 0 <= j < |cbs[1..]| && cbs[1..][j] == cb;
          assert cbs[j + 1] == cb;
        }
        EmptyCallbacks(buf1, cbs[1..]);
      }
    }
  }

  lemma {:induction false} TotalAtLeast(cbs: seq<Callback>, i: nat, j: nat)
    requires i < j < |cbs|
    ensures Total(cbs) >= |cbs[i].data| + |cbs[j].data|
  {
    if i == 0 {
      TotalHas(cbs[1..], j - 1);
    } else {
      TotalAtLeast(cbs[1..], i - 1, j - 1);
    }
  }

  lemma {:induction false} TotalHas(cbs: seq<Callback>, i: nat)
    requires i < |cbs|
    ensures Total(cbs) >= |cbs[i].data|
  {
    if i > 0 {
      TotalHas(cbs[1..], i - 1);
    }
  }

  lemma FillingMeansOneCarrier(content: seq<Byte>, from: int, count: nat, ev: PartialEvent)
    requires PartialObeys(content, from, count, ev) && FillsBuffer(count, ev) && NothingFails(ev)
    ensures OneCarrier(ev.cbs)
  {
    TotalIsConcat(ev.cbs);
    forall i, j | 0 <= i < j < |ev.cbs| ensures ev.cbs[i].data == [] || ev.cbs[j].data == [] {
      TotalAtLeast(ev.cbs, i, j);
    }
  }

  lemma {:induction false} TotalConcat(a: seq<Callback>, b: seq<Callback>)
    ensures Total(a + b) == Total(a) + Total(b)
  {
    if a == [] {
      assert a + b == b;
    } else {
      TotalConcat(a[1..], b);
      assert (a + b)[1..] == a[1..] + b;
    }
  }

  /** One more event on the main request. */
  lemma HeardMore(heard: seq<StreamEvent>, ev: StreamEvent)
    ensures var cbs := CallbacksOf(ev);
      && Delivered(heard + [ev]) == Delivered(heard) + Total(cbs)
      && (SaidEof(heard + [ev]) <==> if cbs == [] then SaidEof(heard) else cbs[0].eof)
      && (Broken(heard + [ev]) <==> Broken(heard) || ev.TimedOut? || (ev.Called? && ev.cb.failed))
  {
    var more := heard + [ev];
    assert more[..|more| - 1] == heard && more[|more| - 1] == ev;
    TotalConcat(Callbacks(heard), CallbacksOf(ev));
    assert Callbacks(more) == Callbacks(heard) + CallbacksOf(ev);
    assert CallbacksOf(ev) == [] ==> Callbacks(more) == Callbacks(heard);
    assert ev in more && forall e | e in heard :: e in more;
  }

  lemma OneTotal(cb: Callback)
    ensures Total([cb]) == |cb.data| && Total([]) == 0
  {
    assert [cb][1..] == [];
  }

  /** The history after a read: a read on the main request that has not said eof adds its event. */
  function HistoryAfterRead(d: Desc, h: History, ev: ReadEvent): History {
    if OnMain(h, d.readOnly, d.cursor) && !SaidEof(h.heard) then h.(heard := h.heard + [ev.stream]) else h
  }

  /** The history after a seek: one that moves ends the main request, and leaves it if it succeeds. */
  function HistoryAfterSeek(d: Desc, h: History, offset: int, whence: Whence, ev: AbortEvent): History {
    var target := if whence.SeekSet? then offset else d.cursor + offset;
    if whence.SeekEnd? || target == d.cursor then h
    else h.(over := true, left := h.left || !ev.AbortFails?)
  }

  /** Whatever a read meets, also a failed or late callback, the stream state follows it. */
  lemma StreamFollows(heard: seq<StreamEvent>, ev: StreamEvent)
    requires !SaidEof(heard)
    ensures StreamAfter(StreamFor(heard), ev) == StreamFor(heard + [ev])
  {
    HeardMore(heard, ev);
    if ev.Called? {
      OneTotal(ev.cb);
    } else if ev.TimedOut? && ev.late.Some? {
      OneTotal(ev.late.value);
    }
  }

  /** What a read does to the stream state and the cursor, by the way it takes. */
  lemma ReadMoves(d: Desc, buf: seq<Byte>, ev: ReadEvent)
    requires InBounds(|buf|, ev)
    ensures var d' := ReadStep(d, buf, ev).desc;
      && d'.readOnly == d.readOnly
      && d'.stream == if UsesStream(d) then Some(StreamAfter(d.stream.value, ev.stream)) else d.stream
  {}

  lemma ReadTracks(d: Desc, h: History, buf: seq<Byte>, ev: ReadEvent)
    requires Tracks(d, h) && InBounds(|buf|, ev)
    ensures Tracks(ReadStep(d, buf, ev).desc, HistoryAfterRead(d, h, ev))
  {
    ReadMoves(d, buf, ev);
    if UsesStream(d) && !SaidEof(h.heard) {
      StreamFollows(h.heard, ev.stream);
    }
  }

  /** A read on the main request is a plain read. */
  lemma MainReadIsPlain(content: seq<Byte>, d: Desc, h: History, buf: seq<Byte>, ev: ReadEvent)
    requires Inv(content, d, h) && Obeys(content, d, h, |buf|, ev) && OnMain(h, d.readOnly, d.cursor)
    ensures var o := ReadStep(d, buf, ev); PlainRead(content, d.cursor, o.desc.cursor, o.buf, o.ret)
  {
    assert UsesStream(d);
  }

  /** A partial GET is a plain read. */
  lemma PartialReadIsPlain(content: seq<Byte>, d: Desc, h: History, buf: seq<Byte>, ev: ReadEvent)
    requires Inv(content, d, h) && Obeys(content, d, h, |buf|, ev) && !OnMain(h, d.readOnly, d.cursor)
    ensures var o := ReadStep(d, buf, ev); PlainRead(content, d.cursor, o.desc.cursor, o.buf, o.ret)
  {
    assert !UsesStream(d);
    if NothingFails(ev.partial) {
      FillingMeansOneCarrier(content, d.cursor, |buf|, ev.partial);
      OneCarrierIsExact(buf, ev.partial.cbs);
      TotalIsConcat(ev.partial.cbs);
    }
  }

  /** A live GET stays inside the file. */
  lemma GetStaysInside(content: seq<Byte>, d: Desc, h: History, count: nat, ev: ReadEvent)
    requires Inv(content, d, h) && Obeys(content, d, h, count, ev)
    ensures var heard := HistoryAfterRead(d, h, ev).heard;
      !Broken(heard) ==> Delivered(heard) <= |content| && (SaidEof(heard) ==> Delivered(heard) == |content|)
  {
    HeardMore(h.heard, ev.stream);
    if ev.stream.Called? {
      OneTotal(ev.stream.cb);
    }
  }

  /** Every read refines a plain cursor read, whichever way it goes and whatever the earlier
      failures did to the stream. */
  lemma ReadRefines(content: seq<Byte>, d: Desc, h: History, buf: seq<Byte>, ev: ReadEvent)
    requires Inv(content, d, h) && Obeys(content, d, h, |buf|, ev)
    ensures var o := ReadStep(d, buf, ev);
      Inv(content, o.desc, HistoryAfterRead(d, h, ev)) && PlainRead(content, d.cursor, o.desc.cursor, o.buf, o.ret)
  {
    ReadTracks(d, h, buf, ev);
    GetStaysInside(content, d, h, |buf|, ev);
    if OnMain(h, d.readOnly, d.cursor) {
      MainReadIsPlain(content, d, h, buf, ev);
    } else {
      PartialReadIsPlain(content, d, h, buf, ev);
    }
  }

  /** A read fails exactly when the way it takes fails. On the main request, unless its last
      callback said eof: when Globus refuses, times out or reports an error now, or did so in any
      earlier read. On the partial GET: when the request or any of its callbacks fails. */
  lemma ReadFailsExactly(d: Desc, h: History, buf: seq<Byte>, ev: ReadEvent)
    requires Tracks(d, h) && InBounds(|buf|, ev)
    ensures ReadStep(d, buf, ev).ret == FAILED <==>
      if OnMain(h, d.readOnly, d.cursor) then
        && !SaidEof(h.heard)
        && (Broken(h.heard) || !ev.stream.Called? || ev.stream.cb.failed)
      else !NothingFails(ev.partial)
  {}

  /** So no failure is forgotten: after a read that timed out or was told of an error, every later
      read on the main request fails, or reports end of file if the last callback did. */
  lemma ErrorSticks(d: Desc, h: History, buf: seq<Byte>, ev: ReadEvent)
    requires Tracks(d, h) && InBounds(|buf|, ev) && OnMain(h, d.readOnly, d.cursor) && Broken(h.heard)
    ensures var o := ReadStep(d, buf, ev);
      && o.ret == (if SaidEof(h.heard) then 0 else FAILED) && o.desc.cursor == d.cursor
      && Broken(HistoryAfterRead(d, h, ev).heard)
  {
    HeardMore(h.heard, ev.stream);
  }

  /** The read that follows a failed one goes by partial GET, and succeeds exactly when that does,
      if the failed one carried bytes: they have moved the stream away from the cursor. */
  lemma ReadAfterFailedRead(d: Desc, h: History, buf: seq<Byte>, ev: ReadEvent, buf2: seq<Byte>, ev2: ReadEvent)
    requires Tracks(d, h) && OnMain(h, d.readOnly, d.cursor) && InBounds(|buf|, ev) && InBounds(|buf2|, ev2)
    requires ReadStep(d, buf, ev).ret == FAILED && Total(CallbacksOf(ev.stream)) > 0
    ensures var o := ReadStep(ReadStep(d, buf, ev).desc, buf2, ev2);
      && (o.ret == FAILED <==> !NothingFails(ev2.partial))
      && (o.ret != FAILED ==> o.ret == Total(ev2.partial.cbs) && o.desc.cursor == d.cursor + o.ret)
  {
    ReadTracks(d, h, buf, ev);
    ReadFailsExactly(d, h, buf, ev);
    HeardMore(h.heard, ev.stream);
    ReadFailsExactly(ReadStep(d, buf, ev).desc, HistoryAfterRead(d, h, ev), buf2, ev2);
  }

  lemma SeekRefines(content: seq<Byte>, d: Desc, h: History, offset: int, whence: Whence, ev: AbortEvent)
    requires Inv(content, d, h)
    ensures var (d', ret) := SeekStep(d, offset, whence, ev);
      && Inv(content, d', HistoryAfterSeek(d, h, offset, whence, ev))
      && PlainSeek(d.cursor, d'.cursor, offset, whence, ev, ret) && d'.readOnly == d.readOnly
  {}

  // ---- Whole runs -----------------------------------------------------------

  datatype Op =
    | ReadOp(buf: seq<Byte>, rev: ReadEvent)
    | SeekOp(offset: int, whence: Whence, aev: AbortEvent)

  /** A descriptor and what has happened to its main request. */
  datatype State = State(d: Desc, h: History)

  /** An opened descriptor. */
  function Opened(readOnly: bool, streaming: bool): State {
    var stream := if streaming then Some(Stream(0, false, false)) else None;
    State(Desc(0, stream, readOnly), History(streaming, [], false, false))
  }

  predicate OpObeys(content: seq<Byte>, s: State, op: Op) {
    op.ReadOp? ==> Obeys(content, s.d, s.h, |op.buf|, op.rev)
  }

  function After(content: seq<Byte>, s: State, op: Op): State
    requires OpObeys(content, s, op)
  {
    match op
    case ReadOp(buf, ev) => State(ReadStep(s.d, buf, ev).desc, HistoryAfterRead(s.d, s.h, ev))
    case SeekOp(offset, whence, ev) =>
      State(SeekStep(s.d, offset, whence, ev).0, HistoryAfterSeek(s.d, s.h, offset, whence, ev))
  }

  /** Globus keeps its promises at every operation of the run. */
  predicate RunObeys(content: seq<Byte>, s: State, run: seq<Op>)
    decreases |run|
  {
    run == [] || (OpObeys(content, s, run[0]) && RunObeys(content, After(content, s, run[0]), run[1..]))
  }

  function AfterRun(content: seq<Byte>, s: State, run: seq<Op>): State
    requires RunObeys(content, s, run)
    decreases |run|
  {
    if run == [] then s else AfterRun(content, After(content, s, run[0]), run[1..])
  }

  predicate PlainStep(content: seq<Byte>, s: State, op: Op)
    requires OpObeys(content, s, op)
  {
    match op
    case ReadOp(buf, ev) =>
      var o := ReadStep(s.d, buf, ev);
      PlainRead(content, s.d.cursor, o.desc.cursor, o.buf, o.ret)
    case SeekOp(offset, whence, ev) =>
      var (d', ret) := SeekStep(s.d, offset, whence, ev);
      PlainSeek(s.d.cursor, d'.cursor, offset, whence, ev, ret)
  }

  predicate PlainRun(content: seq<Byte>, s: State, run: seq<Op>)
    requires RunObeys(content, s, run)
    decreases |run|
  {
    run == [] || (PlainStep(content, s, run[0]) && PlainRun(content, After(content, s, run[0]), run[1..]))
  }

  lemma StepRefines(content: seq<Byte>, s: State, op: Op)
    requires Inv(content, s.d, s.h) && OpObeys(content, s, op)
    ensures PlainStep(content, s, op) && Inv(content, After(content, s, op).d, After(content, s, op).h)
  {
    match op {
      case ReadOp(buf, ev) => ReadRefines(content, s.d, s.h, buf, ev);
      case SeekOp(offset, whence, ev) => SeekRefines(content, s.d, s.h, offset, whence, ev);
    }
  }

  lemma {:induction false} RunRefinesFrom(content: seq<Byte>, s: State, run: seq<Op>)
    requires Inv(content, s.d, s.h) && RunObeys(content, s, run)
    ensures PlainRun(content, s, run)
    ensures var s' := AfterRun(content, s, run); Inv(content, s'.d, s'.h)
    decreases |run|
  {
    if run != [] {
      StepRefines(content, s, run[0]);
      RunRefinesFrom(content, After(content, s, run[0]), run[1..]);
    }
  }

  /** Every run of reads and seeks on an opened descriptor is a run of a plain cursor file, and at
      its end the stream state is exactly what Globus has delivered, said and reported. */
  lemma RunRefinesPlainFile(content: seq<Byte>, readOnly: bool, streaming: bool, run: seq<Op>)
    requires RunObeys(content, Opened(readOnly, streaming), run)
    ensures PlainRun(content, Opened(readOnly, streaming), run)
    ensures var s := AfterRun(content, Opened(readOnly, streaming), run); Tracks(s.d, s.h)
  {
    RunRefinesFrom(content, Opened(readOnly, streaming), run);
  }

  /** A failed read on the main request that Globus did not refuse outright breaks it. */
  lemma FailedReadBreaks(d: Desc, h: History, buf: seq<Byte>, ev: ReadEvent)
    requires Tracks(d, h) && InBounds(|buf|, ev) && OnMain(h, d.readOnly, d.cursor)
    requires ReadStep(d, buf, ev).ret == FAILED && !ev.stream.Refused?
    ensures Broken(HistoryAfterRead(d, h, ev).heard)
  {
    ReadFailsExactly(d, h, buf, ev);
    HeardMore(h.heard, ev.stream);
  }

  /** And that lasts: after every further run, a read that goes to the main request fails, or reports
      end of file if the last callback did. */
  lemma FailuresLast(content: seq<Byte>, s: State, run: seq<Op>, buf: seq<Byte>, ev: ReadEvent)
    requires Inv(content, s.d, s.h) && Broken(s.h.heard) && RunObeys(content, s, run) && InBounds(|buf|, ev)
    ensures var s' := AfterRun(content, s, run);
      OnMain(s'.h, s'.d.readOnly, s'.d.cursor) ==>
        ReadStep(s'.d, buf, ev).ret == if SaidEof(s'.h.heard) then 0 else FAILED
  {
    RunRefinesFrom(content, s, run);
    StaysBroken(content, s, run);
    var s' := AfterRun(content, s, run);
    if OnMain(s'.h, s'.d.readOnly, s'.d.cursor) {
      ErrorSticks(s'.d, s'.h, buf, ev);
    }
  }

  /** A read of one byte by partial GET. */
  function OneByte(b: Byte): Op {
    ReadOp([0], ReadEvent(Refused, Transfer([Callback([b], true, false)], false, false)))
  }

  /** The first read of the file 7 8 times out and its byte arrives late. */
  const LATE := ReadOp([0], ReadEvent(TimedOut(Some(Callback([7], false, false))), RefusedGet))

  /** That leaves the stream ahead of the cursor, with an error. */
  lemma LateReadLeaves(content: seq<Byte>)
    ensures var s := Opened(true, true);
      && OpObeys(content, s, LATE)
      && After(content, s, LATE) ==
         State(Desc(0, Some(Stream(1, false, true)), true), History(true, [LATE.rev.stream], false, false))
    ensures Delivered([LATE.rev.stream]) == 1 && Broken([LATE.rev.stream]) && !SaidEof([LATE.rev.stream])
  {
    HeardMore([], LATE.rev.stream);
    OneTotal(Callback([7], false, false));
    assert [] + [LATE.rev.stream] == [LATE.rev.stream];
  }

  /** A dead stream can come back: a partial GET brings the cursor up to it, and the next read fails in
      the middle of the file although a partial GET would deliver. */
  lemma CaughtUpReadFails()
    ensures var content, s := [7, 8], Opened(true, true);
      && RunObeys(content, s, [LATE, OneByte(7)])
      && var s' := AfterRun(content, s, [LATE, OneByte(7)]);
      && s'.d.cursor == 1 && OpObeys(content, s', OneByte(8))
      && ReadStep(s'.d, [0], OneByte(8).rev).ret == FAILED
  {
    var content: seq<Byte>, s := [7, 8], Opened(true, true);
    LateReadLeaves(content);
    var s1 := After(content, s, LATE);
    OneByteObeys(content, s1, 0);
    var s2 := State(s1.d.(cursor := 1), s1.h);
    assert After(content, s1, OneByte(7)) == s2;
    OneByteObeys(content, s2, 1);
    ReadFailsExactly(s2.d, s2.h, [0], OneByte(8).rev);
    TwoSteps(content, s, LATE, OneByte(7));
  }

  lemma TwoSteps(content: seq<Byte>, s: State, a: Op, b: Op)
    requires OpObeys(content, s, a) && OpObeys(content, After(content, s, a), b)
    ensures RunObeys(content, s, [a, b]) && AfterRun(content, s, [a, b]) == After(content, After(content, s, a), b)
  {
    var run, s1 := [a, b], After(content, s, a);
    assert run[1..] == [b] && [b][1..] == [];
    assert RunObeys(content, After(content, s1, b), []);
    assert AfterRun(content, s1, [b]) == AfterRun(content, After(content, s1, b), []);
  }

  lemma OneByteObeys(content: seq<Byte>, s: State, i: nat)
    requires i < |content| && s.d.cursor == i && Broken(s.h.heard)
    ensures OpObeys(content, s, OneByte(content[i])) && Total(OneByte(content[i]).rev.partial.cbs) == 1
  {
    var cbs := OneByte(content[i]).rev.partial.cbs;
    OneTotal(cbs[0]);
    assert cbs[1..] == [] && Concat(cbs) == [content[i]] + [];
    assert Slice(content, i, 1) == [content[i]];
  }

  lemma {:induction false} StaysBroken(content: seq<Byte>, s: State, run: seq<Op>)
    requires RunObeys(content, s, run) && Broken(s.h.heard)
    ensures Broken(AfterRun(content, s, run).h.heard)
    decreases |run|
  {
    if run != [] {
      if run[0].ReadOp? {
        HeardMore(s.h.heard, run[0].rev.stream);
      }
      StaysBroken(content, After(content, s, run[0]), run[1..]);
    }
  }

  // ---- End of file ------------------------------------------------------------

  /** A read into a non-empty buffer reports end of file before the end exactly when it goes to the
      main request and the last callback there said eof, which only a failed or late one can. */
  lemma FalseEndOfFileExactly(content: seq<Byte>, d: Desc, h: History, buf: seq<Byte>, ev: ReadEvent)
    requires Inv(content, d, h) && Obeys(content, d, h, |buf|, ev) && |buf| > 0 && 0 <= d.cursor < |content|
    ensures ReadStep(d, buf, ev).ret == 0 <==> OnMain(h, d.readOnly, d.cursor) && SaidEof(h.heard)
    ensures ReadStep(d, buf, ev).ret == 0 ==> Broken(h.heard)
  {
    if !OnMain(h, d.readOnly, d.cursor) && NothingFails(ev.partial) {
      TotalIsConcat(ev.partial.cbs);
    }
  }

  /** Such a descriptor arises: a failed first read that carried eof and no byte makes the
      next read of a non-empty file return 0. */
  lemma FalseEndOfFileHappens()
    ensures var content, buf := [7], [0];
      var fail := ReadEvent(Called(Callback([], true, true)), RefusedGet);
      var s := Opened(true, true);
      && RunObeys(content, s, [ReadOp(buf, fail), ReadOp(buf, fail)])
      && ReadStep(s.d, buf, fail).ret == FAILED
      && ReadStep(After(content, s, ReadOp(buf, fail)).d, buf, fail).ret == 0
  {
    var content: seq<Byte>, buf: seq<Byte> := [7], [0];
    var fail := ReadEvent(Called(Callback([], true, true)), RefusedGet);
    var s := Opened(true, true);
    var run := [ReadOp(buf, fail), ReadOp(buf, fail)];
    assert run[1..] == [ReadOp(buf, fail)];
    assert run[1..][1..] == [];
  }

  /** A callback that says eof, failed or late ones included, says it at the end of the file. */
  predicate EofIsEnd(content: seq<Byte>, s: State, op: Op) {
    op.ReadOp? && OnMain(s.h, s.d.readOnly, s.d.cursor) ==>
      forall cb | cb in CallbacksOf(op.rev.stream) && cb.eof :: Delivered(s.h.heard) + |cb.data| == |content|
  }

  predicate RunEofIsEnd(content: seq<Byte>, s: State, run: seq<Op>)
    requires RunObeys(content, s, run)
    decreases |run|
  {
    run == [] || (EofIsEnd(content, s, run[0]) && RunEofIsEnd(content, After(content, s, run[0]), run[1..]))
  }

  /** No read of the run returns 0 into a non-empty buffer before the end of the file. */
  predicate NoFalseEnd(content: seq<Byte>, s: State, run: seq<Op>)
    requires RunObeys(content, s, run)
    decreases |run|
  {
    run == [] ||
    (&& (run[0].ReadOp? && ReadStep(s.d, run[0].buf, run[0].rev).ret == 0 && run[0].buf != [] ==>
           !(0 <= s.d.cursor < |content|))
     && NoFalseEnd(content, After(content, s, run[0]), run[1..]))
  }

  lemma EofStaysAtEnd(content: seq<Byte>, s: State, op: Op)
    requires OpObeys(content, s, op) && EofIsEnd(content, s, op)
    requires SaidEof(s.h.heard) ==> Delivered(s.h.heard) == |content|
    ensures var h := After(content, s, op).h; SaidEof(h.heard) ==> Delivered(h.heard) == |content|
  {
    if op.ReadOp? {
      var ev := op.rev.stream;
      HeardMore(s.h.heard, ev);
      if CallbacksOf(ev) != [] {
        assert CallbacksOf(ev)[0] in CallbacksOf(ev) && CallbacksOf(ev) == [CallbacksOf(ev)[0]];
        OneTotal(CallbacksOf(ev)[0]);
      }
    }
  }

  /** Under that condition a zero always means end of file, in every run. */
  lemma {:induction false} ZeroMeansEnd(content: seq<Byte>, s: State, run: seq<Op>)
    requires Inv(content, s.d, s.h) && (SaidEof(s.h.heard) ==> Delivered(s.h.heard) == |content|)
    requires RunObeys(content, s, run) && RunEofIsEnd(content, s, run)
    ensures NoFalseEnd(content, s, run)
    decreases |run|
  {
    if run != [] {
      StepRefines(content, s, run[0]);
      EofStaysAtEnd(content, s, run[0]);
      if run[0].ReadOp? && run[0].buf != [] && 0 <= s.d.cursor < |content| {
        FalseEndOfFileExactly(content, s.d, s.h, run[0].buf, run[0].rev);
      }
      ZeroMeansEnd(content, After(content, s, run[0]), run[1..]);
    }
  }

  // ---- The shared buffer of a partial GET ---------------------------------------

  predicate HasLengths(cbs: seq<Callback>, lens: seq<nat>) {
    |cbs| == |lens| && forall i | 0 <= i < |lens| :: |cbs[i].data| == lens[i]
  }

  /** The bytes handed to the caller are the bytes that were sent. */
  predicate Exact(buf: seq<Byte>, cbs: seq<Callback>)
    requires Fit(cbs, |buf|) && Total(cbs) <= |buf|
  {
    Filled(buf, cbs)[..Total(cbs)] == Concat(cbs)
  }

  function Sum(lens: seq<nat>): nat {
    if lens == [] then 0 else lens[0] + Sum(lens[1..])
  }

  lemma {:induction false} SumIsTotal(cbs: seq<Callback>, lens: seq<nat>)
    requires HasLengths(cbs, lens)
    ensures Total(cbs) == Sum(lens) && Fit(cbs, Sum(lens))
  {
    if lens != [] {
      SumIsTotal(cbs[1..], lens[1..]);
    }
  }

  /** The callbacks of given lengths that all carry the byte 1. */
  function Ones(lens: seq<nat>): (r: seq<Callback>)
    ensures HasLengths(r, lens)
    ensures forall i | 0 <= i < |r| :: forall k | 0 <= k < |r[i].data| :: r[i].data[k] == 1
  {
    if lens == [] then [] else [Callback(seq(lens[0], _ => 1), |lens| == 1, false)] + Ones(lens[1..])
  }

  lemma {:induction false} OnesOverwrite(buf: seq<Byte>, lens: seq<nat>)
    requires Fit(Ones(lens), |buf|) && |buf| > 0
    requires buf[0] == 1 || Sum(lens) > 0
    ensures Filled(buf, Ones(lens))[0] == 1
    decreases |lens|
  {
    if lens != [] {
      var cbs := Ones(lens);
      assert cbs[1..] == Ones(lens[1..]);
      var buf1 := Overlay(buf, cbs[0].data);
      assert buf1[0] == if lens[0] > 0 then 1 else buf[0];
      OnesOverwrite(buf1, lens[1..]);
    }
  }

  predicate OnePositive(lens: seq<nat>) {
    forall i, j | 0 <= i < j < |lens| :: lens[i] == 0 || lens[j] == 0
  }

  /** Adds a callback of zeros in front. */
  lemma PutFirst(buf: seq<Byte>, lens: seq<nat>, rest: seq<Callback>) returns (cbs: seq<Callback>)
    requires lens != [] && HasLengths(rest, lens[1..]) && Sum(lens) <= |buf|
    ensures HasLengths(cbs, lens) && cbs[1..] == rest && forall k | 0 <= k < lens[0] :: cbs[0].data[k] == 0
    ensures Fit(cbs, |buf|) && Fit(rest, |buf|) && Total(cbs) == Sum(lens) && Concat(cbs) == cbs[0].data + Concat(rest)
    ensures Filled(buf, cbs) == Filled(Overlay(buf, cbs[0].data), rest)
  {
    cbs := [Callback(seq(lens[0], _ => 0), |lens| == 1, false)] + rest;
    SumIsTotal(cbs, lens);
    SumIsTotal(rest, lens[1..]);
  }

  /** With two carriers, a file whose first carrier holds 0s and whose others hold 1s comes
      back with a 1 in front. */
  lemma {:induction false} TwoCarriersCorrupt(buf: seq<Byte>, lens: seq<nat>) returns (cbs: seq<Callback>)
    requires Sum(lens) <= |buf| && !OnePositive(lens)
    ensures HasLengths(cbs, lens) && Fit(cbs, |buf|) && Total(cbs) == Sum(lens)
    ensures |Concat(cbs)| > 0 && Concat(cbs)[0] == 0 && Filled(buf, cbs)[0] == 1
    decreases |lens|
  {
    var i, j :| 0 <= i < j < |lens| && lens[i] > 0 && lens[j] > 0;
    if lens[0] > 0 {
      SumHas(lens[1..], j - 1);
      cbs := PutFirst(buf, lens, Ones(lens[1..]));
      OnesOverwrite(Overlay(buf, cbs[0].data), lens[1..]);
    } else {
      assert lens[1..][i - 1] > 0 && lens[1..][j - 1] > 0;
      var rest := TwoCarriersCorrupt(buf, lens[1..]);
      cbs := PutFirst(buf, lens, rest);
      assert Overlay(buf, cbs[0].data) == buf;
    }
  }

  lemma {:induction false} SumHas(lens: seq<nat>, i: nat)
    requires i < |lens|
    ensures Sum(lens) >= lens[i]
  {
    if i > 0 {
      SumHas(lens[1..], i - 1);
    }
  }

  /** For a given pattern of callback lengths, the shared buffer is right for every file
      content exactly when a single callback carries all bytes. */
  lemma SharedBufferExactly(buf: seq<Byte>, lens: seq<nat>)
    requires Sum(lens) <= |buf|
    ensures (forall cbs: seq<Callback> | HasLengths(cbs, lens) && Fit(cbs, |buf|) && Total(cbs) <= |buf| ::
               Exact(buf, cbs))
            <==> OnePositive(lens)
  {
    if OnePositive(lens) {
      forall cbs: seq<Callback> | HasLengths(cbs, lens) && Fit(cbs, |buf|) && Total(cbs) <= |buf|
        ensures Exact(buf, cbs)
      {
        assert OneCarrier(cbs);
        OneCarrierIsExact(buf, cbs);
      }
    } else {
      var cbs := TwoCarriersCorrupt(buf, lens);
      TotalIsConcat(cbs);
      assert Filled(buf, cbs)[..Total(cbs)][0] == 1;
      assert !Exact(buf, cbs);
    }
  }
}
