/** The copy through the local host: unlink_if_exists, streamed_copy and perform_local_copy of
    src/core/transfer/gfal_transfer_localcopy.c.

    The source is a fixed sequence of bytes. The environment decides how reads and writes split
    or fail, and when the user cancels or the timeout expires. */
module LocalCopy {
  import opened CStrings
  import opened Checksums
  import P = TransferParams

  type Byte = b: int | 0 <= b < 256

  const SUM_SIZE: nat := 1023
  const CMP_LEN: nat := 1204

  /** What is at the destination; a special file takes bytes and keeps none. */
  datatype File = Missing | Regular(bytes: seq<Byte>) | Special

  datatype ReadAnswer = ReadFails | ReadUpTo(limit: int)

  /** A write fails, or stores at most this many of the bytes it is given. */
  datatype WriteAnswer = WriteFails | WriteUpTo(limit: nat)

  /** What happens in round k: the read, the write, and a cancellation or timeout after them. */
  datatype Round = Round(read: ReadAnswer, write: WriteAnswer, stopped: bool)

  datatype Transfer = Transfer(
    openSourceFails: bool, openDestinationFails: bool, closeFails: bool,
    bufferSize: nat,
    round: nat -> Round)

  ghost predicate ReadsProgress(t: Transfer) {
    forall k: nat :: t.round(k).read.ReadUpTo? ==> t.round(k).read.limit > 0
  }

  /** Nothing fails, and nobody stops the transfer. */
  ghost predicate Smooth(t: Transfer) {
    && !t.openSourceFails && !t.openDestinationFails && !t.closeFails && t.bufferSize > 0
    && forall k: nat :: t.round(k).read.ReadUpTo? && t.round(k).write.WriteUpTo? && !t.round(k).stopped
  }

  function Min(x: int, y: int): int { if x < y then x else y }

  /** The destination after writing data over the start of what was there: it is not truncated. */
  function Overwritten(before: File, data: seq<Byte>): File {
    match before
    case Missing => Regular(data)
    case Regular(old') => Regular(data + if |data| <= |old'| then old'[|data|..] else [])
    case Special => Special
  }

  lemma OverwriteMore(before: File, data: seq<Byte>, more: seq<Byte>)
    requires !before.Special?
    ensures var now := Overwritten(before, data); var then' := Overwritten(before, data + more);
      && now.Regular? && then'.Regular?
      && then'.bytes == data + more + (if |data + more| <= |now.bytes| then now.bytes[|data + more|..] else [])
  {
    if before.Regular? && |data + more| <= |before.bytes| {
      assert before.bytes[|data|..][|more|..] == before.bytes[|data + more|..];
      assert (data + before.bytes[|data|..])[|data + more|..] == before.bytes[|data|..][|more|..];
    }
  }

  // ---- The rounds of a transfer ------------------------------------------------------------

  /** The bytes that the read of round k gives at a position of the source; negative for an error. */
  function Got(src: seq<Byte>, t: Transfer, pos: nat, k: nat): (n: int)
    requires pos <= |src|
    ensures n <= |src| - pos
  {
    if t.bufferSize == 0 || t.round(k).read.ReadFails? then -1
    else Min(Min(t.bufferSize, t.round(k).read.limit), |src| - pos)
  }

  /** The bytes that the write of round k stores. */
  function StoredBy(src: seq<Byte>, t: Transfer, pos: nat, k: nat): seq<Byte>
    requires pos <= |src|
  {
    var got := Got(src, t, pos, k);
    if got > 0 && t.round(k).write.WriteUpTo? then src[pos..pos + Min(t.round(k).write.limit, got)] else []
  }

  /** Round k is followed by another one. */
  predicate GoesOn(src: seq<Byte>, t: Transfer, pos: nat, k: nat)
    requires pos <= |src|
  {
    Got(src, t, pos, k) > 0 && t.round(k).write.WriteUpTo? && !t.round(k).stopped
  }

  /** All that the rounds from k on store. */
  function Stored(src: seq<Byte>, t: Transfer, pos: nat, k: nat): seq<Byte>
    requires pos <= |src|
    decreases |src| - pos
  {
    StoredBy(src, t, pos, k) +
    if GoesOn(src, t, pos, k) then Stored(src, t, pos + Got(src, t, pos, k), k + 1) else []
  }

  /** Some round that is reached stores fewer bytes than it has read, without an error. */
  predicate FellShort(src: seq<Byte>, t: Transfer, pos: nat, k: nat)
    requires pos <= |src|
    decreases |src| - pos
  {
    var got := Got(src, t, pos, k);
    || (got > 0 && t.round(k).write.WriteUpTo? && t.round(k).write.limit < got)
    || (GoesOn(src, t, pos, k) && FellShort(src, t, pos + got, k + 1))
  }

  /** The rounds from k on reach the end of the source without an error or a stop. */
  predicate Completes(src: seq<Byte>, t: Transfer, pos: nat, k: nat)
    requires pos <= |src|
    decreases |src| - pos
  {
    if GoesOn(src, t, pos, k) then Completes(src, t, pos + Got(src, t, pos, k), k + 1)
    else Got(src, t, pos, k) == 0 && !t.round(k).stopped
  }

  lemma SlicesConcat(src: seq<Byte>, pos: nat, next: nat)
    requires pos <= next <= |src|
    ensures src[pos..next] + src[next..] == src[pos..]
  {}

  lemma {:induction false} FullWritesStoreAll(src: seq<Byte>, t: Transfer, pos: nat, k: nat)
    requires ReadsProgress(t) && pos <= |src| && Completes(src, t, pos, k) && !FellShort(src, t, pos, k)
    ensures Stored(src, t, pos, k) == src[pos..]
    decreases |src| - pos
  {
    if GoesOn(src, t, pos, k) {
      var next := pos + Got(src, t, pos, k);
      FullWritesStoreAll(src, t, next, k + 1);
      SlicesConcat(src, pos, next);
      assert Stored(src, t, pos, k) == StoredBy(src, t, pos, k) + Stored(src, t, next, k + 1);
    } else {
      assert pos == |src|;
    }
  }

  lemma {:induction false} StoredIsNoLonger(src: seq<Byte>, t: Transfer, pos: nat, k: nat)
    requires pos <= |src|
    ensures |Stored(src, t, pos, k)| <= |src| - pos
    ensures Completes(src, t, pos, k) && FellShort(src, t, pos, k) ==> |Stored(src, t, pos, k)| < |src| - pos
    decreases |src| - pos
  {
    if GoesOn(src, t, pos, k) {
      StoredIsNoLonger(src, t, pos + Got(src, t, pos, k), k + 1);
    }
  }

  /** A transfer that reached the end has stored the source exactly when no write fell short. */
  lemma StoredIsSourceExactly(src: seq<Byte>, t: Transfer)
    requires ReadsProgress(t) && Completes(src, t, 0, 0)
    ensures Stored(src, t, 0, 0) == src <==> !FellShort(src, t, 0, 0)
  {
    StoredIsNoLonger(src, t, 0, 0);
    if !FellShort(src, t, 0, 0) {
      FullWritesStoreAll(src, t, 0, 0);
      assert src[0..] == src;
    }
  }

  /** The round moves the transfer from one position to a later one without an error or a stop. */
  predicate Moves(src: seq<Byte>, t: Transfer, pos: nat, next: nat, round: Round) {
    && round.read.ReadUpTo? && round.write.WriteUpTo? && !round.stopped
    && pos < next == pos + Min(Min(t.bufferSize, round.read.limit), |src| - pos)
  }

  /** The positions of a transfer from pos and round k on to the end of the source. */
  ghost predicate Itinerary(src: seq<Byte>, t: Transfer, pos: nat, k: nat, stops: seq<nat>) {
    && t.bufferSize > 0 && stops != [] && stops[0] == pos && stops[|stops| - 1] == |src|
    && (forall i, j | 0 <= i < |stops| && 0 <= j < |stops| && j == i + 1 ::
          Moves(src, t, stops[i], stops[j], t.round(k + i)))
    && var last := t.round(k + |stops| - 1);
    last.read.ReadUpTo? && !last.stopped
  }

  lemma ItineraryTail(src: seq<Byte>, t: Transfer, pos: nat, k: nat, stops: seq<nat>)
    requires Itinerary(src, t, pos, k, stops) && |stops| > 1
    ensures Moves(src, t, pos, stops[1], t.round(k)) && Itinerary(src, t, stops[1], k + 1, stops[1..])
  {
    assert Moves(src, t, stops[0], stops[1], t.round(k + 0));
    var tail := stops[1..];
    forall i, j | 0 <= i < |tail| && 0 <= j < |tail| && j == i + 1
      ensures Moves(src, t, tail[i], tail[j], t.round(k + 1 + i))
    {
      assert Moves(src, t, stops[i + 1], stops[j + 1], t.round(k + (i + 1)));
    }
  }

  lemma ItineraryCons(src: seq<Byte>, t: Transfer, pos: nat, k: nat, stops: seq<nat>)
    requires stops != [] && Itinerary(src, t, stops[0], k + 1, stops) && Moves(src, t, pos, stops[0], t.round(k))
    ensures Itinerary(src, t, pos, k, [pos] + stops)
  {
    var all := [pos] + stops;
    forall i, j | 0 <= i < |all| && 0 <= j < |all| && j == i + 1
      ensures Moves(src, t, all[i], all[j], t.round(k + i))
    {
      if i > 0 {
        assert Moves(src, t, stops[i - 1], stops[i], t.round(k + 1 + (i - 1)));
      }
    }
  }

  /** A transfer completes exactly when rounds without an error or a stop lead it to the end of the
      source and the read that finds the end goes well too. */
  lemma {:induction false} CompletesExactly(src: seq<Byte>, t: Transfer, pos: nat, k: nat)
    requires ReadsProgress(t) && pos <= |src|
    ensures Completes(src, t, pos, k) <==> exists stops :: Itinerary(src, t, pos, k, stops)
    decreases |src| - pos
  {
    if GoesOn(src, t, pos, k) {
      var next := pos + Got(src, t, pos, k);
      CompletesExactly(src, t, next, k + 1);
      if Completes(src, t, next, k + 1) {
        var stops :| Itinerary(src, t, next, k + 1, stops);
        ItineraryCons(src, t, pos, k, stops);
      }
    } else if Completes(src, t, pos, k) {
      assert Itinerary(src, t, pos, k, [pos]);
    }
    if stops :| Itinerary(src, t, pos, k, stops) {
      if |stops| > 1 {
        ItineraryTail(src, t, pos, k, stops);
        assert GoesOn(src, t, pos, k) && stops[1] == pos + Got(src, t, pos, k);
      } else {
        assert pos == |src|;
      }
    }
  }

  lemma {:induction false} SmoothCompletes(src: seq<Byte>, t: Transfer, pos: nat, k: nat)
    requires ReadsProgress(t) && Smooth(t) && pos <= |src|
    ensures Completes(src, t, pos, k)
    decreases |src| - pos
  {
    if GoesOn(src, t, pos, k) {
      SmoothCompletes(src, t, pos + Got(src, t, pos, k), k + 1);
    }
  }

  /** Both ends are opened, all rounds and the closes go well. */
  predicate Succeeds(src: seq<Byte>, t: Transfer) {
    !t.openSourceFails && !t.openDestinationFails && Completes(src, t, 0, 0) && !t.closeFails
  }

  /** What a transfer makes of the destination. */
  function Transferred(before: File, src: seq<Byte>, t: Transfer): File {
    if t.openSourceFails || t.openDestinationFails then before else Overwritten(before, Stored(src, t, 0, 0))
  }

  // ---- The checksum phases -----------------------------------------------------------------

  datatype SumAnswer = SumFails | Sum(value: string)

  /** The answers of the environment to one call, besides the transfer itself. */
  datatype Call = Call(
    srcSum: SumAnswer, dstSum: SumAnswer,
    parentFails: bool, statFails: bool, unlinkFails: bool,
    transfer: Transfer)

  /** The user's checksum as it fits the local buffer. */
  function User(c: P.Checksum): string { if c.value.Some? then Take(c.value.value, SUM_SIZE) else "" }

  function SourceSum(c: P.Checksum, call: Call): string {
    if c.mode.source && call.srcSum.Sum? then call.srcSum.value else ""
  }

  /** What the destination is compared with: the user's value if there is one, else the source's. */
  function Expected(c: P.Checksum, call: Call): string {
    if User(c) != "" then User(c) else SourceSum(c, call)
  }

  /** The checksum of the destination, if asked for, was obtained and is the expected one. */
  predicate TargetPasses(c: P.Checksum, dstSum: SumAnswer, call: Call) {
    c.mode.target ==>
      && dstSum.Sum?
      && Same(if P.HasValue(c.value) then Take(c.value.value, SUM_SIZE)
              else if c.mode.source && call.srcSum.Sum? then call.srcSum.value
              else "", dstSum.value, CMP_LEN)
  }

  /** With the target bit set, a comparison always takes place: some destination checksum is refused. */
  lemma TargetIsAlwaysCompared(c: P.Checksum, call: Call)
    requires c.mode.target
    ensures exists value: string :: !TargetPasses(c, Sum(value), call)
  {
    DiffersFrom(Expected(c, call), CMP_LEN);
    assert !TargetPasses(c, Sum(Other(Expected(c, call))), call);
  }

  /** The preparation lets the transfer begin. */
  ghost predicate Cleared(params: P.Params, file: File, call: Call)
    reads params
  {
    params.strict ||
    (&& (params.checksum.mode.source ==>
           && call.srcSum.Sum?
           && (P.HasValue(params.checksum.value) && call.srcSum.value != "" ==>
                 Same(Take(params.checksum.value.value, SUM_SIZE), call.srcSum.value, SUM_SIZE + 1)))
     && !(params.createParent && call.parentFails) && !call.statFails
     && (file.Regular? ==> params.replace && !call.unlinkFails))
  }

  /** What the preparation leaves at the destination. */
  ghost function Start(params: P.Params, file: File): File
    reads params
  {
    if !params.strict && file.Regular? then Missing else file
  }

  // ---- The destination -----------------------------------------------------------------------

  class Destination {
    var file: File
    var offset: nat

    /** Opening for writing creates a missing file and truncates nothing. */
    method Open()
      modifies this
      ensures offset == 0 && file == Overwritten(old(file), [])
    {
      offset := 0;
      if file.Missing? {
        file := Regular([]);
      }
      assert file.Regular? ==> [] + file.bytes[0..] == file.bytes;
    }

    method Write(data: seq<Byte>)
      requires file.Regular? ==> offset <= |file.bytes|
      modifies this
      ensures offset == old(offset) + |data|
      ensures old(file).Regular? ==>
                var b := old(file.bytes);
                file == Regular(b[..old(offset)] + data + if offset <= |b| then b[offset..] else [])
      ensures !old(file).Regular? ==> file == old(file)
    {
      if file.Regular? {
        var b := file.bytes;
        file := Regular(b[..offset] + data + if offset + |data| <= |b| then b[offset + |data|..] else []);
      }
      offset := offset + |data|;
    }

    /** unlink_if_exists, given what stat and unlink answer: the existing file may be replaced, is
        special and kept, or stops the copy. */
    method UnlinkIfExists(replace: bool, statFails: bool, unlinkFails: bool) returns (ok: bool)
      modifies this
      ensures ok <==> !statFails && (old(file).Regular? ==> replace && !unlinkFails)
      ensures file == if ok && old(file).Regular? then Missing else old(file)
    {
      if statFails {
        return false;
      }
      if file.Missing? || file.Special? {
        return true;
      }
      if !replace {
        return false;
      }
      if unlinkFails {
        return false;
      }
      file := Missing;
      ok := true;
    }

    /** streamed_copy: the read and write loop. The bytes that its rounds store overwrite the start
        of the destination, also when it fails later. */
    method StreamedCopy(src: seq<Byte>, t: Transfer) returns (ok: bool)
      requires ReadsProgress(t)
      modifies this
      ensures ok <==> Succeeds(src, t)
      ensures file == Transferred(old(file), src, t)
    {
      if t.openSourceFails || t.openDestinationFails {
        return false;
      }
      ghost var before, written := file, [];
      ghost var end := Rest(src, t, 0, 0, []);
      RestIsStored(src, t, 0, 0, []);
      assert [] + Stored(src, t, 0, 0) == Stored(src, t, 0, 0);
      Open();
      var pos, k, failed, got := 0, 0, false, 1;
      while got > 0 && !failed
        invariant pos <= |src| && file == Overwritten(before, written) && offset == |written|
        invariant end == if got > 0 && !failed then Rest(src, t, pos, k, written) else End(written, !failed)
        decreases if got > 0 && !failed then 1 else 0, |src| - pos
      {
        got, failed := DoRound(src, t, pos, k, before, written);
        written := written + StoredBy(src, t, pos, k);
        pos, k := if got > 0 then pos + got else pos, k + 1;
      }
      ok := !failed && !t.closeFails;
    }

    /** One round of the loop: a read, a write of what it gave, and the checks after them. */
    method DoRound(src: seq<Byte>, t: Transfer, pos: nat, k: nat, ghost before: File, ghost written: seq<Byte>)
      returns (got: int, failed: bool)
      requires pos <= |src| && file == Overwritten(before, written) && offset == |written|
      modifies this
      ensures got == Got(src, t, pos, k)
      ensures failed <==> got < 0 || (got > 0 && t.round(k).write.WriteFails?) || t.round(k).stopped
      ensures var data := StoredBy(src, t, pos, k);
        file == Overwritten(before, written + data) && offset == |written + data|
    {
      var round := t.round(k);
      got := if t.bufferSize == 0 || round.read.ReadFails? then -1
             else Min(Min(t.bufferSize, round.read.limit), |src| - pos);
      failed := got < 0;
      if got > 0 {
        var chunk := src[pos..pos + got];
        failed := WriteRound(before, written, chunk, round.write);
        assert !failed ==> chunk[..Min(round.write.limit, got)] == StoredBy(src, t, pos, k);
      } else {
        assert written + [] == written;
      }
      if round.stopped {
        failed := true;
      }
    }

    /** The write of one round, whose result is not looked at. */
    method WriteRound(ghost before: File, ghost written: seq<Byte>, chunk: seq<Byte>, answer: WriteAnswer)
      returns (failed: bool)
      requires file == Overwritten(before, written) && offset == |written|
      modifies this
      ensures failed <==> answer.WriteFails?
      ensures var data := if failed then [] else chunk[..Min(answer.limit, |chunk|)];
        file == Overwritten(before, written + data) && offset == |written + data|
    {
      failed := answer.WriteFails?;
      if failed {
        assert written + [] == written;
      } else {
        var data := chunk[..Min(answer.limit, |chunk|)];
        WriteAt(before, written, data);
        Write(data);
      }
    }

    /** perform_local_copy. In strict mode only the transfer is done. The result is 0 exactly when
        the preparation, the transfer and the checksums that were asked for pass. Without strict mode
        an existing regular destination is never touched unless replace is set, and after a success
        a regular or missing one holds the source exactly when no write fell short. */
    method PerformLocalCopy(params: P.Params, src: seq<Byte>, c: Call) returns (ret: int)
      requires ReadsProgress(c.transfer) && P.Comparable(params.checksum)
      modifies this
      ensures ret == 0 || ret == -1
      ensures ret == 0 <==>
                && Cleared(params, old(file), c) && Succeeds(src, c.transfer)
                && (params.strict || TargetPasses(params.checksum, c.dstSum, c))
      ensures !Cleared(params, old(file), c) ==> file == old(file)
      ensures Cleared(params, old(file), c) ==> file == Transferred(Start(params, old(file)), src, c.transfer)
      ensures !params.strict && !params.replace && old(file).Regular? ==> file == old(file) && ret == -1
      ensures ret == 0 && !params.strict && !old(file).Special? ==>
                (file == Regular(src) <==> !FellShort(src, c.transfer, 0, 0))
      ensures ret == 0 && params.strict && old(file).Regular? && !FellShort(src, c.transfer, 0, 0) ==>
                && file == Regular(src + if |src| <= |old(file).bytes| then old(file).bytes[|src|..] else [])
                && (file == Regular(src) <==> |old(file).bytes| <= |src|)
      ensures ret == 0 && !params.strict && params.checksum.mode.target && (c.srcSum.Sum? ==> c.srcSum.value != "") ==>
                && c.dstSum.Sum? && (P.HasValue(params.checksum.value) || c.srcSum.Sum?)
                && Same(if P.HasValue(params.checksum.value) then Take(params.checksum.value.value, SUM_SIZE)
                        else c.srcSum.value, c.dstSum.value, CMP_LEN)
      ensures Smooth(c.transfer) && Cleared(params, old(file), c) ==>
                params.strict || TargetPasses(params.checksum, c.dstSum, c) ==> ret == 0
    {
      SmoothMeansSuccess(src, c.transfer);
      TransferredIsSourceExactly(Start(params, file), src, c.transfer);
      var srcSum := "";
      if !params.strict {
        var ok;
        ok, srcSum := CheckSource(params.checksum, c);
        if !ok {
          return -1;
        }
      }
      if !params.strict {
        if params.createParent && c.parentFails {
          return -1;
        }
        var clear := UnlinkIfExists(params.replace, c.statFails, c.unlinkFails);
        if !clear {
          return -1;
        }
      }
      var ok := StreamedCopy(src, c.transfer);
      if !ok {
        return -1;
      }
      if !params.strict {
        ok := CheckTarget(params.checksum, srcSum, c);
        if !ok {
          return -1;
        }
      }
      ret := 0;
    }
  }

  /** The source checksum phase. */
  method CheckSource(c: P.Checksum, call: Call) returns (ok: bool, srcSum: string)
    ensures ok <==>
              c.mode.source ==>
                && call.srcSum.Sum?
                && (P.HasValue(c.value) && call.srcSum.value != "" ==>
                      Same(Take(c.value.value, SUM_SIZE), call.srcSum.value, SUM_SIZE + 1))
    ensures ok ==> srcSum == if c.mode.source then call.srcSum.value else ""
  {
    ok, srcSum := true, "";
    if c.mode.source {
      if call.srcSum.SumFails? {
        return false, "";
      }
      srcSum := call.srcSum.value;
    }
    var user := User(c);
    if user != "" && srcSum != "" {
      ok := Same(user, srcSum, SUM_SIZE + 1);
    }
  }

  /** The destination checksum phase. */
  method CheckTarget(c: P.Checksum, srcSum: string, call: Call) returns (ok: bool)
    requires c.mode.source ==> call.srcSum.Sum?
    requires srcSum == if c.mode.source then call.srcSum.value else ""
    ensures ok <==> TargetPasses(c, call.dstSum, call)
  {
    var against := User(c);
    if against == "" {
      against := srcSum;
    }
    ok := true;
    if c.mode.target {
      if call.dstSum.SumFails? {
        return false;
      }
      ok := Same(against, call.dstSum.value, CMP_LEN);
    }
  }

  lemma SmoothMeansSuccess(src: seq<Byte>, t: Transfer)
    requires ReadsProgress(t)
    ensures Smooth(t) ==> Succeeds(src, t)
  {
    if Smooth(t) {
      SmoothCompletes(src, t, 0, 0);
    }
  }

  /** After a successful transfer a missing destination holds the source exactly when no write fell
      short; an existing regular one keeps its tail. */
  lemma TransferredIsSourceExactly(before: File, src: seq<Byte>, t: Transfer)
    requires ReadsProgress(t)
    ensures Succeeds(src, t) && before.Missing? ==>
              (Transferred(before, src, t) == Regular(src) <==> !FellShort(src, t, 0, 0))
    ensures Succeeds(src, t) && before.Regular? && !FellShort(src, t, 0, 0) ==>
              && Transferred(before, src, t) ==
                 Regular(src + if |src| <= |before.bytes| then before.bytes[|src|..] else [])
              && (Transferred(before, src, t) == Regular(src) <==> |before.bytes| <= |src|)
  {
    if Succeeds(src, t) {
      StoredIsSourceExactly(src, t);
      if before.Regular? && !FellShort(src, t, 0, 0) {
        var tail := if |src| <= |before.bytes| then before.bytes[|src|..] else [];
        assert |src + tail| == |src| <==> |before.bytes| <= |src|;
        assert tail == [] ==> src + tail == src;
      }
    }
  }

  /** How the loop ends that stands before round k and has written so much. */
  datatype End = End(written: seq<Byte>, completed: bool)

  function Rest(src: seq<Byte>, t: Transfer, pos: nat, k: nat, written: seq<Byte>): End
    requires pos <= |src|
    decreases |src| - pos
  {
    var data, got := StoredBy(src, t, pos, k), Got(src, t, pos, k);
    if GoesOn(src, t, pos, k) then Rest(src, t, pos + got, k + 1, written + data)
    else End(written + data, got == 0 && !t.round(k).stopped)
  }

  lemma {:induction false} RestIsStored(src: seq<Byte>, t: Transfer, pos: nat, k: nat, written: seq<Byte>)
    requires pos <= |src|
    ensures Rest(src, t, pos, k, written) == End(written + Stored(src, t, pos, k), Completes(src, t, pos, k))
    decreases |src| - pos
  {
    var data, got := StoredBy(src, t, pos, k), Got(src, t, pos, k);
    if GoesOn(src, t, pos, k) {
      RestIsStored(src, t, pos + got, k + 1, written + data);
      ConcatAssociates(written, data, Stored(src, t, pos + got, k + 1));
    } else {
      assert data + [] == data;
    }
  }

  /** A short write goes unnoticed: the copy of two bytes reports success and stores one. */
  method ShortWriteGoesUnnoticed(dst: Destination) returns (ret: int)
    requires dst.file.Missing?
    modifies dst
    ensures ret == 0 && dst.file == Regular([7])
  {
    var t := Transfer(false, false, false, 2, (k: nat) => Round(ReadUpTo(2), WriteUpTo(1), false));
    var params := new P.Params();
    var src: seq<Byte> := [7, 8];
    assert Got(src, t, 0, 0) == 2 && Got(src, t, 2, 1) == 0;
    assert Stored(src, t, 2, 1) == [];
    assert Stored(src, t, 0, 0) == src[0..1] + [] == [7];
    ret := dst.PerformLocalCopy(params, src, Call(SumFails, SumFails, false, false, false, t));
  }

  /** Writing at the end of what this copy has stored so far. */
  lemma WriteAt(before: File, written: seq<Byte>, data: seq<Byte>)
    ensures var now := Overwritten(before, written);
      now.Regular? ==>
        && |written| <= |now.bytes| && now.bytes[..|written|] == written
        && var e := |written| + |data|;
        Overwritten(before, written + data) ==
        Regular(now.bytes[..|written|] + data + if e <= |now.bytes| then now.bytes[e..] else [])
    ensures before.Special? ==> Overwritten(before, written).Special? && Overwritten(before, written + data).Special?
  {
    if !before.Special? {
      OverwriteMore(before, written, data);
    }
  }
}
