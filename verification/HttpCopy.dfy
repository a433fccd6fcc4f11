/** The HTTP copy: HttpCopyMode of src/plugins/http/gfal_http_plugin_copy.h and the overwrite,
    fallback, cleanup and checksum phases of gfal_http_copy in
    src/plugins/http/gfal_http_copy.cpp.

    The remote ends are an environment: it says how each attempt ends, what file it leaves at
    the destination, and whether unlinking works. */
module HttpCopy {
  import opened Wrappers
  import opened CStrings
  import opened Checksums

  const EPERM: int := 1
  const ENOENT: int := 2
  const EIO: int := 5
  const EACCES: int := 13
  const EEXIST: int := 17
  const ENOSYS: int := 38
  const ENOTSUP: int := 95
  const ECANCELED: int := 125
  const CHK_LEN: nat := 1024

  // ---- The copy mode -------------------------------------------------------------------

  datatype CopyMode = Pull | Push | Stream | NoMode

  /** A per-storage boolean option: -1, 0 or 1 in the source. */
  datatype Tri = Unset | Off | On

  /** The options that the choice of mode reads, for both ends and globally. */
  datatype Options = Options(
    srcIsHttp: bool,
    srcRemote: Tri, dstRemote: Tri, remote: bool,
    srcStream: Tri, dstStream: Tri, stream: bool,
    srcFallback: Tri, dstFallback: Tri, fallback: bool,
    srcQuery: CopyMode, dstQuery: CopyMode,
    srcDefault: CopyMode, dstDefault: CopyMode, globalDefault: CopyMode)

  /** A copy_mode query argument names pull, push or nothing. */
  predicate QueryIsTpc(o: Options) { !o.srcQuery.Stream? && !o.dstQuery.Stream? }

  /** Per-storage options win over the global one; an unset one counts as true beside a set one. */
  predicate Enabled(src: Tri, dst: Tri, global: bool) {
    if !src.Unset? || !dst.Unset? then !src.Off? && !dst.Off? else global
  }

  predicate FallbackEnabled(o: Options) { Enabled(o.srcFallback, o.dstFallback, o.fallback) }

  function Pick(a: CopyMode, b: CopyMode): CopyMode { if a.NoMode? then b else a }

  predicate ShouldFallback(code: int) { code !in {ECANCELED, EPERM, ENOENT, EACCES} }

  function Next(mode: CopyMode, streaming: bool): CopyMode {
    if mode.Pull? then Push else if mode.Push? && streaming then Stream else NoMode
  }

  datatype ModeState = ModeState(mode: CopyMode, streamingOnly: bool, streamingEnabled: bool)

  predicate ThirdParty(o: Options) { o.srcIsHttp && Enabled(o.srcRemote, o.dstRemote, o.remote) }

  function Constructed(o: Options): ModeState {
    if !ThirdParty(o) then ModeState(Stream, true, true)
    else
      var streaming := Enabled(o.srcStream, o.dstStream, o.stream);
      var mode :=
        Pick(Pick(Pick(o.srcQuery, o.dstQuery), Pick(o.srcDefault, o.dstDefault)), Pick(o.globalDefault, Pull));
      ModeState(mode, mode.Stream?, streaming)
  }

  /** A mode from the query switches the global fallback off and remote copies on. */
  function Configured(o: Options): Options {
    if ThirdParty(o) && !Pick(o.srcQuery, o.dstQuery).NoMode? then o.(remote := true, fallback := false) else o
  }

  class HttpCopyMode {
    var mode: CopyMode
    const streamingOnly: bool
    const streamingEnabled: bool

    ghost function Model(): ModeState
      reads this
    {
      ModeState(mode, streamingOnly, streamingEnabled)
    }

    constructor (mode: CopyMode, streamingOnly: bool, streamingEnabled: bool)
      ensures Model() == ModeState(mode, streamingOnly, streamingEnabled)
    {
      this.mode, this.streamingOnly, this.streamingEnabled := mode, streamingOnly, streamingEnabled;
    }

    method Advance()
      modifies this
      ensures Model() == old(Model()).(mode := Next(old(mode), streamingEnabled))
    {
      if mode == Pull {
        mode := Push;
      } else if mode == Push && streamingEnabled {
        mode := Stream;
      } else {
        mode := NoMode;
      }
    }
  }

  /** ConstructCopyMode, which also writes the configuration. */
  method ConstructCopyMode(o: Options) returns (m: HttpCopyMode, o': Options)
    ensures fresh(m) && m.Model() == Constructed(o) && o' == Configured(o)
  {
    o' := o;
    if !o.srcIsHttp || !Enabled(o.srcRemote, o.dstRemote, o.remote) {
      m := new HttpCopyMode(Stream, true, true);
      return;
    }
    var streaming := Enabled(o.srcStream, o.dstStream, o.stream);
    var mode := o.srcQuery;
    if mode == NoMode {
      mode := o.dstQuery;
    }
    if mode != NoMode {
      o' := o.(remote := true, fallback := false);
      m := new HttpCopyMode(mode, mode == Stream, streaming);
      return;
    }
    mode := o.srcDefault;
    if mode == NoMode {
      mode := o.dstDefault;
    }
    if mode == NoMode {
      mode := o.globalDefault;
      if mode == NoMode {
        mode := Pull;
      }
    }
    m := new HttpCopyMode(mode, mode == Stream, streaming);
  }

  // ---- The attempts -----------------------------------------------------------------------

  type File = seq<int>

  /** How an attempt ends: it fails with a code or not, and this file is then at the destination. */
  datatype Outcome = Outcome(failure: Option<int>, leaves: Option<File>)

  /** The k-th attempt of the call, and whether the unlink after it works. */
  datatype World = World(attempt: nat -> Outcome, unlinkWorks: nat -> bool)

  /** One attempt that really ran: its mode, the destination before it, and its end. */
  datatype Try = Try(mode: CopyMode, before: Option<File>, outcome: Outcome)

  datatype LoopResult = LoopResult(ret: int, tries: seq<Try>, dest: Option<File>)

  /** A mode in which the body of the loop runs an attempt or refuses one; in any other stream
      state it would leave the result of the previous round untouched. */
  predicate Sound(m: ModeState) {
    m.mode.Stream? ==> m.streamingEnabled || m.streamingOnly
  }

  function Rank(mode: CopyMode): nat {
    match mode
    case Pull => 3
    case Push => 2
    case Stream => 1
    case NoMode => 0
  }

  function CleanedUp(w: World, cleanup: bool, k: nat, code: int, dest: Option<File>): Option<File> {
    if cleanup && code != EEXIST && w.unlinkWorks(k) then None else dest
  }

  /** The copy loop from its k-th round on. */
  function Loop(m: ModeState, w: World, cleanup: bool, fallback: bool, k: nat, dest: Option<File>): LoopResult
    requires Sound(m) && !m.mode.NoMode?
    decreases Rank(m.mode)
  {
    if m.mode.Stream? && !m.streamingEnabled then LoopResult(-1, [], dest)
    else
      var o := w.attempt(k);
      var t := Try(m.mode, dest, o);
      match o.failure
      case None => LoopResult(0, [t], o.leaves)
      case Some(code) =>
        var dest' := CleanedUp(w, cleanup, k, code, o.leaves);
        var m' := m.(mode := Next(m.mode, m.streamingEnabled));
        if m'.mode.NoMode? || !fallback || !ShouldFallback(code) then LoopResult(-1, [t], dest')
        else
          var rest := Loop(m', w, cleanup, fallback, k + 1, dest');
          rest.(tries := [t] + rest.tries)
  }

  function Succ(m: ModeState): ModeState { m.(mode := Next(m.mode, m.streamingEnabled)) }

  /** The k-th round runs, fails and is followed by another one. */
  predicate Retries(m: ModeState, w: World, fallback: bool, k: nat) {
    && !(m.mode.Stream? && !m.streamingEnabled) && w.attempt(k).failure.Some?
    && !Succ(m).mode.NoMode? && fallback && ShouldFallback(w.attempt(k).failure.value)
  }

  /** The tries so far and the rest of the loop make up the whole. */
  ghost predicate Continues(whole: LoopResult, tries: seq<Try>, rest: LoopResult) {
    whole.ret == rest.ret && whole.tries == tries + rest.tries && whole.dest == rest.dest
  }

  /** A round that is followed by another one hands its try and the cleaned destination on. */
  lemma RoundContinues(whole: LoopResult, tries: seq<Try>, m: ModeState, w: World, cleanup: bool, fallback: bool,
                       k: nat, dest: Option<File>)
    requires Sound(m) && !m.mode.NoMode? && Retries(m, w, fallback, k)
    requires Continues(whole, tries, Loop(m, w, cleanup, fallback, k, dest))
    ensures Sound(Succ(m)) && !Succ(m).mode.NoMode?
    ensures var dest' := CleanedUp(w, cleanup, k, w.attempt(k).failure.value, w.attempt(k).leaves);
      Continues(whole, tries + [Try(m.mode, dest, w.attempt(k))], Loop(Succ(m), w, cleanup, fallback, k + 1, dest'))
  {
    var dest' := CleanedUp(w, cleanup, k, w.attempt(k).failure.value, w.attempt(k).leaves);
    var t, rest := Try(m.mode, dest, w.attempt(k)), Loop(Succ(m), w, cleanup, fallback, k + 1, dest');
    assert tries + ([t] + rest.tries) == (tries + [t]) + rest.tries;
  }

  /** Any other round ends the loop. */
  lemma RoundEnds(whole: LoopResult, tries: seq<Try>, m: ModeState, w: World, cleanup: bool, fallback: bool, k: nat,
                  dest: Option<File>)
    requires Sound(m) && !m.mode.NoMode? && !Retries(m, w, fallback, k)
    requires Continues(whole, tries, Loop(m, w, cleanup, fallback, k, dest))
    ensures whole == (
      if m.mode.Stream? && !m.streamingEnabled then LoopResult(-1, tries, dest)
      else
        var tries' := tries + [Try(m.mode, dest, w.attempt(k))];
        if w.attempt(k).failure.None? then LoopResult(0, tries', w.attempt(k).leaves)
        else LoopResult(-1, tries', CleanedUp(w, cleanup, k, w.attempt(k).failure.value, w.attempt(k).leaves)))
  {
    assert tries + [] == tries;
  }

  /** The loop over the mode object, as written: in a stream state that is neither enabled nor
      the only one, a round would keep the result of the round before. */
  method CopyLoop(m: HttpCopyMode, w: World, cleanup: bool, fallback: bool, dest: Option<File>)
    returns (r: LoopResult)
    requires Sound(m.Model()) && !m.mode.NoMode?
    modifies m
    ensures r == Loop(old(m.Model()), w, cleanup, fallback, 0, dest)
  {
    var failure: Option<int>, tries, file, k := None, [], dest, 0;
    ghost var whole := Loop(m.Model(), w, cleanup, fallback, 0, dest);
    while true
      invariant Sound(m.Model()) && !m.mode.NoMode?
      invariant Continues(whole, tries, Loop(m.Model(), w, cleanup, fallback, k, file))
      decreases Rank(m.mode)
    {
      var before := file;
      if Retries(m.Model(), w, fallback, k) {
        RoundContinues(whole, tries, m.Model(), w, cleanup, fallback, k, file);
      } else {
        RoundEnds(whole, tries, m.Model(), w, cleanup, fallback, k, file);
      }
      if m.mode == Stream {
        if m.streamingEnabled {
          failure, file := w.attempt(k).failure, w.attempt(k).leaves;
        } else if m.streamingOnly {
          return LoopResult(-1, tries, file);
        }
      } else {
        failure, file := w.attempt(k).failure, w.attempt(k).leaves;
      }
      tries := tries + [Try(m.mode, before, w.attempt(k))];
      if failure.None? {
        return LoopResult(0, tries, file);
      }
      if cleanup && failure.value != EEXIST && w.unlinkWorks(k) {
        file := None;
      }
      k := k + 1;
      m.Advance();
      if m.mode == NoMode || !fallback || !ShouldFallback(failure.value) {
        return LoopResult(-1, tries, file);
      }
    }
  }

  // ---- What holds of every configuration and every outcome --------------------------------

  /** The stream case that would leave the result untouched is never reached: neither the
      constructed mode nor any successor is in it. */
  lemma ConstructedIsSound(o: Options)
    requires QueryIsTpc(o)
    ensures Sound(Constructed(o)) && !Constructed(o).mode.NoMode?
    ensures forall m: ModeState {:trigger Next(m.mode, m.streamingEnabled)} | Sound(m) ::
              Sound(m.(mode := Next(m.mode, m.streamingEnabled)))
  {}

  /** The tries are the attempts from k on, in the mode of m and then its successors without a
      gap; each one before the last failed with a code that allows falling back. */
  ghost predicate Follows(m: ModeState, w: World, fallback: bool, k: nat, tries: seq<Try>)
    decreases |tries|
  {
    tries == [] ||
    (&& tries[0].mode == m.mode && !m.mode.NoMode? && tries[0].outcome == w.attempt(k)
     && (|tries| > 1 ==> fallback && w.attempt(k).failure.Some? && ShouldFallback(w.attempt(k).failure.value))
     && Follows(Succ(m), w, fallback, k + 1, tries[1..]))
  }

  /** By name: push follows pull, and an enabled stream follows push. */
  predicate FollowedBy(streaming: bool, a: CopyMode, b: CopyMode) {
    (a == Pull && b == Push) || (a == Push && b == Stream && streaming)
  }

  ghost predicate InOrder(streaming: bool, tries: seq<Try>) {
    forall i, j | 0 <= i < |tries| && 0 <= j < |tries| && j == i + 1 ::
      FollowedBy(streaming, tries[i].mode, tries[j].mode)
  }

  /** A try is the last one exactly when it succeeded, falling back is off or pointless after its
      failure, or no mode is left behind its own. */
  ghost predicate EndsRightly(streaming: bool, fallback: bool, tries: seq<Try>) {
    forall i | 0 <= i < |tries| ::
      i == |tries| - 1 <==>
        match tries[i].outcome.failure
        case None => true
        case Some(code) =>
          || !fallback || code == ECANCELED || code == EPERM || code == ENOENT || code == EACCES
          || tries[i].mode == Stream || (tries[i].mode == Push && !streaming)
  }

  /** Both carry over to a list with one more try in front. */
  lemma OneMoreTry(streaming: bool, fallback: bool, t: Try, tries: seq<Try>)
    requires InOrder(streaming, tries) && EndsRightly(streaming, fallback, tries) && tries != []
    requires FollowedBy(streaming, t.mode, tries[0].mode) && t.outcome.failure.Some? && fallback
    requires t.outcome.failure.value !in {ECANCELED, EPERM, ENOENT, EACCES}
    ensures InOrder(streaming, [t] + tries) && EndsRightly(streaming, fallback, [t] + tries)
  {
    var all := [t] + tries;
    assert forall i | 0 < i < |all| :: all[i] == tries[i - 1];
    forall i, j | 0 <= i < |all| && 0 <= j < |all| && j == i + 1
      ensures FollowedBy(streaming, all[i].mode, all[j].mode)
    {
      if i > 0 {
        assert all[i] == tries[i - 1] && all[j] == tries[i];
      }
    }
  }

  /** In every configuration the modes are tried in the order pull, push, stream without a gap, and
      no try is the last one before its time. */
  lemma {:induction false} TriesGoByName(m: ModeState, w: World, cleanup: bool, fallback: bool, k: nat,
                                         dest: Option<File>)
    requires Sound(m) && !m.mode.NoMode?
    ensures var r := Loop(m, w, cleanup, fallback, k, dest);
      && (r.tries != [] ==> r.tries[0].mode == m.mode)
      && InOrder(m.streamingEnabled, r.tries) && EndsRightly(m.streamingEnabled, fallback, r.tries)
    decreases Rank(m.mode)
  {
    var r := Loop(m, w, cleanup, fallback, k, dest);
    if Retries(m, w, fallback, k) {
      var o := w.attempt(k);
      var dest' := CleanedUp(w, cleanup, k, o.failure.value, o.leaves);
      var rest := Loop(Succ(m), w, cleanup, fallback, k + 1, dest');
      TriesGoByName(Succ(m), w, cleanup, fallback, k + 1, dest');
      OneMoreTry(m.streamingEnabled, fallback, Try(m.mode, dest, o), rest.tries);
    }
  }

  /** For every outcome of the attempts: the modes tried form a contiguous run of pull, push,
      stream with at most three tries; the result is 0 exactly when there was a last try and it
      succeeded; and nothing is tried exactly when only a disabled stream remains. */
  lemma {:induction false} TriesAreContiguous(m: ModeState, w: World, cleanup: bool, fallback: bool, k: nat,
                                              dest: Option<File>)
    requires Sound(m) && !m.mode.NoMode?
    ensures var r := Loop(m, w, cleanup, fallback, k, dest);
      && |r.tries| <= Rank(m.mode) <= 3
      && Follows(m, w, fallback, k, r.tries)
      && (r.ret == 0 || r.ret == -1)
      && (r.ret == 0 <==> r.tries != [] && r.tries[|r.tries| - 1].outcome.failure.None?)
      && (r.tries == [] <==> m.mode.Stream? && !m.streamingEnabled)
    decreases Rank(m.mode)
  {
    var r := Loop(m, w, cleanup, fallback, k, dest);
    if |r.tries| > 1 || Retries(m, w, fallback, k) {
      var dest' := CleanedUp(w, cleanup, k, w.attempt(k).failure.value, w.attempt(k).leaves);
      TriesAreContiguous(Succ(m), w, cleanup, fallback, k + 1, dest');
      assert r.tries[1..] == Loop(Succ(m), w, cleanup, fallback, k + 1, dest').tries;
    } else if r.tries != [] {
      assert r.tries[1..] == [];
    }
  }

  /** A mode taken from the query gives exactly one attempt, unless a per-storage fallback
      option is set. */
  lemma QueryModeTriesOnce(o: Options, w: World, cleanup: bool, dest: Option<File>)
    requires QueryIsTpc(o) && ThirdParty(o) && !Pick(o.srcQuery, o.dstQuery).NoMode?
    requires o.srcFallback.Unset? && o.dstFallback.Unset?
    ensures Sound(Constructed(o)) && !Constructed(o).mode.NoMode?
    ensures |Loop(Constructed(o), w, cleanup, FallbackEnabled(Configured(o)), 0, dest).tries| == 1
  {
    ConstructedIsSound(o);
  }

  /** With cleanup on and unlink working, every attempt but the first finds no destination file,
      unless the one before it failed with EEXIST. */
  lemma {:induction false} AttemptsStartClean(m: ModeState, w: World, fallback: bool, k: nat, dest: Option<File>,
                                              i: nat)
    requires Sound(m) && !m.mode.NoMode? && forall j: nat :: w.unlinkWorks(j)
    requires i < |Loop(m, w, true, fallback, k, dest).tries|
    ensures var t := Loop(m, w, true, fallback, k, dest).tries;
      if i == 0 then t[i].before == dest
      else t[i].before.None? || t[i - 1].outcome.failure == Some(EEXIST)
    decreases Rank(m.mode)
  {
    var r := Loop(m, w, true, fallback, k, dest);
    if i > 0 {
      var o := w.attempt(k);
      var m' := m.(mode := Next(m.mode, m.streamingEnabled));
      var dest' := CleanedUp(w, true, k, o.failure.value, o.leaves);
      var rest := Loop(m', w, true, fallback, k + 1, dest');
      assert r.tries[i] == rest.tries[i - 1];
      AttemptsStartClean(m', w, fallback, k + 1, dest', i - 1);
      if i > 1 {
        assert r.tries[i - 1] == rest.tries[i - 2];
      }
    }
  }

  /** The try at position k failed and the unlink that follows it takes effect. */
  predicate Removes(w: World, cleanup: bool, k: nat, t: Try) {
    cleanup && t.outcome.failure.Some? && t.outcome.failure.value != EEXIST && w.unlinkWorks(k)
  }

  /** After a failed loop the destination holds what the last try left, unless cleanup removed
      it; after a successful one, what the successful try wrote. */
  lemma {:induction false} DestinationAfterLoop(m: ModeState, w: World, cleanup: bool, fallback: bool, k: nat,
                                                dest: Option<File>)
    requires Sound(m) && !m.mode.NoMode?
    ensures var r := Loop(m, w, cleanup, fallback, k, dest);
      if r.tries == [] then r.dest == dest
      else
        var last := |r.tries| - 1;
        r.dest == if Removes(w, cleanup, k + last, r.tries[last]) then None else r.tries[last].outcome.leaves
    decreases Rank(m.mode)
  {
    if Retries(m, w, fallback, k) {
      var dest' := CleanedUp(w, cleanup, k, w.attempt(k).failure.value, w.attempt(k).leaves);
      TriesAreContiguous(Succ(m), w, cleanup, fallback, k + 1, dest');
      DestinationAfterLoop(Succ(m), w, cleanup, fallback, k + 1, dest');
    }
  }

  // ---- The options by name -----------------------------------------------------------------

  /** An option holds: no side switches it off, and some side switches it on or it is on globally. */
  predicate Holds(src: Tri, dst: Tri, global: bool) {
    src != Off && dst != Off && (src == On || dst == On || global)
  }

  /** The first mode of the list that is set. */
  predicate IsFirstSet(modes: seq<CopyMode>, mode: CopyMode) {
    mode != NoMode && exists k | 0 <= k < |modes| :: modes[k] == mode && forall l | 0 <= l < k :: modes[l] == NoMode
  }

  /** What the options mean: without an HTTP source or with remote copies off only a stream is left;
      otherwise the first mode that is set counts, in the order query, storage, global, each source
      before destination, then pull; and a mode from the query switches the global fallback off. */
  lemma ConstructedByName(o: Options)
    ensures var m := Constructed(o);
      if o.srcIsHttp && Holds(o.srcRemote, o.dstRemote, o.remote) then
        && IsFirstSet([o.srcQuery, o.dstQuery, o.srcDefault, o.dstDefault, o.globalDefault, Pull], m.mode)
        && m.streamingOnly == (m.mode == Stream) && m.streamingEnabled == Holds(o.srcStream, o.dstStream, o.stream)
      else m == ModeState(Stream, true, true)
    ensures var byQuery := o.srcIsHttp && Holds(o.srcRemote, o.dstRemote, o.remote) &&
                           (o.srcQuery != NoMode || o.dstQuery != NoMode);
      && Configured(o) == (if byQuery then o.(remote := true, fallback := false) else o)
      && FallbackEnabled(Configured(o)) == Holds(o.srcFallback, o.dstFallback, o.fallback && !byQuery)
  {
    var modes := [o.srcQuery, o.dstQuery, o.srcDefault, o.dstDefault, o.globalDefault, Pull];
    assert modes[0] == o.srcQuery && modes[1] == o.dstQuery && modes[2] == o.srcDefault;
    assert modes[3] == o.dstDefault && modes[4] == o.globalDefault && modes[5] == Pull;
  }

  // ---- The whole copy ------------------------------------------------------------------------

  datatype Sum = SumFails(code: int) | SumIs(value: string)

  /** The parameters of a call and the answers of the environment to its other requests. */
  datatype Call = Call(
    strict: bool, replace: bool, cleanup: bool,
    sourceBit: bool, targetBit: bool, user: string,
    srcSum: Sum, dstSum: Sum,
    accessFails: bool,            // the existence check of the destination
    overwriteFails: bool,         // the unlink of an existing destination
    parentFails: bool,            // creation of the parent directory
    options: Options,
    world: World)

  /** The source checksum that the destination is compared with; "" when there is none. */
  function SourceSum(c: Call): string {
    if !c.strict && c.sourceBit && c.srcSum.SumIs? then c.srcSum.value else ""
  }

  predicate SourceSumOk(c: Call) {
    !c.strict && c.sourceBit ==>
      match c.srcSum
      case SumFails(code) => code == ENOSYS || code == ENOTSUP
      case SumIs(value) => c.user != "" ==> Same(value, c.user, CHK_LEN)
  }

  /** The destination checksum was obtained and matches the source's, or the user's when there
      is none of the source. */
  predicate TargetSumOk(c: Call) {
    !c.strict && c.targetBit ==>
      && c.dstSum.SumIs?
      && (SourceSum(c) != "" ==> Same(SourceSum(c), c.dstSum.value, CHK_LEN))
      && (SourceSum(c) == "" && c.user != "" ==> Same(c.user, c.dstSum.value, CHK_LEN))
  }

  /** Nothing in the preparation stops the call. */
  predicate Cleared(c: Call, file: Option<File>) {
    && SourceSumOk(c)
    && (c.strict || (!c.accessFails && (file.None? || (c.replace && !c.overwriteFails)) && !c.parentFails))
  }

  /** The preparation has removed the old destination before it fails. */
  predicate OnlyParentFails(c: Call, file: Option<File>) {
    SourceSumOk(c) && !c.strict && !c.accessFails && c.replace && !c.overwriteFails && c.parentFails
  }

  /** The loop of the call. */
  function Attempts(c: Call, file: Option<File>): LoopResult
    requires QueryIsTpc(c.options)
  {
    ConstructedIsSound(c.options);
    var m, fallback := Constructed(c.options), FallbackEnabled(Configured(c.options));
    Loop(m, c.world, c.cleanup, fallback, 0, if c.strict then file else None)
  }

  /** What every loop guarantees. */
  ghost predicate Orderly(m: ModeState, w: World, cleanup: bool, fallback: bool, start: Option<File>, r: LoopResult) {
    && |r.tries| <= 3 && Follows(m, w, fallback, 0, r.tries)
    && (r.tries != [] ==> r.tries[0].mode == m.mode)
    && InOrder(m.streamingEnabled, r.tries) && EndsRightly(m.streamingEnabled, fallback, r.tries)
    && (r.ret == 0 || r.ret == -1)
    && (r.ret == 0 <==> r.tries != [] && r.tries[|r.tries| - 1].outcome.failure.None?)
    && (r.ret == 0 ==> r.dest == r.tries[|r.tries| - 1].outcome.leaves)
    && (if r.tries == [] then r.dest == start else r.tries[0].before == start)
    && (cleanup && (forall j: nat :: w.unlinkWorks(j)) ==>
          forall i | 0 < i < |r.tries| :: r.tries[i].before.None? || r.tries[i - 1].outcome.failure == Some(EEXIST))
  }

  ghost predicate OrderlyCall(c: Call, file: Option<File>, r: LoopResult) {
    var m, fallback := Constructed(c.options), FallbackEnabled(Configured(c.options));
    Orderly(m, c.world, c.cleanup, fallback, if c.strict then file else None, r)
  }

  lemma LoopIsOrderly(m: ModeState, w: World, cleanup: bool, fallback: bool, start: Option<File>)
    requires Sound(m) && !m.mode.NoMode?
    ensures Orderly(m, w, cleanup, fallback, start, Loop(m, w, cleanup, fallback, 0, start))
  {
    var r := Loop(m, w, cleanup, fallback, 0, start);
    TriesAreContiguous(m, w, cleanup, fallback, 0, start);
    TriesGoByName(m, w, cleanup, fallback, 0, start);
    DestinationAfterLoop(m, w, cleanup, fallback, 0, start);
    FirstTryFinds(m, w, cleanup, fallback, start);
    if cleanup && forall j: nat :: w.unlinkWorks(j) {
      forall i: nat | 0 < i < |r.tries|
        ensures r.tries[i].before.None? || r.tries[i - 1].outcome.failure == Some(EEXIST)
      {
        AttemptsStartClean(m, w, fallback, 0, start, i);
      }
    }
  }

  class Destination {
    var file: Option<File>

    /** gfal_http_copy_overwrite */
    method Overwrite(c: Call) returns (ok: bool)
      modifies this
      ensures c.accessFails ==> !ok && file == old(file)
      ensures !c.accessFails && old(file).None? ==> ok && file == old(file)
      ensures !c.accessFails && old(file).Some? && !c.replace ==> !ok && file == old(file)
      ensures !c.accessFails && old(file).Some? && c.replace ==>
                (ok <==> !c.overwriteFails) && file == (if ok then None else old(file))
    {
      if c.accessFails {
        return false;
      }
      if file.Some? {
        if !c.replace {
          return false;
        }
        if c.overwriteFails {
          return false;
        }
        file := None;
      }
      ok := true;
    }

    /** gfal_http_copy. Without strict mode a destination that existed is never removed or
        changed unless replace is set; with cleanup and unlink working every attempt starts with
        no destination file unless the one before it failed with EEXIST. A result of 0 means
        that the last try succeeded, wrote the destination, and passed the checksum tests. */
    method Copy(c: Call) returns (ret: int, tries: seq<Try>)
      requires QueryIsTpc(c.options)
      modifies this
      ensures ret == 0 || ret == -1
      ensures !c.strict && !c.replace && old(file).Some? ==> file == old(file) && ret == -1 && tries == []
      ensures c.strict ==> Cleared(c, old(file))
      ensures !Cleared(c, old(file)) ==> ret == -1 && tries == []
      ensures !Cleared(c, old(file)) ==> file == if OnlyParentFails(c, old(file)) then None else old(file)
      ensures Cleared(c, old(file)) ==>
                && tries == Attempts(c, old(file)).tries && file == Attempts(c, old(file)).dest
                && OrderlyCall(c, old(file), Attempts(c, old(file)))
      ensures ret == 0 <==> Cleared(c, old(file)) && Attempts(c, old(file)).ret == 0 && TargetSumOk(c)
      ensures ret == 0 && !c.strict && c.sourceBit ==>
                if c.srcSum.SumIs? then c.user == "" || Same(c.srcSum.value, c.user, CHK_LEN)
                else c.srcSum.code == ENOSYS || c.srcSum.code == ENOTSUP
      ensures ret == 0 && !c.strict && c.targetBit ==>
                && c.dstSum.SumIs?
                && if c.sourceBit && c.srcSum.SumIs? && c.srcSum.value != "" then
                     Same(c.srcSum.value, c.dstSum.value, CHK_LEN)
                   else c.user == "" || Same(c.user, c.dstSum.value, CHK_LEN)
    {
      ret, tries := -1, [];
      var ready, srcSum := Prepare(c);
      if !ready {
        return;
      }
      ConstructedIsSound(c.options);
      var mode, configured := ConstructCopyMode(c.options);
      var r := TryModes(mode, c.world, c.cleanup, FallbackEnabled(configured));
      tries := r.tries;
      if r.ret != 0 {
        return;
      }
      var checked := CheckTarget(c, srcSum);
      ret := if checked then 0 else -1;
    }

    /** Everything before the loop. */
    method Prepare(c: Call) returns (ready: bool, srcSum: string)
      modifies this
      ensures ready <==> Cleared(c, old(file))
      ensures ready ==> file == (if c.strict then old(file) else None) && srcSum == SourceSum(c)
      ensures !ready ==> file == if OnlyParentFails(c, old(file)) then None else old(file)
    {
      ready, srcSum := CheckSource(c);
      if ready && !c.strict {
        ready := Overwrite(c);
        ready := ready && !c.parentFails;
      }
    }

    /** The source checksum phase: a source that does not support checksums is let through. */
    method CheckSource(c: Call) returns (ok: bool, srcSum: string)
      ensures ok <==>
                || c.strict || !c.sourceBit
                || (c.srcSum.SumFails? && (c.srcSum.code == ENOSYS || c.srcSum.code == ENOTSUP))
                || (c.srcSum.SumIs? && (c.user == "" || Same(c.srcSum.value, c.user, CHK_LEN)))
      ensures srcSum == if !c.strict && c.sourceBit && c.srcSum.SumIs? then c.srcSum.value else ""
    {
      ok, srcSum := true, "";
      if c.strict || !c.sourceBit {
        return;
      }
      match c.srcSum {
        case SumFails(code) =>
          ok := code == ENOSYS || code == ENOTSUP;
        case SumIs(value) =>
          srcSum := value;
          if c.user != "" && !Same(value, c.user, CHK_LEN) {
            ok := false;
          }
      }
    }

    /** The destination checksum phase. */
    method CheckTarget(c: Call, srcSum: string) returns (ok: bool)
      ensures ok <==>
                || c.strict || !c.targetBit
                || (&& c.dstSum.SumIs?
                    && if srcSum != "" then Same(srcSum, c.dstSum.value, CHK_LEN)
                       else c.user == "" || Same(c.user, c.dstSum.value, CHK_LEN))
    {
      if c.strict || !c.targetBit {
        return true;
      }
      if c.dstSum.SumFails? {
        return false;
      }
      if srcSum != "" {
        return Same(srcSum, c.dstSum.value, CHK_LEN);
      }
      if c.user != "" {
        return Same(c.user, c.dstSum.value, CHK_LEN);
      }
      ok := true;
    }

    /** The copy loop on this destination. */
    method TryModes(mode: HttpCopyMode, w: World, cleanup: bool, fallback: bool) returns (r: LoopResult)
      requires Sound(mode.Model()) && !mode.mode.NoMode?
      modifies this, mode
      ensures r == Loop(old(mode.Model()), w, cleanup, fallback, 0, old(file)) && file == r.dest
      ensures Orderly(old(mode.Model()), w, cleanup, fallback, old(file), r)
    {
      LoopIsOrderly(mode.Model(), w, cleanup, fallback, file);
      r := CopyLoop(mode, w, cleanup, fallback, file);
      file := r.dest;
    }
  }

  lemma FirstTryFinds(m: ModeState, w: World, cleanup: bool, fallback: bool, dest: Option<File>)
    requires Sound(m) && !m.mode.NoMode?
    ensures var t := Loop(m, w, cleanup, fallback, 0, dest).tries; t != [] ==> t[0].before == dest
  {}

  /** Some try is followed by a removal. */
  predicate AnyRemoves(w: World, cleanup: bool, k: nat, tries: seq<Try>) {
    exists i: nat | i < |tries| :: Removes(w, cleanup, k + i, tries[i])
  }

  lemma AnyRemovesCons(w: World, cleanup: bool, k: nat, t: Try, tries: seq<Try>)
    ensures AnyRemoves(w, cleanup, k, [t] + tries) <==>
              Removes(w, cleanup, k, t) || AnyRemoves(w, cleanup, k + 1, tries)
  {
    var all := [t] + tries;
    if Removes(w, cleanup, k, t) {
      assert Removes(w, cleanup, k + 0, all[0]);
    }
    if AnyRemoves(w, cleanup, k + 1, tries) {
      var i: nat :| i < |tries| && Removes(w, cleanup, k + 1 + i, tries[i]);
      assert Removes(w, cleanup, k + (i + 1), all[i + 1]);
    }
    if AnyRemoves(w, cleanup, k, all) {
      var i: nat :| i < |all| && Removes(w, cleanup, k + i, all[i]);
      if i > 0 {
        assert Removes(w, cleanup, k + 1 + (i - 1), tries[i - 1]);
      }
    }
  }

  /** Every try of the loop fails and leaves the destination as it found it. */
  ghost predicate Idle(r: LoopResult) {
    forall t | t in r.tries :: t.outcome.failure.Some? && t.outcome.leaves == t.before
  }

  /** Then only a removal after some try changes the destination. */
  lemma {:induction false} IdleLoop(m: ModeState, w: World, cleanup: bool, fallback: bool, k: nat, dest: Option<File>)
    requires Sound(m) && !m.mode.NoMode? && Idle(Loop(m, w, cleanup, fallback, k, dest))
    ensures var r := Loop(m, w, cleanup, fallback, k, dest);
      r.dest == if AnyRemoves(w, cleanup, k, r.tries) then None else dest
    decreases Rank(m.mode)
  {
    var r := Loop(m, w, cleanup, fallback, k, dest);
    if r.tries != [] {
      var t := r.tries[0];
      assert t in r.tries && t == Try(m.mode, dest, w.attempt(k));
      assert r.tries == [t] + r.tries[1..];
      AnyRemovesCons(w, cleanup, k, t, r.tries[1..]);
      if Retries(m, w, fallback, k) {
        var dest' := CleanedUp(w, cleanup, k, t.outcome.failure.value, dest);
        var rest := Loop(Succ(m), w, cleanup, fallback, k + 1, dest');
        assert r.tries[1..] == rest.tries;
        IdleLoop(Succ(m), w, cleanup, fallback, k + 1, dest');
      } else {
        assert r.tries[1..] == [];
      }
    }
  }

  /** Cleanup cannot touch the destination: it is off, there is no file, or no attempt is made. */
  predicate Harmless(m: ModeState, cleanup: bool, dest: Option<File>) {
    !cleanup || dest.None? || (m.mode.Stream? && !m.streamingEnabled)
  }

  /** One attempt that fails for good and touches nothing, in a world where unlink works. */
  function DeniedWorld(dest: Option<File>): World { World(_ => Outcome(Some(EPERM), dest), _ => true) }

  /** If no attempt touches the destination, the loop leaves it as it was. */
  ghost predicate Keeps(m: ModeState, w: World, cleanup: bool, fallback: bool, dest: Option<File>)
    requires Sound(m) && !m.mode.NoMode?
  {
    var r := Loop(m, w, cleanup, fallback, 0, dest);
    Idle(r) ==> r.dest == dest
  }

  /** A loop keeps the destination in every world whose attempts touch nothing, exactly when
      cleanup cannot. */
  lemma IdleLoopKeepsDestinationExactly(m: ModeState, cleanup: bool, fallback: bool, dest: Option<File>)
    requires Sound(m) && !m.mode.NoMode?
    ensures (forall w :: Keeps(m, w, cleanup, fallback, dest)) <==> Harmless(m, cleanup, dest)
  {
    if Harmless(m, cleanup, dest) {
      forall w ensures Keeps(m, w, cleanup, fallback, dest) {
        if Idle(Loop(m, w, cleanup, fallback, 0, dest)) {
          IdleLoop(m, w, cleanup, fallback, 0, dest);
        }
      }
    } else {
      assert !Keeps(m, DeniedWorld(dest), cleanup, fallback, dest);
    }
  }

  /** If no attempt of the call touches the existing destination, the call leaves it as it was. */
  ghost predicate CallKeeps(c: Call, w: World, f: File)
    requires QueryIsTpc(c.options)
  {
    var r := Attempts(c.(world := w), Some(f));
    Idle(r) ==> r.dest == Some(f)
  }

  /** The options leave nothing but a stream, and that is disabled. */
  predicate OnlyDisabledStream(o: Options) { Constructed(o).mode.Stream? && !Constructed(o).streamingEnabled }

  /** A strict copy keeps an existing destination in every world whose attempts touch nothing,
      exactly when cleanup is off or the options leave only a disabled stream. */
  lemma StrictCopyKeepsDestinationExactly(c: Call, f: File)
    requires c.strict && QueryIsTpc(c.options)
    ensures (forall w :: CallKeeps(c, w, f)) <==> !c.cleanup || OnlyDisabledStream(c.options)
  {
    ConstructedIsSound(c.options);
    var m, fallback := Constructed(c.options), FallbackEnabled(Configured(c.options));
    IdleLoopKeepsDestinationExactly(m, c.cleanup, fallback, Some(f));
    assert forall w :: CallKeeps(c, w, f) <==> Keeps(m, w, c.cleanup, fallback, Some(f));
  }

  /** In strict mode the promise for an existing destination fails: nothing checks for it, and a
      failed attempt that left it alone is cleaned up by removing it. */
  method StrictCopyRemovesDestination(dst: Destination, f: File, o: Options) returns (ret: int)
    requires dst.file == Some(f) && QueryIsTpc(o)
    requires !OnlyDisabledStream(o)
    modifies dst
    ensures ret == -1 && dst.file == None
  {
    ConstructedIsSound(o);
    var c := Call(
      strict := true, replace := false, cleanup := true, sourceBit := false, targetBit := false, user := "",
      srcSum := SumFails(EIO), dstSum := SumFails(EIO), accessFails := false, overwriteFails := false,
      parentFails := false, options := o, world := DeniedWorld(Some(f)));
    var tries;
    ret, tries := dst.Copy(c);
  }

  /** A destination checksum that is compared with nothing: exactly when neither the source nor
      the user gives a value. */
  lemma TargetUncheckedExactly(c: Call)
    requires !c.strict && c.targetBit
    ensures (forall value: string :: TargetSumOk(c.(dstSum := SumIs(value)))) <==> Unchecked(c)
  {
    if !Unchecked(c) {
      var sum := if SourceSum(c) != "" then SourceSum(c) else c.user;
      DiffersFrom(sum, CHK_LEN);
      assert !TargetSumOk(c.(dstSum := SumIs(Other(sum))));
    }
  }

  predicate Unchecked(c: Call) { SourceSum(c) == "" && c.user == "" }
}
