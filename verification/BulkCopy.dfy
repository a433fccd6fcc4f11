/** The GridFTP bulk copy: GridFTPBulkData, its pipeline callback and its prepare, transfer
    and close phases, from src/plugins/gridftp/gridftp_bulk.cpp.

    The remote ends are an environment that answers each request of each pair. Globus decides
    how often it asks for the next pair and how the transfer ends. */
module BulkCopy {
  import opened Wrappers
  import opened Checksums

  const EINTR: int := 4
  const EIO: int := 5
  const EISDIR: int := 21
  const CHK_LEN: nat := 128

  datatype Stat = StatFails(code: int) | StatOk(isDir: bool, size: int)

  datatype Checksum = ChecksumFails(code: int) | ChecksumIs(value: string)

  /** The checksum mode as its two bits. */
  datatype Mode = Mode(source: bool, target: bool)

  /** The answers pair i gets in each phase; deletion and parent creation answer with the
      code of the exception that they throw, if any. */
  datatype Env = Env(
    canceledSource: nat -> bool,
    srcStat: nat -> Stat,
    srcChecksum: nat -> Checksum,
    canceledDest: nat -> bool,
    deleteExisting: nat -> Option<int>,
    createParent: nat -> Option<int>,
    canceledClose: nat -> bool,
    dstStat: nat -> Stat,
    dstChecksum: nat -> Checksum)

  ghost predicate CodesAreErrors(env: Env) {
    forall i: nat ::
      && (env.srcStat(i).StatFails? ==> env.srcStat(i).code != 0)
      && (env.srcChecksum(i).ChecksumFails? ==> env.srcChecksum(i).code != 0)
      && (env.deleteExisting(i).Some? ==> env.deleteExisting(i).value != 0)
      && (env.createParent(i).Some? ==> env.createParent(i).value != 0)
      && (env.dstStat(i).StatFails? ==> env.dstStat(i).code != 0)
      && (env.dstChecksum(i).ChecksumFails? ==> env.dstChecksum(i).code != 0)
  }

  // ---- One pair through the phases ------------------------------------------------------

  /** The entries of one pair in errn, file_errors, fsize and checksums. */
  datatype Pair = Pair(errn: int, error: Option<int>, fsize: int, checksum: string)

  function Fail(p: Pair, code: int): Pair { p.(errn := code, error := Some(code)) }

  /** errn and file_errors tell the same story. */
  predicate Agree(p: Pair) { p.errn == (if p.error.Some? then p.error.value else 0) && (p.error.Some? ==> p.errn != 0) }

  function SourcePair(env: Env, mode: Mode, i: nat, p: Pair): Pair {
    if env.canceledSource(i) then Fail(p, EINTR)
    else match env.srcStat(i)
      case StatFails(code) => Fail(p, code)
      case StatOk(isDir, size) =>
        if isDir then Fail(p, EISDIR)
        else
          var q := p.(fsize := size);
          if !mode.source then q
          else match env.srcChecksum(i)
            case ChecksumFails(code) => Fail(q, code)
            case ChecksumIs(value) =>
              if q.checksum == "" then q.(checksum := value)
              else if Same(q.checksum, value, CHK_LEN) then q
              else Fail(q, EIO)
  }

  function DestPair(env: Env, i: nat, known: bool, p: Pair): Pair {
    if p.errn != 0 then p
    else if env.canceledDest(i) then Fail(p, EINTR)
    else if env.deleteExisting(i).Some? then Fail(p, env.deleteExisting(i).value)
    else if !known && env.createParent(i).Some? then Fail(p, env.createParent(i).value)
    else p
  }

  function ClosePair(env: Env, mode: Mode, i: nat, p: Pair): Pair {
    if p.errn != 0 then p
    else if env.canceledClose(i) then Fail(p, EINTR)
    else match env.dstStat(i)
      case StatFails(code) => Fail(p, code)
      case StatOk(_, size) =>
        if p.fsize != size then Fail(p, EIO)
        else if !mode.target then p
        else match env.dstChecksum(i)
          case ChecksumFails(code) => Fail(p, code)
          case ChecksumIs(value) =>
            if p.checksum == "" then p.(checksum := value)
            else if Same(p.checksum, value, CHK_LEN) then p
            else Fail(p, EIO)
  }

  lemma PhasesKeepAgreement(env: Env, mode: Mode, i: nat, known: bool, p: Pair)
    requires CodesAreErrors(env) && Agree(p)
    ensures p.error.None? ==> Agree(SourcePair(env, mode, i, p))
    ensures Agree(DestPair(env, i, known, p)) && Agree(ClosePair(env, mode, i, p))
    ensures p.error.Some? ==> DestPair(env, i, known, p) == p && ClosePair(env, mode, i, p) == p
  {}

  /** The source phase gets as far as a request that fails with code 0. */
  predicate ZeroInSource(env: Env, mode: Mode, i: nat) {
    !env.canceledSource(i) &&
    (|| env.srcStat(i) == StatFails(0)
     || (env.srcStat(i).StatOk? && !env.srcStat(i).isDir && mode.source && env.srcChecksum(i) == ChecksumFails(0)))
  }

  predicate ZeroInDest(env: Env, i: nat, known: bool) {
    !env.canceledDest(i) &&
    (|| env.deleteExisting(i) == Some(0)
     || (env.deleteExisting(i).None? && !known && env.createParent(i) == Some(0)))
  }

  predicate ZeroInClose(env: Env, mode: Mode, i: nat, fsize: int) {
    !env.canceledClose(i) &&
    (|| env.dstStat(i) == StatFails(0)
     || (&& env.dstStat(i).StatOk? && env.dstStat(i).size == fsize
         && mode.target && env.dstChecksum(i) == ChecksumFails(0)))
  }

  /** The agreement breaks exactly when a request that decides the pair fails with code 0. */
  lemma AgreementExactly(env: Env, mode: Mode, i: nat, known: bool, user: string, p: Pair)
    requires Agree(p)
    ensures Agree(SourcePair(env, mode, i, Pair(0, None, 0, user))) <==> !ZeroInSource(env, mode, i)
    ensures Agree(DestPair(env, i, known, p)) <==> p.errn != 0 || !ZeroInDest(env, i, known)
    ensures Agree(ClosePair(env, mode, i, p)) <==> p.errn != 0 || !ZeroInClose(env, mode, i, p.fsize)
  {}

  /** What a pair that ends without an error has passed: sizes are equal, and with both
      checksum bits the destination checksum matches the user's value and the source's, or
      without a user's value the source's own. */
  predicate Intact(env: Env, mode: Mode, i: nat, user: string) {
    && env.srcStat(i).StatOk? && env.dstStat(i).StatOk?
    && !env.srcStat(i).isDir && env.srcStat(i).size == env.dstStat(i).size
    && (mode.source ==>
          env.srcChecksum(i).ChecksumIs? && (user != "" ==> Same(user, env.srcChecksum(i).value, CHK_LEN)))
    && (mode.target ==>
          env.dstChecksum(i).ChecksumIs? && (user != "" ==> Same(user, env.dstChecksum(i).value, CHK_LEN)))
    && (mode.source && mode.target && (user != "" || env.srcChecksum(i).value != "") ==>
          Same(env.srcChecksum(i).value, env.dstChecksum(i).value, CHK_LEN))
  }

  function Through(env: Env, mode: Mode, i: nat, known: bool, user: string): Pair {
    ClosePair(env, mode, i, DestPair(env, i, known, SourcePair(env, mode, i, Pair(0, None, 0, user))))
  }

  /** From the answers alone: the pair is intact, no phase is canceled for it, what was at the
      destination could be deleted, and its parent was known or could be created. */
  predicate Passes(env: Env, mode: Mode, i: nat, known: bool, user: string) {
    && Intact(env, mode, i, user)
    && !env.canceledSource(i) && !env.canceledDest(i) && !env.canceledClose(i)
    && env.deleteExisting(i).None? && (known || env.createParent(i).None?)
  }

  /** A pair ends without an error exactly when it passes, in every environment. */
  lemma SurvivesExactly(env: Env, mode: Mode, i: nat, known: bool, user: string)
    ensures Through(env, mode, i, known, user).error.None? <==> Passes(env, mode, i, known, user)
    ensures Through(env, mode, i, known, user).error.None? ==> Through(env, mode, i, known, user).errn == 0
  {}

  // ---- Which error a pair ends with ---------------------------------------------------

  /** The failure of a checksum request, or EIO when the value differs from an expected one. */
  function SumFailure(sum: Checksum, expected: string): Option<int> {
    match sum
    case ChecksumFails(code) => Some(code)
    case ChecksumIs(value) => if expected == "" || Same(expected, value, CHK_LEN) then None else Some(EIO)
  }

  /** What the destination checksum is compared with. */
  function Expected(env: Env, mode: Mode, i: nat, user: string): string {
    if user == "" && mode.source && env.srcChecksum(i).ChecksumIs? then env.srcChecksum(i).value else user
  }

  function SourceStatFailure(stat: Stat): Option<int> {
    match stat
    case StatFails(code) => Some(code)
    case StatOk(isDir, _) => if isDir then Some(EISDIR) else None
  }

  function SizeFailure(dst: Stat, src: Stat): Option<int> {
    match dst
    case StatFails(code) => Some(code)
    case StatOk(_, size) => if src.StatOk? && src.size == size then None else Some(EIO)
  }

  function CancelFailure(canceled: bool): Option<int> { if canceled then Some(EINTR) else None }

  /** Everything that can go wrong with a pair, phase by phase in the order in which it is noticed. */
  function SourceFailures(env: Env, mode: Mode, i: nat, user: string): seq<Option<int>> {
    [ CancelFailure(env.canceledSource(i)),
      SourceStatFailure(env.srcStat(i)),
      if mode.source then SumFailure(env.srcChecksum(i), user) else None ]
  }

  function DestFailures(env: Env, i: nat, known: bool): seq<Option<int>> {
    [CancelFailure(env.canceledDest(i)), env.deleteExisting(i), if known then None else env.createParent(i)]
  }

  function CloseFailures(env: Env, mode: Mode, i: nat, user: string): seq<Option<int>> {
    [ CancelFailure(env.canceledClose(i)),
      SizeFailure(env.dstStat(i), env.srcStat(i)),
      if mode.target then SumFailure(env.dstChecksum(i), Expected(env, mode, i, user)) else None ]
  }

  /** f is the first failure of the list, None when there is none. */
  predicate IsFirst(failures: seq<Option<int>>, f: Option<int>) {
    if f.None? then forall k | 0 <= k < |failures| :: failures[k].None?
    else exists k | 0 <= k < |failures| :: failures[k] == f && forall l | 0 <= l < k :: failures[l].None?
  }

  function Or(f: Option<int>, g: Option<int>): Option<int> { if f.Some? then f else g }

  lemma FirstOfThree(a: Option<int>, b: Option<int>, c: Option<int>)
    ensures IsFirst([a, b, c], Or(a, Or(b, c)))
  {
    var s := [a, b, c];
    assert s[0] == a && s[1] == b && s[2] == c;
  }

  lemma FirstOfBoth(x: seq<Option<int>>, y: seq<Option<int>>, f: Option<int>, g: Option<int>)
    requires IsFirst(x, f) && IsFirst(y, g)
    ensures IsFirst(x + y, Or(f, g))
  {
    if f.Some? {
      var k :| 0 <= k < |x| && x[k] == f && forall l | 0 <= l < k :: x[l].None?;
      assert (x + y)[k] == f;
    } else if g.Some? {
      var k :| 0 <= k < |y| && y[k] == g && forall l | 0 <= l < k :: y[l].None?;
      assert (x + y)[|x| + k] == g;
    }
  }

  /** What the source phase leaves: its first failure, and without one the source's size and what
      the destination is to be compared with. */
  lemma SourceLeaves(env: Env, mode: Mode, i: nat, user: string)
    ensures var p := SourcePair(env, mode, i, Pair(0, None, 0, user));
      && IsFirst(SourceFailures(env, mode, i, user), p.error)
      && (p.error.None? ==>
            && p.errn == 0 && env.srcStat(i).StatOk? && p.fsize == env.srcStat(i).size
            && p.checksum == Expected(env, mode, i, user))
  {
    var fs := SourceFailures(env, mode, i, user);
    FirstOfThree(fs[0], fs[1], fs[2]);
    assert fs == [fs[0], fs[1], fs[2]];
  }

  lemma DestLeaves(env: Env, i: nat, known: bool, p: Pair)
    requires p.errn == 0 && p.error.None?
    ensures IsFirst(DestFailures(env, i, known), DestPair(env, i, known, p).error)
    ensures DestPair(env, i, known, p).error.None? ==> DestPair(env, i, known, p) == p
  {
    var fs := DestFailures(env, i, known);
    FirstOfThree(fs[0], fs[1], fs[2]);
    assert fs == [fs[0], fs[1], fs[2]];
  }

  lemma CloseLeaves(env: Env, mode: Mode, i: nat, user: string, p: Pair)
    requires p.errn == 0 && p.error.None? && p.checksum == Expected(env, mode, i, user)
    requires env.srcStat(i).StatOk? && p.fsize == env.srcStat(i).size
    ensures IsFirst(CloseFailures(env, mode, i, user), ClosePair(env, mode, i, p).error)
  {
    var fs := CloseFailures(env, mode, i, user);
    FirstOfThree(fs[0], fs[1], fs[2]);
    assert fs == [fs[0], fs[1], fs[2]];
  }

  /** Every pair ends with the first failure, both after preparation and at the end. */
  lemma ErrorIsFirstFailure(env: Env, mode: Mode, i: nat, known: bool, user: string)
    requires CodesAreErrors(env)
    ensures var p := SourcePair(env, mode, i, Pair(0, None, 0, user));
      var prepared := SourceFailures(env, mode, i, user) + DestFailures(env, i, known);
      && IsFirst(prepared, DestPair(env, i, known, p).error)
      && IsFirst(prepared + CloseFailures(env, mode, i, user), Through(env, mode, i, known, user).error)
  {
    var p := SourcePair(env, mode, i, Pair(0, None, 0, user));
    var q := DestPair(env, i, known, p);
    var sf, df := SourceFailures(env, mode, i, user), DestFailures(env, i, known);
    var cf := CloseFailures(env, mode, i, user);
    SourceLeaves(env, mode, i, user);
    PhasesKeepAgreement(env, mode, i, known, Pair(0, None, 0, user));
    PhasesKeepAgreement(env, mode, i, known, p);
    PhasesKeepAgreement(env, mode, i, known, q);
    if p.error.None? {
      DestLeaves(env, i, known, p);
      FirstOfBoth(sf, df, p.error, q.error);
    } else {
      FirstStays(sf, df, p.error);
    }
    if q.error.None? {
      CloseLeaves(env, mode, i, user, q);
      FirstOfBoth(sf + df, cf, q.error, ClosePair(env, mode, i, q).error);
    } else {
      FirstStays(sf + df, cf, q.error);
    }
  }

  lemma FirstStays(x: seq<Option<int>>, y: seq<Option<int>>, f: Option<int>)
    requires IsFirst(x, f) && f.Some?
    ensures IsFirst(x + y, f)
  {
    var k :| 0 <= k < |x| && x[k] == f && forall l | 0 <= l < k :: x[l].None?;
    assert (x + y)[k] == f;
  }

  // ---- Which pairs a pipeline hands out -----------------------------------------------------

  /** The indices from a position on that are not marked failed, in order. */
  function Viable(errn: seq<int>, from: nat): seq<nat>
    decreases |errn| - from
  {
    if from >= |errn| then []
    else if errn[from] == 0 then [from] + Viable(errn, from + 1)
    else Viable(errn, from + 1)
  }

  /** Increasing indices from a position on, none of them marked failed. */
  ghost predicate Increasing(errn: seq<int>, from: nat, r: seq<nat>) {
    && (forall k | 0 <= k < |r| :: from <= r[k] < |errn| && errn[r[k]] == 0)
    && (forall k, l | 0 <= k < l < |r| :: r[k] < r[l])
  }

  lemma {:induction false} ViableSpec(errn: seq<int>, from: nat)
    ensures Increasing(errn, from, Viable(errn, from))
    decreases |errn| - from
  {
    if from < |errn| {
      ViableSpec(errn, from + 1);
      var tail := Viable(errn, from + 1);
      if errn[from] == 0 {
        assert Increasing(errn, from, [from] + tail);
      } else {
        assert Increasing(errn, from, tail);
      }
    }
  }

  lemma {:induction false} ViableIsComplete(errn: seq<int>, from: nat, i: nat)
    requires from <= i < |errn| && errn[i] == 0
    ensures i in Viable(errn, from)
    decreases |errn| - from
  {
    if i != from {
      ViableIsComplete(errn, from + 1, i);
    }
  }

  lemma {:induction false} ViableSkips(errn: seq<int>, from: nat, until: nat)
    requires from <= until && forall i | from <= i < until && i < |errn| :: errn[i] != 0
    ensures Viable(errn, from) == Viable(errn, until)
    decreases until - from
  {
    if from < until {
      ViableSkips(errn, from + 1, until);
    }
  }

  /** The k-th answer of a pipeline over the viable indices. */
  function Answer(viable: seq<nat>, k: nat): Option<nat> {
    if k < |viable| then Some(viable[k]) else None
  }

  /** The first n answers. */
  function Answers(viable: seq<nat>, n: nat): (r: seq<Option<nat>>)
    ensures |r| == n
  {
    if n == 0 then [] else Answers(viable, n - 1) + [Answer(viable, n - 1)]
  }

  /** The answers are exactly the viable indices in increasing order, each once, and then none
      for ever. */
  lemma {:induction false} AnswersAreTheViable(errn: seq<int>, n: nat)
    ensures var viable := Viable(errn, 0);
      && (forall k: nat | k < n :: Answers(viable, n)[k] == Answer(viable, k))
      && (forall i: nat :: Some(i) in Answers(viable, n) ==> i < |errn| && errn[i] == 0)
      && (n >= |viable| ==> forall i: nat | i < |errn| && errn[i] == 0 :: Some(i) in Answers(viable, n))
      && (forall k, l | 0 <= k < l < n && Answers(viable, n)[l].Some? ::
            Answers(viable, n)[k].Some? && Answers(viable, n)[k].value < Answers(viable, n)[l].value)
  {
    var viable := Viable(errn, 0);
    AnswersAt(viable, n);
    ViableSpec(errn, 0);
    if n >= |viable| {
      forall i: nat | i < |errn| && errn[i] == 0 ensures Some(i) in Answers(viable, n) {
        ViableIsComplete(errn, 0, i);
        var k :| 0 <= k < |viable| && viable[k] == i;
        assert Answers(viable, n)[k] == Some(i);
      }
    }
  }

  lemma {:induction false} AnswersAt(viable: seq<nat>, n: nat)
    ensures forall k: nat | k < n :: Answers(viable, n)[k] == Answer(viable, k)
  {
    if n > 0 {
      AnswersAt(viable, n - 1);
    }
  }

  /** The indices among the first n answers. */
  function Taken(viable: seq<nat>, n: nat): seq<nat> {
    if n <= |viable| then viable[..n] else viable
  }

  function Rest(viable: seq<nat>, n: nat): seq<nat> {
    if n <= |viable| then viable[n..] else []
  }

  lemma TakenNext(viable: seq<nat>, n: nat, i: nat)
    ensures i in Taken(viable, n + 1) <==> i in Taken(viable, n) || Answer(viable, n) == Some(i)
  {
    if n < |viable| {
      assert viable[..n + 1] == viable[..n] + [viable[n]];
    }
  }

  function Errors(errors: seq<Option<int>>): nat {
    if errors == [] then 0 else (if errors[0].Some? then 1 else 0) + Errors(errors[1..])
  }

  lemma {:induction false} ErrorsSnoc(errors: seq<Option<int>>, e: Option<int>)
    ensures Errors(errors + [e]) == Errors(errors) + if e.Some? then 1 else 0
  {
    if errors != [] {
      ErrorsSnoc(errors[1..], e);
      assert (errors + [e])[1..] == errors[1..] + [e];
    }
  }

  /** Counting one more entry of each of two lists. */
  lemma ErrorsNext(a: seq<Option<int>>, i: nat)
    requires i < |a|
    ensures Errors(a[..i + 1]) == Errors(a[..i]) + if a[i].Some? then 1 else 0
  {
    ErrorsSnoc(a[..i], a[i]);
    assert a[..i + 1] == a[..i] + [a[i]];
  }

  /** It is the number of positions with an error. */
  lemma {:induction false} ErrorsIsCount(errors: seq<Option<int>>)
    ensures Errors(errors) == |set i | 0 <= i < |errors| && errors[i].Some?|
  {
    if errors != [] {
      var init, last := errors[..|errors| - 1], |errors| - 1;
      ErrorsIsCount(init);
      ErrorsSnoc(init, errors[last]);
      assert errors == init + [errors[last]];
      var a, b := set i | 0 <= i < |errors| && errors[i].Some?, set i | 0 <= i < |init| && init[i].Some?;
      assert a == if errors[last].Some? then b + {last} else b;
    }
  }

  lemma {:induction false} NoErrors(errors: seq<Option<int>>, i: nat)
    requires Errors(errors) == 0 && i < |errors|
    ensures errors[i].None?
  {
    if i > 0 {
      NoErrors(errors[1..], i - 1);
    }
  }

  lemma {:induction false} AllNone(errors: seq<Option<int>>)
    requires forall i | 0 <= i < |errors| :: errors[i].None?
    ensures Errors(errors) == 0
  {
    if errors != [] {
      AllNone(errors[1..]);
    }
  }

  // ---- Counting what a phase notices ------------------------------------------------------

  function ErrorsOf(pairs: seq<Pair>): (r: seq<Option<int>>)
    ensures |r| == |pairs|
  {
    seq(|pairs|, i requires 0 <= i < |pairs| => pairs[i].error)
  }

  /** The first n pairs that were viable before a phase and have an error after it. */
  function Noticed(before: seq<Pair>, after: seq<Pair>, n: nat): nat
    requires n <= |before| == |after|
  {
    if n == 0 then 0
    else Noticed(before, after, n - 1) + if before[n - 1].errn == 0 && after[n - 1].error.Some? then 1 else 0
  }

  /** A phase leaves failed pairs alone and takes no error back. */
  predicate Monotone(before: seq<Pair>, after: seq<Pair>) {
    |before| == |after| &&
    forall i | 0 <= i < |before| ::
      (before[i].errn != 0 ==> after[i] == before[i]) && (before[i].error.Some? ==> after[i].error.Some?)
  }

  /** A phase that keeps the errors of failed pairs notices every new error, and nothing else when
      errn and file_errors agreed. */
  lemma {:induction false} NoticedCounts(before: seq<Pair>, after: seq<Pair>, n: nat)
    requires n <= |before| == |after|
    requires forall i | 0 <= i < n :: before[i].errn != 0 ==> after[i] == before[i]
    ensures Errors(ErrorsOf(after)[..n]) - Errors(ErrorsOf(before)[..n]) <= Noticed(before, after, n)
    ensures Noticed(before, after, n) <= Errors(ErrorsOf(after)[..n])
    ensures (forall i | 0 <= i < n :: Agree(before[i])) ==>
              Noticed(before, after, n) == Errors(ErrorsOf(after)[..n]) - Errors(ErrorsOf(before)[..n])
  {
    if n > 0 {
      NoticedCounts(before, after, n - 1);
      ErrorsNext(ErrorsOf(after), n - 1);
      ErrorsNext(ErrorsOf(before), n - 1);
    }
  }

  /** The same for whole lists. */
  lemma AllNoticedCount(before: seq<Pair>, after: seq<Pair>)
    requires Monotone(before, after)
    ensures Errors(ErrorsOf(after)) == 0 ==> Errors(ErrorsOf(before)) == 0
    ensures var n := Noticed(before, after, |before|);
      && Errors(ErrorsOf(after)) - Errors(ErrorsOf(before)) <= n <= Errors(ErrorsOf(after))
      && ((forall i | 0 <= i < |before| :: Agree(before[i])) ==>
            n == Errors(ErrorsOf(after)) - Errors(ErrorsOf(before)))
  {
    NoticedCounts(before, after, |before|);
    assert ErrorsOf(after)[..|before|] == ErrorsOf(after) && ErrorsOf(before)[..|before|] == ErrorsOf(before);
    if Errors(ErrorsOf(after)) == 0 {
      forall i | 0 <= i < |before| ensures ErrorsOf(before)[i].None? {
        NoErrors(ErrorsOf(after), i);
      }
      AllNone(ErrorsOf(before));
    }
  }

  // ---- Parents of destinations -------------------------------------------------------------

  predicate HasSlash(dst: string) { '/' in dst }

  function ParentName(dst: string): string {
    if dst == "" then "" else if dst[|dst| - 1] == '/' then dst[..|dst| - 1] else ParentName(dst[..|dst| - 1])
  }

  predicate Known(created: seq<string>, dst: string) { HasSlash(dst) && ParentName(dst) in created }

  /** created_parents before pair i. */
  function Created(env: Env, dsts: seq<string>, errn: seq<int>, i: nat): seq<string>
    requires i <= |dsts| == |errn|
  {
    if i == 0 then []
    else
      var before := Created(env, dsts, errn, i - 1);
      var k := i - 1;
      if errn[k] != 0 || env.canceledDest(k) || env.deleteExisting(k).Some? ||
         Known(before, dsts[k]) || env.createParent(k).Some?
      then before
      else before + [ParentName(dsts[k])]
  }

  /** All pairs after the destination phase. */
  function DestPairs(env: Env, dsts: seq<string>, errn: seq<int>, before: seq<Pair>): (r: seq<Pair>)
    requires |dsts| == |errn| == |before|
    ensures |r| == |before| && Monotone(before, r)
    ensures forall i | 0 <= i < |r| :: r[i] == DestPair(env, i, Known(Created(env, dsts, errn, i), dsts[i]), before[i])
  {
    seq(|before|, i requires 0 <= i < |before| =>
          DestPair(env, i, Known(Created(env, dsts, errn, i), dsts[i]), before[i]))
  }

  /** All pairs after the close phase. */
  function ClosePairs(env: Env, mode: Mode, before: seq<Pair>): (r: seq<Pair>)
    ensures |r| == |before| && Monotone(before, r)
    ensures forall i | 0 <= i < |r| :: r[i] == ClosePair(env, mode, i, before[i])
  {
    seq(|before|, i requires 0 <= i < |before| => ClosePair(env, mode, i, before[i]))
  }

  /** A pair that survives the destination phase has its parent among the created ones, and
      with a slash in its name no parent is created twice. */
  lemma SurvivorHasParent(env: Env, dsts: seq<string>, errn: seq<int>, i: nat, p: Pair)
    requires i < |dsts| == |errn| && p.errn == errn[i] && CodesAreErrors(env)
    requires DestPair(env, i, Known(Created(env, dsts, errn, i), dsts[i]), p).errn == 0
    ensures ParentName(dsts[i]) in Created(env, dsts, errn, i + 1)
  {}

  /** With non-zero codes or not, a pair makes its parent when nothing before or in that request
      stops it. */
  predicate Makes(env: Env, errn: seq<int>, j: nat)
    requires j < |errn|
  {
    errn[j] == 0 && !env.canceledDest(j) && env.deleteExisting(j).None? && env.createParent(j).None?
  }

  /** A parent is known before pair i exactly when some earlier pair could make it. */
  lemma {:induction false} CreatedExactly(env: Env, dsts: seq<string>, errn: seq<int>, i: nat, x: string)
    requires i <= |dsts| == |errn|
    ensures x in Created(env, dsts, errn, i) <==>
              exists j: nat | j < i :: Makes(env, errn, j) && ParentName(dsts[j]) == x
  {
    if i > 0 {
      CreatedExactly(env, dsts, errn, i - 1, x);
    }
  }

  lemma {:induction false} ParentNameSpec(dst: string)
    requires HasSlash(dst)
    ensures var n := |ParentName(dst)|;
      n < |dst| && dst[..n] == ParentName(dst) && dst[n] == '/' && '/' !in dst[n + 1..]
  {
    var last := |dst| - 1;
    if dst[last] != '/' {
      var init := dst[..last];
      assert dst == init + [dst[last]];
      ParentNameSpec(init);
      var n := |ParentName(init)|;
      assert dst[n + 1..] == init[n + 1..] + [dst[last]];
    }
  }

  ghost predicate Distinct(names: seq<string>) {
    forall j, k | 0 <= j < k < |names| :: names[j] != names[k]
  }

  lemma DistinctSnoc(names: seq<string>, x: string)
    requires Distinct(names) && x !in names
    ensures Distinct(names + [x])
  {
    forall j | 0 <= j < |names| ensures (names + [x])[j] != x {
      assert names[j] in names;
    }
  }

  lemma {:induction false} ParentsCreatedOnce(env: Env, dsts: seq<string>, errn: seq<int>, i: nat)
    requires i <= |dsts| == |errn| && forall k | 0 <= k < i :: HasSlash(dsts[k])
    ensures Distinct(Created(env, dsts, errn, i))
  {
    if i > 0 {
      ParentsCreatedOnce(env, dsts, errn, i - 1);
      var before := Created(env, dsts, errn, i - 1);
      if ParentName(dsts[i - 1]) !in before {
        DistinctSnoc(before, ParentName(dsts[i - 1]));
      }
    }
  }

  // ---- The shared record, updated in place ----------------------------------------------

  class BulkData {
    const nbfiles: nat
    const errn: array<int>
    const fsize: array<int>
    const checksums: array<string>
    const started: array<bool>
    const fileErrors: array<Option<int>>
    var index: nat

    ghost predicate Shape() {
      errn.Length == fsize.Length == checksums.Length == started.Length == fileErrors.Length == nbfiles && errn != fsize
    }

    ghost function View(i: nat): Pair
      requires Shape() && i < nbfiles
      reads errn, fsize, checksums, fileErrors
    {
      Pair(errn[i], fileErrors[i], fsize[i], checksums[i])
    }

    ghost function Pairs(): (r: seq<Pair>)
      requires Shape()
      reads errn, fsize, checksums, fileErrors
      ensures |r| == nbfiles && ErrorsOf(r) == fileErrors[..]
    {
      seq(nbfiles, i requires 0 <= i < nbfiles reads errn, fsize, checksums, fileErrors => View(i))
    }

    /** A phase stands before pair i: earlier pairs are as it leaves them, later ones as it found them. */
    ghost predicate Between(before: seq<Pair>, after: seq<Pair>, i: nat)
      requires Shape() && |before| == |after| == nbfiles
      reads errn, fsize, checksums, fileErrors
    {
      forall j: nat | j < nbfiles :: View(j) == if j < i then after[j] else before[j]
    }

    /** errn and file_errors agree for every pair. */
    ghost predicate AllAgree()
      requires Shape()
      reads errn, fsize, checksums, fileErrors
    {
      forall i: nat | i < nbfiles :: Agree(View(i))
    }

    constructor (user: seq<string>)
      ensures Shape() && nbfiles == |user|
      ensures fresh(errn) && fresh(fsize) && fresh(checksums) && fresh(fileErrors) && fresh(started)
      ensures forall i: nat | i < nbfiles :: View(i) == Pair(0, None, 0, user[i]) && !started[i]
    {
      nbfiles := |user|;
      errn := new int[|user|](_ => 0);
      fsize := new int[|user|](_ => 0);
      checksums := new string[|user|](i requires 0 <= i < |user| => user[i]);
      started := new bool[|user|](_ => false);
      fileErrors := new Option<int>[|user|](_ => None);
      index := 0;
    }

    twostate lemma SameErrors(i: nat)
      requires Shape() && i <= nbfiles && forall j: nat | j < i :: View(j) == old(View(j))
      ensures fileErrors[..i] == old(fileErrors[..i])
    {
      forall j: nat | j < i ensures fileErrors[j] == old(fileErrors[j]) {
        assert View(j).error == old(View(j)).error;
      }
    }

    method SetError(i: nat, code: int)
      requires Shape() && i < nbfiles
      modifies errn, fileErrors
      ensures View(i) == Fail(old(View(i)), code)
      ensures forall j: nat | j < nbfiles && j != i :: View(j) == old(View(j))
    {
      fileErrors[i] := Some(code);
      errn[i] := code;
    }

    method CheckSource(env: Env, mode: Mode, i: nat)
      requires Shape() && i < nbfiles
      modifies errn, fsize, checksums, fileErrors
      ensures View(i) == SourcePair(env, mode, i, old(View(i)))
      ensures forall j: nat | j < nbfiles && j != i :: View(j) == old(View(j))
    {
      if env.canceledSource(i) {
        SetError(i, EINTR);
        return;
      }
      match env.srcStat(i) {
        case StatFails(code) =>
          SetError(i, code);
        case StatOk(isDir, size) =>
          if isDir {
            SetError(i, EISDIR);
            return;
          }
          fsize[i] := size;
          if mode.source {
            match env.srcChecksum(i) {
              case ChecksumFails(code) => SetError(i, code);
              case ChecksumIs(value) =>
                if checksums[i] != "" {
                  if !Same(checksums[i], value, CHK_LEN) {
                    SetError(i, EIO);
                  }
                } else {
                  checksums[i] := value;
                }
            }
          }
      }
    }

    method CheckSources(env: Env, mode: Mode) returns (nfailed: nat)
      requires Shape()
      modifies errn, fsize, checksums, fileErrors
      ensures forall j: nat | j < nbfiles :: View(j) == SourcePair(env, mode, j, old(View(j)))
      ensures nfailed == Errors(fileErrors[..])
    {
      nfailed := 0;
      for i := 0 to nbfiles
        invariant forall j: nat | j < i :: View(j) == SourcePair(env, mode, j, old(View(j)))
        invariant forall j: nat | i <= j < nbfiles :: View(j) == old(View(j))
        invariant nfailed == Errors(fileErrors[..i])
      {
        ghost var before := fileErrors[..i];
        label Here:
        CheckSource(env, mode, i);
        SameErrors@Here(i);
        if fileErrors[i].Some? {
          nfailed := nfailed + 1;
        }
        ErrorsSnoc(before, fileErrors[i]);
        assert fileErrors[..i + 1] == before + [fileErrors[i]];
      }
      assert fileErrors[..nbfiles] == fileErrors[..];
    }

    /** One pair of the destination phase; returns the parents created so far. */
    method PrepareDestination(env: Env, dst: string, i: nat, created: seq<string>) returns (created': seq<string>)
      requires Shape() && i < nbfiles
      modifies errn, fileErrors
      ensures View(i) == DestPair(env, i, Known(created, dst), old(View(i)))
      ensures forall j: nat | j < nbfiles && j != i :: View(j) == old(View(j))
      ensures created' == if old(errn[i]) != 0 || env.canceledDest(i) || env.deleteExisting(i).Some? ||
                             Known(created, dst) || env.createParent(i).Some?
                          then created else created + [ParentName(dst)]
    {
      created' := created;
      if errn[i] == 0 {
        if env.canceledDest(i) {
          SetError(i, EINTR);
        } else if env.deleteExisting(i).Some? {
          SetError(i, env.deleteExisting(i).value);
        } else if Known(created, dst) {
          return;
        } else if env.createParent(i).Some? {
          SetError(i, env.createParent(i).value);
        } else {
          created' := created + [ParentName(dst)];
        }
      }
    }

    method PrepareDestinations(env: Env, dsts: seq<string>) returns (nfailed: nat)
      requires Shape() && |dsts| == nbfiles
      modifies errn, fileErrors
      ensures forall j: nat | j < nbfiles ::
                View(j) == DestPair(env, j, Known(Created(env, dsts, old(errn[..]), j), dsts[j]), old(View(j)))
      ensures Errors(fileErrors[..]) - Errors(old(fileErrors[..])) <= nfailed <= Errors(fileErrors[..])
      ensures Errors(fileErrors[..]) == 0 ==> Errors(old(fileErrors[..])) == 0
      ensures old(AllAgree()) ==> nfailed == Errors(fileErrors[..]) - Errors(old(fileErrors[..]))
    {
      nfailed := 0;
      var created: seq<string> := [];
      ghost var before, errn0 := Pairs(), errn[..];
      ghost var after := DestPairs(env, dsts, errn0, before);
      for i := 0 to nbfiles
        invariant created == Created(env, dsts, errn0, i) && nfailed == Noticed(before, after, i)
        invariant Between(before, after, i)
      {
        assert before[i].errn == errn0[i];
        var failed;
        created, failed := PrepareNext(env, dsts[i], i, created, before, after);
        nfailed := if failed then nfailed + 1 else nfailed;
      }
      assert Pairs() == after;
      AllNoticedCount(before, after);
      forall j: nat | j < nbfiles
        ensures View(j) == DestPair(env, j, Known(Created(env, dsts, errn0, j), dsts[j]), old(View(j)))
      {
        assert View(j) == after[j] && before[j] == old(View(j));
      }
    }

    method PrepareNext(env: Env, dst: string, i: nat, created: seq<string>, ghost before: seq<Pair>,
                       ghost after: seq<Pair>)
      returns (created': seq<string>, failed: bool)
      requires Shape() && i < nbfiles == |before| == |after| && Between(before, after, i)
      requires after[i] == DestPair(env, i, Known(created, dst), before[i])
      modifies errn, fileErrors
      ensures Between(before, after, i + 1)
      ensures failed <==> before[i].errn == 0 && after[i].error.Some?
      ensures created' == if before[i].errn != 0 || env.canceledDest(i) || env.deleteExisting(i).Some? ||
                             Known(created, dst) || env.createParent(i).Some?
                          then created else created + [ParentName(dst)]
    {
      assert View(i) == before[i];
      var viable := errn[i] == 0;
      created' := PrepareDestination(env, dst, i, created);
      assert View(i) == after[i];
      failed := viable && fileErrors[i].Some?;
    }

    method Close(env: Env, mode: Mode, i: nat)
      requires Shape() && i < nbfiles
      modifies errn, checksums, fileErrors
      ensures View(i) == ClosePair(env, mode, i, old(View(i)))
      ensures forall j: nat | j < nbfiles && j != i :: View(j) == old(View(j))
    {
      if errn[i] != 0 {
        return;
      }
      if env.canceledClose(i) {
        SetError(i, EINTR);
        return;
      }
      match env.dstStat(i) {
        case StatFails(code) => SetError(i, code);
        case StatOk(_, size) =>
          if fsize[i] != size {
            SetError(i, EIO);
          } else if mode.target {
            match env.dstChecksum(i) {
              case ChecksumFails(code) => SetError(i, code);
              case ChecksumIs(value) =>
                if checksums[i] != "" {
                  if !Same(checksums[i], value, CHK_LEN) {
                    SetError(i, EIO);
                  }
                } else {
                  checksums[i] := value;
                }
            }
          }
      }
    }

    method CloseAll(env: Env, mode: Mode) returns (nfailed: nat)
      requires Shape()
      modifies errn, checksums, fileErrors
      ensures forall j: nat | j < nbfiles :: View(j) == ClosePair(env, mode, j, old(View(j)))
      ensures Errors(fileErrors[..]) - Errors(old(fileErrors[..])) <= nfailed <= Errors(fileErrors[..])
      ensures Errors(fileErrors[..]) == 0 ==> Errors(old(fileErrors[..])) == 0
      ensures old(AllAgree()) ==> nfailed == Errors(fileErrors[..]) - Errors(old(fileErrors[..]))
    {
      nfailed := 0;
      ghost var before := Pairs();
      ghost var after := ClosePairs(env, mode, before);
      for i := 0 to nbfiles
        invariant nfailed == Noticed(before, after, i)
        invariant Between(before, after, i)
      {
        var failed := CloseNext(env, mode, i, before, after);
        nfailed := if failed then nfailed + 1 else nfailed;
      }
      AllNoticedCount(before, after);
      assert Pairs() == after;
    }

    method CloseNext(env: Env, mode: Mode, i: nat, ghost before: seq<Pair>, ghost after: seq<Pair>)
      returns (failed: bool)
      requires Shape() && i < nbfiles == |before| == |after| && Between(before, after, i)
      requires after[i] == ClosePair(env, mode, i, before[i])
      modifies errn, checksums, fileErrors
      ensures Between(before, after, i + 1)
      ensures failed <==> before[i].errn == 0 && after[i].error.Some?
    {
      assert View(i) == before[i];
      var viable := errn[i] == 0;
      Close(env, mode, i);
      assert View(i) == after[i];
      failed := viable && fileErrors[i].Some?;
    }

    // ---- The pipeline -----------------------------------------------------------------

    /** Moves index to the first viable pair at or after it. */
    method SkipFailed()
      requires Shape()
      modifies this`index
      ensures index >= old(index)
      ensures index < nbfiles ==>
                errn[index] == 0 && Viable(errn[..], old(index)) == [index] + Viable(errn[..], index + 1)
      ensures index >= nbfiles ==> Viable(errn[..], old(index)) == []
    {
      while index < nbfiles && errn[index] != 0
        invariant old(index) <= index
        invariant forall i | old(index) <= i < index && i < nbfiles :: errn[i] != 0
        decreases nbfiles - index
      {
        index := index + 1;
      }
      ViableSkips(errn[..], old(index), index);
    }

    /** gridftp_pipeline_callback */
    method NextPair() returns (pair: Option<nat>)
      requires Shape()
      modifies this`index, started
      ensures index > old(index)
      ensures pair == Answer(Viable(errn[..], old(index) + 1), 0)
      ensures pair.Some? ==>
                pair.value == index < nbfiles && Viable(errn[..], old(index) + 1)[1..] == Viable(errn[..], index + 1)
      ensures pair.None? ==> Viable(errn[..], index + 1) == []
      ensures forall i | 0 <= i < nbfiles :: started[i] == (old(started[i]) || pair == Some(i))
    {
      index := index + 1;
      SkipFailed();
      if index < nbfiles {
        started[index] := true;
        pair := Some(index);
      } else {
        pair := None;
      }
    }

    /** Besides those marked before, exactly the first n answers are marked started. */
    ghost predicate StartedAre(base: seq<bool>, viable: seq<nat>, n: nat)
      reads started
    {
      Shape() && |base| == nbfiles && forall i: nat | i < nbfiles :: started[i] <==> base[i] || i in Taken(viable, n)
    }

    /** The callback as the n-th request of an attempt over the given viable indices. */
    method Ask(ghost base: seq<bool>, ghost viable: seq<nat>, ghost n: nat) returns (pair: Option<nat>)
      requires StartedAre(base, viable, n) && Viable(errn[..], index + 1) == Rest(viable, n)
      modifies this`index, started
      ensures pair == Answer(viable, n) && Viable(errn[..], index + 1) == Rest(viable, n + 1)
      ensures StartedAre(base, viable, n + 1)
    {
      pair := NextPair();
      assert n < |viable| ==> Rest(viable, n)[1..] == Rest(viable, n + 1);
      forall i: nat | i < nbfiles ensures started[i] <==> base[i] || i in Taken(viable, n + 1) {
        TakenNext(viable, n, i);
      }
    }

    /** One pipeline attempt in which Globus asks calls times for another pair: the initial pair
        and all answers are the answers over the viable indices, and exactly the pairs handed
        out are marked started. */
    method Pipeline(calls: nat) returns (answers: seq<Option<nat>>)
      requires Shape()
      modifies this`index, started
      ensures var viable := Viable(errn[..], 0);
        && answers == Answers(viable, if viable == [] then 0 else calls + 1)
        && StartedAre(old(started[..]), viable, |answers|)
    {
      ghost var base, viable := started[..], Viable(errn[..], 0);
      index := 0;
      SkipFailed();
      if index >= nbfiles {
        return [];
      }
      started[index] := true;
      answers := [Some(index)];
      assert Taken(viable, 1) == [index] && Rest(viable, 1) == Viable(errn[..], index + 1);
      assert answers == Answers(viable, 0) + [Answer(viable, 0)];
      for c := 0 to calls
        invariant answers == Answers(viable, c + 1)
        invariant StartedAre(base, viable, c + 1)
        invariant Viable(errn[..], index + 1) == Rest(viable, c + 1)
      {
        var pair := Ask(base, viable, c + 1);
        answers := answers + [pair];
      }
    }
  }

  // ---- The whole copy ---------------------------------------------------------------------

  /** How the transfer step went: canceled before it, or one attempt, or a failed UDT attempt
      and a second one without it. Results are 0 or negative. */
  datatype Transfer = Transfer(canceled: bool, calls: nat, ret: int, retry: bool, calls2: nat, ret2: int)

  /** A pair as the destination phase leaves it. */
  function Prepared(env: Env, mode: Mode, dsts: seq<string>, user: seq<string>, i: nat): Pair
    requires i < |dsts| == |user|
  {
    var p := SourcePair(env, mode, i, Pair(0, None, 0, user[i]));
    DestPair(env, i, Known(Created(env, dsts, SourceErrn(env, mode, user), i), dsts[i]), p)
  }

  function SourceErrn(env: Env, mode: Mode, user: seq<string>): (r: seq<int>)
    ensures |r| == |user|
  {
    seq(|user|, i requires 0 <= i < |user| => SourcePair(env, mode, i, Pair(0, None, 0, user[i])).errn)
  }

  /** The result of the transfer step, given whether any pair is left to transfer. */
  function TransferResult(t: Transfer, nothingLeft: bool): int {
    if t.canceled then -1
    else if nothingLeft then 0
    else if t.ret < 0 && t.retry then t.ret2
    else t.ret
  }

  /** Every pair failed in preparation. */
  predicate NothingLeft(env: Env, mode: Mode, dsts: seq<string>, user: seq<string>)
    requires |dsts| == |user|
  {
    forall i: nat | i < |user| :: Prepared(env, mode, dsts, user, i).errn != 0
  }

  lemma NoneViable(errn: seq<int>)
    ensures Viable(errn, 0) == [] <==> forall i: nat | i < |errn| :: errn[i] != 0
  {
    ViableSpec(errn, 0);
    if Viable(errn, 0) == [] {
      forall i: nat | i < |errn| ensures errn[i] != 0 {
        if errn[i] == 0 {
          ViableIsComplete(errn, 0, i);
        }
      }
    } else {
      assert errn[Viable(errn, 0)[0]] == 0;
    }
  }

  /** A pair as the call leaves it: the close phase is only reached when the transfer succeeded. */
  function Final(env: Env, mode: Mode, dsts: seq<string>, user: seq<string>, transfer: Transfer, i: nat): Pair
    requires i < |dsts| == |user|
  {
    var p := Prepared(env, mode, dsts, user, i);
    if TransferResult(transfer, NothingLeft(env, mode, dsts, user)) == 0 then ClosePair(env, mode, i, p) else p
  }

  /** The transfer was not canceled and its only or its second attempt succeeded. */
  predicate Worked(t: Transfer) { !t.canceled && (t.ret == 0 || (t.retry && t.ret2 == 0)) }

  /** An earlier pair has the same parent and could create it. */
  predicate ParentMade(env: Env, dsts: seq<string>, i: nat)
    requires i < |dsts|
  {
    HasSlash(dsts[i]) &&
    exists j: nat | j < i :: env.createParent(j).None? && ParentName(dsts[j]) == ParentName(dsts[i])
  }

  /** Every pair passes, from the answers alone. */
  predicate AllPass(env: Env, mode: Mode, dsts: seq<string>, user: seq<string>)
    requires |dsts| == |user|
  {
    forall i: nat | i < |user| :: Passes(env, mode, i, ParentMade(env, dsts, i), user[i])
  }

  /** No pair has an error at the end and the transfer gave 0. */
  predicate AllClear(env: Env, mode: Mode, dsts: seq<string>, user: seq<string>, transfer: Transfer)
    requires |dsts| == |user|
  {
    && TransferResult(transfer, NothingLeft(env, mode, dsts, user)) == 0
    && forall i: nat | i < |user| :: Final(env, mode, dsts, user, transfer, i).error.None?
  }

  /** A pair's parent is known exactly when an earlier pair made it, once all earlier pairs passed. */
  lemma KnownExactly(env: Env, mode: Mode, dsts: seq<string>, user: seq<string>, i: nat)
    requires i < |dsts| == |user| && forall j: nat | j < i :: Passes(env, mode, j, true, user[j])
    ensures Known(Created(env, dsts, SourceErrn(env, mode, user), i), dsts[i]) <==> ParentMade(env, dsts, i)
  {
    var errn := SourceErrn(env, mode, user);
    CreatedExactly(env, dsts, errn, i, ParentName(dsts[i]));
    forall j: nat | j < i ensures Makes(env, errn, j) <==> env.createParent(j).None? {
      assert Passes(env, mode, j, true, user[j]);
      assert errn[j] == 0;
    }
  }

  /** The call comes out clean exactly when every pair passes and the transfer worked. */
  lemma ClearExactly(env: Env, mode: Mode, dsts: seq<string>, user: seq<string>, transfer: Transfer)
    requires |dsts| == |user| && user != [] && transfer.ret <= 0 && transfer.ret2 <= 0
    ensures AllClear(env, mode, dsts, user, transfer) <==> AllPass(env, mode, dsts, user) && Worked(transfer)
  {
    var errn := SourceErrn(env, mode, user);
    if AllClear(env, mode, dsts, user, transfer) || AllPass(env, mode, dsts, user) {
      EachPasses(env, mode, dsts, user, transfer, |user|);
    }
    if AllPass(env, mode, dsts, user) {
      assert Prepared(env, mode, dsts, user, 0).errn == 0;
    }
  }

  /** The same for one pair, once all earlier ones pass. */
  lemma PairPassesExactly(env: Env, mode: Mode, dsts: seq<string>, user: seq<string>, i: nat)
    requires i < |dsts| == |user| && forall j: nat | j < i :: Passes(env, mode, j, true, user[j])
    ensures ClosePair(env, mode, i, Prepared(env, mode, dsts, user, i)).error.None? <==>
              Passes(env, mode, i, ParentMade(env, dsts, i), user[i])
  {
    KnownExactly(env, mode, dsts, user, i);
    SurvivesExactly(env, mode, i, ParentMade(env, dsts, i), user[i]);
  }

  lemma {:induction false} EachPasses(env: Env, mode: Mode, dsts: seq<string>, user: seq<string>, transfer: Transfer,
                                      n: nat)
    requires n <= |dsts| == |user|
    requires AllClear(env, mode, dsts, user, transfer) || AllPass(env, mode, dsts, user)
    ensures forall i: nat | i < n ::
      && Passes(env, mode, i, ParentMade(env, dsts, i), user[i])
      && ClosePair(env, mode, i, Prepared(env, mode, dsts, user, i)).error.None?
  {
    if n > 0 {
      var i := n - 1;
      EachPasses(env, mode, dsts, user, transfer, i);
      forall j: nat | j < i ensures Passes(env, mode, j, true, user[j]) {
        assert Passes(env, mode, j, ParentMade(env, dsts, j), user[j]);
      }
      PairPassesExactly(env, mode, dsts, user, i);
      assert AllClear(env, mode, dsts, user, transfer) ==> Final(env, mode, dsts, user, transfer, i).error.None?;
    }
  }

  lemma NothingLeftIs(data: BulkData, env: Env, mode: Mode, dsts: seq<string>, user: seq<string>)
    requires data.Shape() && data.nbfiles == |dsts| == |user|
    requires forall i: nat | i < data.nbfiles :: data.View(i) == Prepared(env, mode, dsts, user, i)
    ensures (forall i: nat | i < data.nbfiles :: data.errn[i] != 0) <==> NothingLeft(env, mode, dsts, user)
  {
    forall i: nat | i < data.nbfiles ensures data.errn[i] == Prepared(env, mode, dsts, user, i).errn {
      assert data.View(i).errn == data.errn[i];
    }
  }

  /** The preparation phases; the result counts each failed pair once. */
  method Prepare(data: BulkData, env: Env, mode: Mode, dsts: seq<string>, user: seq<string>) returns (failed: nat)
    requires data.Shape() && data.nbfiles == |dsts| == |user|
    requires forall i: nat | i < data.nbfiles :: data.View(i) == Pair(0, None, 0, user[i])
    modifies data.errn, data.fsize, data.checksums, data.fileErrors
    ensures forall i: nat | i < data.nbfiles :: data.View(i) == Prepared(env, mode, dsts, user, i)
    ensures (forall i: nat | i < data.nbfiles :: data.errn[i] != 0) <==> NothingLeft(env, mode, dsts, user)
    ensures failed >= Errors(data.fileErrors[..])
    ensures Errors(data.fileErrors[..]) == 0 ==> failed == 0
    ensures CodesAreErrors(env) ==> data.AllAgree() && failed == Errors(data.fileErrors[..])
  {
    var src := data.CheckSources(env, mode);
    if CodesAreErrors(env) {
      forall i: nat | i < data.nbfiles ensures Agree(data.View(i)) {
        PhasesKeepAgreement(env, mode, i, false, Pair(0, None, 0, user[i]));
      }
    }
    assert data.errn[..] == SourceErrn(env, mode, user) by {
      forall i: nat | i < data.nbfiles ensures data.errn[i] == SourceErrn(env, mode, user)[i] {
        assert data.View(i).errn == data.errn[i];
      }
    }
    label Sources:
    var dst := data.PrepareDestinations(env, dsts);
    if CodesAreErrors(env) {
      forall i: nat | i < data.nbfiles ensures Agree(data.View(i)) {
        var known := Known(Created(env, dsts, SourceErrn(env, mode, user), i), dsts[i]);
        PhasesKeepAgreement(env, mode, i, known, old@Sources(data.View(i)));
      }
    }
    NothingLeftIs(data, env, mode, dsts, user);
    failed := src + dst;
  }

  method TransferAll(data: BulkData, transfer: Transfer) returns (ret: int)
    requires data.Shape() && (forall i: nat | i < data.nbfiles :: !data.started[i])
    requires transfer.ret <= 0 && transfer.ret2 <= 0
    modifies data`index, data.started
    ensures forall i: nat | i < data.nbfiles && data.started[i] :: data.errn[i] == 0
    ensures transfer.canceled ==> forall i: nat | i < data.nbfiles :: !data.started[i]
    ensures ret == TransferResult(transfer, forall i: nat | i < data.nbfiles :: data.errn[i] != 0)
  {
    ret := -1;
    ViableSpec(data.errn[..], 0);
    NoneViable(data.errn[..]);
    if !transfer.canceled {
      var answers := data.Pipeline(transfer.calls);
      ret := if answers == [] then 0 else transfer.ret;
      if ret < 0 && transfer.retry {
        answers := data.Pipeline(transfer.calls2);
        ret := if answers == [] then 0 else transfer.ret2;
      }
    }
  }

  /** The close phase over prepared pairs. */
  method Finish(data: BulkData, env: Env, mode: Mode, dsts: seq<string>, user: seq<string>) returns (closed: nat)
    requires data.Shape() && data.nbfiles == |dsts| == |user|
    requires forall i: nat | i < data.nbfiles :: data.View(i) == Prepared(env, mode, dsts, user, i)
    requires CodesAreErrors(env) ==> data.AllAgree()
    modifies data.errn, data.checksums, data.fileErrors
    ensures forall i: nat | i < data.nbfiles ::
              data.View(i) == ClosePair(env, mode, i, Prepared(env, mode, dsts, user, i))
    ensures Errors(data.fileErrors[..]) - Errors(old(data.fileErrors[..])) <= closed <= Errors(data.fileErrors[..])
    ensures CodesAreErrors(env) ==>
              data.AllAgree() && closed == Errors(data.fileErrors[..]) - Errors(old(data.fileErrors[..]))
    ensures Errors(data.fileErrors[..]) == 0 ==> Errors(old(data.fileErrors[..])) == 0
  {
    closed := data.CloseAll(env, mode);
    if CodesAreErrors(env) {
      forall i: nat | i < data.nbfiles ensures Agree(data.View(i)) {
        PhasesKeepAgreement(env, mode, i, false, old(data.View(i)));
      }
    }
  }

  /** With non-zero codes, every pair ends with the first failure of the phases that it went through. */
  lemma FinalIsFirstFailure(env: Env, mode: Mode, dsts: seq<string>, user: seq<string>, transfer: Transfer, i: nat)
    requires i < |dsts| == |user| && CodesAreErrors(env)
    ensures var known := Known(Created(env, dsts, SourceErrn(env, mode, user), i), dsts[i]);
      var prepared := SourceFailures(env, mode, i, user[i]) + DestFailures(env, i, known);
      var closed := TransferResult(transfer, NothingLeft(env, mode, dsts, user)) == 0;
      IsFirst(if closed then prepared + CloseFailures(env, mode, i, user[i]) else prepared,
              Final(env, mode, dsts, user, transfer, i).error)
  {
    ErrorIsFirstFailure(env, mode, i, Known(Created(env, dsts, SourceErrn(env, mode, user), i), dsts[i]), user[i]);
  }

  /** gridftp_bulk_copy. The result is 0 exactly when every pair passes all its tests and the
      transfer worked; otherwise the negated result is the number of set file errors, or of pairs
      when the transfer failed. No pair that failed in preparation is ever started, and errn and
      file_errors agree at the end. */
  method Copy(env: Env, mode: Mode, dsts: seq<string>, user: seq<string>, scopeRefused: bool, transfer: Transfer)
    returns (data: BulkData?, ret: int)
    requires |dsts| == |user| && transfer.ret <= 0 && transfer.ret2 <= 0
    ensures data == null <==> user == [] || scopeRefused
    ensures data == null ==> ret == -1
    ensures data != null ==> fresh(data) && data.Shape() && data.nbfiles == |user|
    ensures data != null ==> forall i: nat | i < |user| :: data.View(i) == Final(env, mode, dsts, user, transfer, i)
    ensures data != null ==> forall i: nat | i < |user| && data.started[i] ::
              Prepared(env, mode, dsts, user, i).errn == 0 && !transfer.canceled
    ensures data != null && CodesAreErrors(env) ==> data.AllAgree()
    ensures data != null && TransferResult(transfer, NothingLeft(env, mode, dsts, user)) < 0 ==> ret == -|user|
    ensures data != null && TransferResult(transfer, NothingLeft(env, mode, dsts, user)) >= 0 ==>
              && -ret >= Errors(data.fileErrors[..])
              && (CodesAreErrors(env) ==> -ret == Errors(data.fileErrors[..]))
    ensures ret == 0 <==> data != null && AllPass(env, mode, dsts, user) && Worked(transfer)
  {
    if user == [] || scopeRefused {
      return null, -1;
    }
    data := new BulkData(user);
    ret := CopyPairs(data, env, mode, dsts, user, transfer);
    ClearExactly(env, mode, dsts, user, transfer);
    assert ret == 0 <==> AllClear(env, mode, dsts, user, transfer) by {
      if ret == 0 {
        forall i: nat | i < |user| ensures Final(env, mode, dsts, user, transfer, i).error.None? {
          NoErrors(data.fileErrors[..], i);
          assert data.View(i).error == data.fileErrors[i];
        }
      } else if AllClear(env, mode, dsts, user, transfer) {
        forall i: nat | i < |user| ensures data.fileErrors[i].None? {
          assert data.View(i).error == data.fileErrors[i];
        }
        AllNone(data.fileErrors[..]);
      }
    }
  }

  /** The phases over a fresh record. */
  method CopyPairs(data: BulkData, env: Env, mode: Mode, dsts: seq<string>, user: seq<string>, transfer: Transfer)
    returns (ret: int)
    requires data.Shape() && data.nbfiles == |dsts| == |user| > 0 && transfer.ret <= 0 && transfer.ret2 <= 0
    requires forall i: nat | i < data.nbfiles :: data.View(i) == Pair(0, None, 0, user[i]) && !data.started[i]
    modifies data`index, data.errn, data.fsize, data.checksums, data.fileErrors, data.started
    ensures forall i: nat | i < |user| :: data.View(i) == Final(env, mode, dsts, user, transfer, i)
    ensures forall i: nat | i < |user| && data.started[i] ::
              Prepared(env, mode, dsts, user, i).errn == 0 && !transfer.canceled
    ensures CodesAreErrors(env) ==> data.AllAgree()
    ensures TransferResult(transfer, NothingLeft(env, mode, dsts, user)) < 0 ==> ret == -|user|
    ensures TransferResult(transfer, NothingLeft(env, mode, dsts, user)) >= 0 ==>
              && -ret >= Errors(data.fileErrors[..]) && (Errors(data.fileErrors[..]) == 0 ==> ret == 0)
              && (CodesAreErrors(env) ==> -ret == Errors(data.fileErrors[..]))
  {
    var failed := Prepare(data, env, mode, dsts, user);
    var t := TransferAll(data, transfer);
    if t < 0 {
      failed := |user|;
    }
    if t == 0 {
      var closed := Finish(data, env, mode, dsts, user);
      failed := failed + closed;
    }
    ret := -failed;
  }
}
