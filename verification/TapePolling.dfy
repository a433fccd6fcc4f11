/** Polling of the Tape REST API: collapse_slashes of src/utils/uri/gfal2_parsing.c and the item
    search, the locality mapping and the two poll loops of
    src/plugins/http/gfal_http_plugin_tape.cpp. */
module TapePolling {
  import opened Wrappers
  import opened CStrings

  const EPERM: int := 1
  const ENOENT: int := 2
  const EAGAIN: int := 11
  const ENOMSG: int := 42
  const ECANCELED: int := 125

  // ---- Collapsing slashes ------------------------------------------------------------------

  /** Each run of slashes becomes one. */
  function Collapse(path: string): string {
    if |path| < 2 then path
    else if path[0] == '/' && path[1] == '/' then Collapse(path[1..])
    else [path[0]] + Collapse(path[1..])
  }

  /** One more character on a collapsed path. */
  function Push(done: string, c: char): string {
    if c == '/' && done != "" && done[|done| - 1] == '/' then done else done + [c]
  }

  lemma {:induction false} CollapseKeepsLast(path: string)
    requires path != ""
    ensures Collapse(path) != "" && Collapse(path)[|Collapse(path)| - 1] == path[|path| - 1]
  {
    if |path| >= 2 {
      CollapseKeepsLast(path[1..]);
    }
  }

  lemma PushBehind(c0: char, rest: string, c: char)
    requires rest != ""
    ensures Push([c0] + rest, c) == [c0] + Push(rest, c)
  {
    if c != '/' || rest[|rest| - 1] != '/' {
      assert ([c0] + rest) + [c] == [c0] + (rest + [c]);
    }
  }

  lemma {:induction false} CollapsePush(path: string, c: char)
    ensures Collapse(path + [c]) == Push(Collapse(path), c)
  {
    if |path| >= 2 {
      var tail := path[1..];
      CollapsePush(tail, c);
      assert (path + [c])[1..] == tail + [c];
      if !(path[0] == '/' && path[1] == '/') {
        CollapseKeepsLast(tail);
        PushBehind(path[0], Collapse(tail), c);
      }
    } else if |path| == 1 {
      assert (path + [c])[1..] == [c];
    }
  }

  /** gfal2_path_collapse_slashes: a stack in a buffer as long as the path. */
  method CollapseSlashes(path: string) returns (collapsed: string)
    ensures collapsed == Collapse(path)
  {
    var stack := new char[|path|];
    var pos := 0;
    for i := 0 to |path|
      invariant 0 <= pos <= i && stack[..pos] == Collapse(path[..i])
    {
      CollapsePush(path[..i], path[i]);
      assert path[..i + 1] == path[..i] + [path[i]];
      if path[i] != '/' || pos == 0 || stack[pos - 1] != '/' {
        stack[pos] := path[i];
        pos := pos + 1;
        assert stack[..pos] == stack[..pos - 1] + [path[i]];
      }
    }
    assert path[..|path|] == path;
    collapsed := stack[..pos];
  }

  lemma {:induction false} CollapseTwice(path: string)
    ensures Collapse(Collapse(path)) == Collapse(path)
    ensures path != "" ==> Collapse(path) != "" && Collapse(path)[0] == path[0]
  {
    if |path| >= 2 {
      CollapseTwice(path[1..]);
      var rest := Collapse(path[1..]);
      if !(path[0] == '/' && path[1] == '/') {
        assert ([path[0]] + rest)[1..] == rest;
      }
    }
  }

  predicate NoDouble(path: string) { forall i | 0 < i < |path| :: path[i - 1] != '/' || path[i] != '/' }

  /** A path without a double slash stays, and every other one becomes such a path. */
  lemma {:induction false} CollapseIsSingle(path: string)
    ensures NoDouble(Collapse(path)) && (NoDouble(path) ==> Collapse(path) == path)
  {
    if |path| >= 2 {
      var tail := path[1..];
      CollapseIsSingle(tail);
      CollapseTwice(tail);
      assert forall i | 0 < i < |tail| :: tail[i] == path[i + 1] && tail[i - 1] == path[i];
      if !(path[0] == '/' && path[1] == '/') {
        var r := [path[0]] + Collapse(tail);
        assert forall i | 0 < i < |r| :: r[i] == Collapse(tail)[i - 1];
        assert path == [path[0]] + tail;
      } else {
        assert path[1 - 1] == '/' && path[1] == '/';
      }
    }
  }

  /** One slash more or less between slashes does not matter; with CollapseIsSingle this determines
      the result of every path. */
  lemma {:induction false} CollapseMerges(a: string, b: string)
    ensures Collapse(a + "//" + b) == Collapse(a + "/" + b)
  {
    if a == "" {
      assert (a + "//" + b)[1..] == "/" + b == a + "/" + b;
    } else {
      CollapseMerges(a[1..], b);
      assert (a + "//" + b)[1..] == a[1..] + "//" + b && (a + "/" + b)[1..] == a[1..] + "/" + b;
      assert (a + "//" + b)[1] == (a + "/" + b)[1];
    }
  }

  // ---- Items of a response --------------------------------------------------------------------

  /** The fields of one JSON item that the plugin reads, as text. */
  datatype Item = Item(
    path: Option<string>,
    error: Option<string>,
    onDisk: Option<string>,
    state: Option<string>,
    locality: Option<string>)

  /** An array entry may be null. */
  type Response = seq<Option<Item>>

  predicate Names(entry: Option<Item>, surl: string) {
    && entry.Some? && entry.value.path.Some? && entry.value.path.value != ""
    && Collapse(entry.value.path.value) == Collapse(surl)
  }

  /** polling_get_item_by_path: the first entry that names the path. */
  function Find(r: Response, surl: string): Option<Item> {
    if r == [] then None else if Names(r[0], surl) then r[0] else Find(r[1..], surl)
  }

  lemma {:induction false} FindSpec(r: Response, surl: string)
    ensures match Find(r, surl)
      case None => forall e | e in r :: !Names(e, surl)
      case Some(item) => exists i | 0 <= i < |r| ::
        r[i] == Some(item) && Names(r[i], surl) && forall j | 0 <= j < i :: !Names(r[j], surl)
  {
    if r != [] && !Names(r[0], surl) {
      FindSpec(r[1..], surl);
      if Find(r, surl).Some? {
        var i :| 0 <= i < |r| - 1 && r[1..][i] == Find(r, surl) && Names(r[1..][i], surl) &&
                 forall j | 0 <= j < i :: !Names(r[1..][j], surl);
        assert r[i + 1] == Find(r, surl);
        assert forall j | 0 < j < i + 1 :: r[j] == r[1..][j - 1];
      }
    }
  }

  /** No two entries name the same collapsed path. */
  ghost predicate DistinctPaths(r: Response) {
    forall i, j, surl | 0 <= i < j < |r| :: !(Names(r[i], surl) && Names(r[j], surl))
  }

  /** The order of a response with distinct paths does not matter. */
  lemma FindIgnoresOrder(r: Response, q: Response, surl: string)
    requires multiset(r) == multiset(q) && DistinctPaths(r)
    ensures Find(r, surl) == Find(q, surl)
  {
    FindSpec(r, surl);
    FindSpec(q, surl);
    assert forall e :: e in r <==> e in q by {
      assert forall e :: (e in r <==> e in multiset(r)) && (e in q <==> e in multiset(q));
    }
    if Find(r, surl).Some? {
      assert Find(r, surl) in q;
      assert Find(q, surl) in r;
      OneNames(r, Find(r, surl), Find(q, surl), surl);
    }
  }

  lemma OneNames(r: Response, x: Option<Item>, y: Option<Item>, surl: string)
    requires DistinctPaths(r) && x in r && y in r && Names(x, surl) && Names(y, surl)
    ensures x == y
  {
    var i :| 0 <= i < |r| && r[i] == x;
    var j :| 0 <= j < |r| && r[j] == y;
  }

  // ---- Stage polling ---------------------------------------------------------------------------

  /** How one file stands. */
  datatype Class = Online | Pending | Failed(code: int)

  function ErrorOf(c: Class): Option<int> {
    match c
    case Online => None
    case Pending => Some(EAGAIN)
    case Failed(code) => Some(code)
  }

  function StageClass(found: Option<Item>): (c: Class)
    ensures c.Failed? ==> c.code != EAGAIN
  {
    if found.None? || found.value.error.Some? then Failed(ENOMSG)
    else if found.value.onDisk.Some? then
      if Lower(found.value.onDisk.value) == "true" then Online else Pending
    else if found.value.state.None? then Failed(ENOMSG)
    else
      var state := found.value.state.value;
      if state == "COMPLETED" then Online
      else if state == "STARTED" || state == "SUBMITTED" then Pending
      else if state == "CANCELED" then Failed(ECANCELED)
      else Failed(ENOENT)
  }

  function Classes(r: Response, paths: seq<string>): (cs: seq<Class>)
    ensures |cs| == |paths|
  {
    seq(|paths|, i requires 0 <= i < |paths| => StageClass(Find(r, paths[i])))
  }

  predicate All(cs: seq<Class>, online: bool, pending: bool, failed: bool) {
    forall i | 0 <= i < |cs| :: match cs[i] case Online => online case Pending => pending case Failed(_) => failed
  }

  /** The verdict that the classes of the files determine. */
  function Verdict(cs: seq<Class>): int {
    if All(cs, true, false, false) then 1
    else if All(cs, false, false, true) then -1
    else if All(cs, true, false, true) then 2
    else 0
  }

  function CountOnline(cs: seq<Class>): nat {
    if cs == [] then 0 else (if cs[|cs| - 1].Online? then 1 else 0) + CountOnline(cs[..|cs| - 1])
  }

  function CountFailed(cs: seq<Class>): nat {
    if cs == [] then 0 else (if cs[|cs| - 1].Failed? then 1 else 0) + CountFailed(cs[..|cs| - 1])
  }

  lemma {:induction false} CountsDecide(cs: seq<Class>)
    ensures CountOnline(cs) + CountFailed(cs) <= |cs|
    ensures CountOnline(cs) == |cs| <==> All(cs, true, false, false)
    ensures CountFailed(cs) == |cs| <==> All(cs, false, false, true)
    ensures CountOnline(cs) + CountFailed(cs) == |cs| <==> All(cs, true, false, true)
  {
    if cs != [] {
      var init, last := cs[..|cs| - 1], cs[|cs| - 1];
      CountsDecide(init);
      assert forall i | 0 <= i < |init| :: init[i] == cs[i];
      forall o, p, f ensures All(cs, o, p, f) <==> All(init, o, p, f) && All([last], o, p, f) {
        assert All(init, o, p, f) && All([last], o, p, f) ==> All(cs, o, p, f) by {
          if All(init, o, p, f) && All([last], o, p, f) {
            assert [last][0] == last;
            forall i | 0 <= i < |cs| ensures match cs[i] case Online => o case Pending => p case Failed(_) => f {
              if i < |init| {
                assert cs[i] == init[i];
              }
            }
          }
        }
      }
    }
  }

  /** The counters of a poll loop give the verdict of the classes. */
  lemma CountersGiveVerdict(cs: seq<Class>)
    ensures Verdict(cs) ==
            (if CountOnline(cs) == |cs| then 1
             else if CountFailed(cs) == |cs| then -1
             else if CountOnline(cs) + CountFailed(cs) == |cs| then 2
             else 0)
  {
    CountsDecide(cs);
  }

  /** By the fields of the item: the file is on disk. */
  predicate IsOnline(found: Option<Item>) {
    && found.Some? && found.value.error.None?
    && match found.value.onDisk
       case Some(text) => Lower(text) == "true"
       case None => found.value.state == Some("COMPLETED")
  }

  /** It is still on its way. */
  predicate IsPending(found: Option<Item>) {
    && found.Some? && found.value.error.None?
    && match found.value.onDisk
       case Some(text) => Lower(text) != "true"
       case None => found.value.state == Some("STARTED") || found.value.state == Some("SUBMITTED")
  }

  /** The answer does not tell: no item, an error instead, or neither field. */
  predicate IsUnusable(found: Option<Item>) {
    found.None? || found.value.error.Some? || (found.value.onDisk.None? && found.value.state.None?)
  }

  /** The error of a file, by the fields of its item. */
  predicate StageErrorIs(found: Option<Item>, error: Option<int>) {
    && (error.None? <==> IsOnline(found))
    && (error == Some(EAGAIN) <==> IsPending(found))
    && (error == Some(ENOMSG) <==> IsUnusable(found))
    && (!IsOnline(found) && !IsPending(found) && !IsUnusable(found) ==>
          error == Some(if found.value.state == Some("CANCELED") then ECANCELED else ENOENT))
  }

  lemma StageClassByName(found: Option<Item>)
    ensures StageErrorIs(found, ErrorOf(StageClass(found)))
    ensures (StageClass(found).Online? <==> IsOnline(found)) && (StageClass(found).Pending? <==> IsPending(found))
  {}

  /** The result of a poll by how its files stand: 1 when all are done, 0 when some is on its way,
      -1 when all failed, and 2 when some are done and the others failed. */
  predicate ResultIs(n: nat, done: nat -> bool, pending: nat -> bool, ret: int) {
    && (ret == 1 <==> forall i: nat | i < n :: done(i))
    && (ret == 0 <==> exists i: nat | i < n :: pending(i))
    && (ret == -1 <==> forall i: nat | i < n :: !done(i) && !pending(i))
    && (ret == 2 <==>
          && (forall i: nat | i < n :: !pending(i))
          && (exists i: nat | i < n :: done(i)) && (exists i: nat | i < n :: !done(i)))
  }

  lemma VerdictByName(cs: seq<Class>, done: nat -> bool, pending: nat -> bool)
    requires cs != []
    requires forall i: nat | i < |cs| :: (cs[i].Online? <==> done(i)) && (cs[i].Pending? <==> pending(i))
    ensures ResultIs(|cs|, done, pending, Verdict(cs))
  {
    assert All(cs, true, false, false) <==> forall i: nat | i < |cs| :: done(i);
    assert All(cs, false, false, true) <==> forall i: nat | i < |cs| :: !done(i) && !pending(i);
    assert All(cs, true, false, true) <==> forall i: nat | i < |cs| :: !pending(i);
    assert cs[0].Online? <==> done(0);
  }

  /** The stage polling loop: every file ends with no error, EAGAIN or another code according to
      its class, and the result is the verdict of the classes. */
  method StagePoll(r: Response, paths: seq<string>, errors: array<Option<int>>) returns (ret: int)
    requires errors.Length == |paths| && forall i | 0 <= i < |paths| :: errors[i].None?
    modifies errors
    ensures paths == [] ==> ret == -1
    ensures paths != [] ==> ret == Verdict(Classes(r, paths))
    ensures paths != [] ==>
              ResultIs(|paths|, (i: nat) => i < |paths| && IsOnline(Find(r, paths[i])),
                       (i: nat) => i < |paths| && IsPending(Find(r, paths[i])), ret)
    ensures forall i | 0 <= i < |paths| :: errors[i] == ErrorOf(Classes(r, paths)[i])
    ensures forall i | 0 <= i < |paths| :: StageErrorIs(Find(r, paths[i]), errors[i])
  {
    if paths == [] {
      return -1;
    }
    ghost var cs := Classes(r, paths);
    var online, failed := 0, 0;
    for i := 0 to |paths|
      invariant forall j | 0 <= j < i :: errors[j] == ErrorOf(cs[j])
      invariant forall j | i <= j < |paths| :: errors[j].None?
      invariant online == CountOnline(cs[..i]) && failed == CountFailed(cs[..i])
    {
      assert cs[..i + 1][..i] == cs[..i] && cs[..i + 1][i] == cs[i];
      var found := Find(r, paths[i]);
      if found.None? || found.value.error.Some? {
        failed := failed + 1;
        errors[i] := Some(ENOMSG);
        continue;
      }
      if found.value.onDisk.Some? {
        if Lower(found.value.onDisk.value) == "true" {
          online := online + 1;
        } else {
          errors[i] := Some(EAGAIN);
        }
        continue;
      }
      if found.value.state.None? {
        failed := failed + 1;
        errors[i] := Some(ENOMSG);
        continue;
      }
      var state := found.value.state.value;
      if state == "COMPLETED" {
        online := online + 1;
      } else if state == "STARTED" || state == "SUBMITTED" {
        errors[i] := Some(EAGAIN);
      } else {
        errors[i] := Some(if state == "CANCELED" then ECANCELED else ENOENT);
        failed := failed + 1;
      }
    }
    assert cs[..|paths|] == cs;
    CountersGiveVerdict(cs);
    ret := if online == |paths| then 1
           else if failed == |paths| then -1
           else if online + failed == |paths| then 2
           else 0;
    StageByName(r, paths);
  }

  lemma StageByName(r: Response, paths: seq<string>)
    requires paths != []
    ensures ResultIs(|paths|, (i: nat) => i < |paths| && IsOnline(Find(r, paths[i])),
                     (i: nat) => i < |paths| && IsPending(Find(r, paths[i])), Verdict(Classes(r, paths)))
    ensures forall i | 0 <= i < |paths| :: StageErrorIs(Find(r, paths[i]), ErrorOf(Classes(r, paths)[i]))
  {
    forall i | 0 <= i < |paths|
      ensures StageErrorIs(Find(r, paths[i]), ErrorOf(Classes(r, paths)[i]))
      ensures Classes(r, paths)[i].Online? <==> IsOnline(Find(r, paths[i]))
      ensures Classes(r, paths)[i].Pending? <==> IsPending(Find(r, paths[i]))
    {
      StageClassByName(Find(r, paths[i]));
    }
    VerdictByName(Classes(r, paths), (i: nat) => i < |paths| && IsOnline(Find(r, paths[i])),
                  (i: nat) => i < |paths| && IsPending(Find(r, paths[i])));
  }

  /** Reordering a response with distinct collapsed paths changes neither the errors nor the
      result of a poll. */
  lemma PollIgnoresOrder(r: Response, q: Response, paths: seq<string>)
    requires multiset(r) == multiset(q) && DistinctPaths(r)
    ensures Classes(r, paths) == Classes(q, paths) && Verdict(Classes(r, paths)) == Verdict(Classes(q, paths))
  {
    forall i | 0 <= i < |paths| ensures Classes(r, paths)[i] == Classes(q, paths)[i] {
      FindIgnoresOrder(r, q, paths[i]);
    }
  }

  // ---- Locality and archive polling ----------------------------------------------------------

  datatype Locality = Locality(onDisk: bool, onTape: bool, error: Option<int>)

  /** get_file_locality */
  function LocalityOf(found: Option<Item>, bypassError: bool): Locality {
    if found.None? || (found.value.error.Some? && !bypassError) || found.value.locality.None? then
      Locality(false, false, Some(ENOMSG))
    else
      var text := found.value.locality.value;
      if text == "TAPE" then Locality(false, true, None)
      else if text == "DISK" then Locality(true, false, None)
      else if text == "DISK_AND_TAPE" then Locality(true, true, None)
      else if text == "LOST" then Locality(false, false, Some(ENOENT))
      else if text == "NONE" then Locality(false, false, Some(EPERM))
      else if text == "UNAVAILABLE" then Locality(false, false, Some(EAGAIN))
      else Locality(false, false, Some(ENOMSG))
  }

  datatype Status = NearlineOnline | Nearline | OnlineStatus | Unknown

  /** The user.status attribute, or the error of the locality. */
  function StatusOf(found: Option<Item>): Option<Status> {
    var l := LocalityOf(found, true);
    if l.error.Some? then None
    else if l.onTape && l.onDisk then Some(NearlineOnline)
    else if l.onTape then Some(Nearline)
    else if l.onDisk then Some(OnlineStatus)
    else Some(Unknown)
  }

  /** Without an error a file is on disk or on tape, so the unknown status is never reported. */
  lemma UnknownIsNeverReported(found: Option<Item>, bypass: bool)
    ensures var l := LocalityOf(found, bypass); l.error.None? <==> l.onDisk || l.onTape
    ensures StatusOf(found) != Some(Unknown)
  {}

  function ArchiveClass(found: Option<Item>): Class {
    var l := LocalityOf(found, false);
    if l.error.Some? then Failed(l.error.value) else if l.onTape then Online else Pending
  }

  function ArchiveClasses(r: Response, paths: seq<string>): (cs: seq<Class>)
    ensures |cs| == |paths|
  {
    seq(|paths|, i requires 0 <= i < |paths| => ArchiveClass(Find(r, paths[i])))
  }

  /** The locality that an item states, if it may be used. */
  predicate Says(found: Option<Item>, bypassError: bool, text: string) {
    found.Some? && (found.value.error.None? || bypassError) && found.value.locality == Some(text)
  }

  /** Locality by the text of the item. */
  lemma LocalityByName(found: Option<Item>, bypass: bool)
    ensures var l := LocalityOf(found, bypass);
      && (l.onTape <==> Says(found, bypass, "TAPE") || Says(found, bypass, "DISK_AND_TAPE"))
      && (l.onDisk <==> Says(found, bypass, "DISK") || Says(found, bypass, "DISK_AND_TAPE"))
      && (l.error == Some(ENOENT) <==> Says(found, bypass, "LOST"))
      && (l.error == Some(EPERM) <==> Says(found, bypass, "NONE"))
      && (l.error == Some(EAGAIN) <==> Says(found, bypass, "UNAVAILABLE"))
      && (l.error in {None, Some(ENOENT), Some(EPERM), Some(EAGAIN), Some(ENOMSG)})
      && (l.error.None? <==> l.onTape || l.onDisk)
    ensures StatusOf(found) ==
            if Says(found, true, "DISK_AND_TAPE") then Some(NearlineOnline)
            else if Says(found, true, "TAPE") then Some(Nearline)
            else if Says(found, true, "DISK") then Some(OnlineStatus)
            else None
  {}

  /** By the text of the item: the file is archived. */
  predicate IsArchived(found: Option<Item>) { Says(found, false, "TAPE") || Says(found, false, "DISK_AND_TAPE") }

  /** The error of a file in archive polling, by the text of its item. */
  predicate ArchiveErrorIs(found: Option<Item>, error: Option<int>) {
    && (error.None? <==> IsArchived(found))
    && (error == Some(EAGAIN) <==> Says(found, false, "DISK") || Says(found, false, "UNAVAILABLE"))
    && (error == Some(ENOENT) <==> Says(found, false, "LOST"))
    && (error == Some(EPERM) <==> Says(found, false, "NONE"))
    && error in {None, Some(ENOENT), Some(EPERM), Some(EAGAIN), Some(ENOMSG)}
  }

  lemma ArchiveByName(r: Response, paths: seq<string>)
    requires paths != []
    ensures ResultIs(|paths|, (i: nat) => i < |paths| && IsArchived(Find(r, paths[i])),
                     (i: nat) => i < |paths| && Says(Find(r, paths[i]), false, "DISK"),
                     Verdict(ArchiveClasses(r, paths)))
    ensures forall i | 0 <= i < |paths| :: ArchiveErrorIs(Find(r, paths[i]), ErrorOf(ArchiveClasses(r, paths)[i]))
  {
    forall i | 0 <= i < |paths|
      ensures ArchiveErrorIs(Find(r, paths[i]), ErrorOf(ArchiveClasses(r, paths)[i]))
      ensures ArchiveClasses(r, paths)[i].Online? <==> IsArchived(Find(r, paths[i]))
      ensures ArchiveClasses(r, paths)[i].Pending? <==> Says(Find(r, paths[i]), false, "DISK")
    {
      LocalityByName(Find(r, paths[i]), false);
    }
    VerdictByName(ArchiveClasses(r, paths), (i: nat) => i < |paths| && IsArchived(Find(r, paths[i])),
                  (i: nat) => i < |paths| && Says(Find(r, paths[i]), false, "DISK"));
  }

  /** The archive polling loop, with the same verdict over its own classes. */
  method ArchivePoll(r: Response, paths: seq<string>, errors: array<Option<int>>) returns (ret: int)
    requires errors.Length == |paths| && forall i | 0 <= i < |paths| :: errors[i].None?
    modifies errors
    ensures paths == [] ==> ret == -1
    ensures paths != [] ==> ret == Verdict(ArchiveClasses(r, paths))
    ensures paths != [] ==>
              ResultIs(|paths|, (i: nat) => i < |paths| && IsArchived(Find(r, paths[i])),
                       (i: nat) => i < |paths| && Says(Find(r, paths[i]), false, "DISK"), ret)
    ensures forall i | 0 <= i < |paths| :: errors[i] == ErrorOf(ArchiveClasses(r, paths)[i])
    ensures forall i | 0 <= i < |paths| :: ArchiveErrorIs(Find(r, paths[i]), errors[i])
  {
    if paths == [] {
      return -1;
    }
    ghost var cs := ArchiveClasses(r, paths);
    var onTape, failed := 0, 0;
    for i := 0 to |paths|
      invariant forall j | 0 <= j < i :: errors[j] == ErrorOf(cs[j])
      invariant forall j | i <= j < |paths| :: errors[j].None?
      invariant onTape == CountOnline(cs[..i]) && failed == CountFailed(cs[..i])
    {
      assert cs[..i + 1][..i] == cs[..i] && cs[..i + 1][i] == cs[i];
      var l := LocalityOf(Find(r, paths[i]), false);
      if l.error.Some? {
        errors[i] := l.error;
        failed := failed + 1;
        continue;
      }
      if l.onTape {
        onTape := onTape + 1;
      } else {
        errors[i] := Some(EAGAIN);
      }
    }
    assert cs[..|paths|] == cs;
    CountersGiveVerdict(cs);
    ret := if onTape == |paths| then 1
           else if failed == |paths| then -1
           else if onTape + failed == |paths| then 2
           else 0;
    ArchiveByName(r, paths);
  }

  /** The same holds for archive polling. */
  lemma ArchivePollIgnoresOrder(r: Response, q: Response, paths: seq<string>)
    requires multiset(r) == multiset(q) && DistinctPaths(r)
    ensures ArchiveClasses(r, paths) == ArchiveClasses(q, paths)
    ensures Verdict(ArchiveClasses(r, paths)) == Verdict(ArchiveClasses(q, paths))
  {
    forall i | 0 <= i < |paths| ensures ArchiveClasses(r, paths)[i] == ArchiveClasses(q, paths)[i] {
      FindIgnoresOrder(r, q, paths[i]);
    }
  }

  /** In archive polling EAGAIN does not mean pending: it also marks a failed file, exactly one
      whose locality is UNAVAILABLE. In stage polling it always means pending. */
  lemma EagainMeansPendingExactly(found: Option<Item>)
    ensures ErrorOf(StageClass(found)) == Some(EAGAIN) <==> StageClass(found).Pending?
    ensures ErrorOf(ArchiveClass(found)) == Some(EAGAIN) && !ArchiveClass(found).Pending? <==>
              && found.Some? && found.value.error.None? && found.value.locality == Some("UNAVAILABLE")
  {}
}
