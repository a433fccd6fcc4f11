/** Recursive directory creation: gfal2_mkdir_rec of
    src/core/file/gfal2_standard_file_operations.c, over gfal_plugin_mkdirp of
    src/core/common/gfal_plugin.c.

    The climb trims a C string in place; the descent walks the stack of the strings it
    visited. The plugin is a directory tree on which other processes create directories
    between any two calls and which may fault at any call. */
module RecursiveMkdir {
  import opened Wrappers
  import opened CStrings

  const URL_MAX_LEN: nat := 2048
  const OK: int := 0
  const ENOENT: int := 2
  const EEXIST: int := 17

  // ---- What a URL denotes ------------------------------------------------------

  type Path = seq<string>

  function NonEmpty(parts: seq<string>): seq<string> {
    if parts == [] then [] else (if parts[0] == "" then [] else [parts[0]]) + NonEmpty(parts[1..])
  }

  /** The names between slashes; repeated and trailing slashes do not count. */
  function Denotes(url: string): Path { NonEmpty(Split(url, '/')) }

  function Parent(p: Path): (r: Path)
    ensures r <= p
  {
    if p == [] then [] else p[..|p| - 1]
  }

  predicate AllSlashes(s: string) { forall i | 0 <= i < |s| :: s[i] == '/' }

  lemma {:induction false} NonEmptyConcat(a: seq<string>, b: seq<string>)
    ensures NonEmpty(a + b) == NonEmpty(a) + NonEmpty(b)
  {
    if a == [] {
      assert a + b == b;
    } else {
      NonEmptyConcat(a[1..], b);
      var head: seq<string> := if a[0] == "" then [] else [a[0]];
      assert (a + b)[0] == a[0] && (a + b)[1..] == a[1..] + b;
      ConcatAssociates(head, NonEmpty(a[1..]), NonEmpty(b));
    }
  }

  /** The last name after a slash is one level below what precedes it. */
  lemma DenotesChild(a: string, b: string)
    requires '/' !in b
    ensures Denotes(a + "/" + b) == Denotes(a) + (if b == "" then [] else [b])
  {
    SplitAt(a, '/', b);
    SplitWhole(b, '/');
    NonEmptyConcat(Split(a, '/'), [b]);
  }

  lemma {:induction false} DenotesTrailing(a: string, tail: string)
    requires AllSlashes(tail)
    ensures Denotes(a + tail) == Denotes(a)
  {
    if tail == "" {
      assert a + tail == a;
    } else {
      var init := tail[..|tail| - 1];
      DenotesTrailing(a, init);
      DenotesChild(a + init, "");
      assert a + tail == (a + init) + "/" + "";
    }
  }

  // ---- C strings in a buffer ---------------------------------------------------

  method Strlen(buf: array<char>) returns (len: nat)
    requires Terminated(buf[..])
    ensures EndsAt(buf[..], len) && len == |Str(buf[..])|
  {
    len := 0;
    while buf[len] != '\0'
      invariant 0 <= len < buf.Length
      invariant forall i | 0 <= i < len :: buf[i] != '\0'
      decreases buf.Length - len
    {
      len := len + 1;
      if len == buf.Length {
        assert false;
      }
    }
    StrEndsAt(buf[..], len);
  }

  /** g_strlcpy into a fresh buffer of URL_MAX_LEN. */
  method Strlcpy(url: string) returns (buf: array<char>)
    requires '\0' !in url
    ensures fresh(buf) && Terminated(buf[..])
    ensures Str(buf[..]) == if |url| < URL_MAX_LEN then url else url[..URL_MAX_LEN - 1]
  {
    var n := if |url| < URL_MAX_LEN then |url| else URL_MAX_LEN - 1;
    buf := new char[URL_MAX_LEN];
    for i := 0 to n
      invariant buf[..i] == url[..i]
    {
      buf[i] := url[i];
    }
    buf[n] := '\0';
    assert buf[..n] == url[..n];
    assert forall i | 0 <= i < n :: buf[..][i] == buf[..n][i];
    StrEndsAt(buf[..], n);
  }

  // ---- One climb step ----------------------------------------------------------

  lemma CutDenotesParent(s: string, p: nat, q: nat)
    requires 0 < q < p < |s| && s[q] == '/'
    requires '/' !in s[q + 1..p + 1] && AllSlashes(s[p + 1..])
    ensures Denotes(s) != [] && Denotes(s[..q]) == Parent(Denotes(s))
  {
    var b := s[q + 1..p + 1];
    assert s == s[..p + 1] + s[p + 1..];
    DenotesTrailing(s[..p + 1], s[p + 1..]);
    assert s[..p + 1] == s[..q] + "/" + b;
    DenotesChild(s[..q], b);
  }

  lemma TopDenotesOne(s: string, p: int)
    requires -1 <= p < |s| && AllSlashes(s[p + 1..])
    requires p == -1 ==> s == ""
    requires forall i | 1 <= i <= p :: s[i] != '/'
    ensures |Denotes(s)| <= 1
  {
    if s == "" {
      return;
    }
    var t := s[..p + 1];
    assert s == t + s[p + 1..];
    DenotesTrailing(t, s[p + 1..]);
    if t[0] == '/' {
      assert t == "" + "/" + t[1..];
      DenotesChild("", t[1..]);
    } else {
      SplitWhole(t, '/');
      assert NonEmpty([t][1..]) == [];
    }
  }

  lemma AllSlashesMore(s: string, p: nat)
    requires p < |s| && s[p] == '/' && AllSlashes(s[p + 1..])
    ensures AllSlashes(s[p..])
  {
    assert s[p..] == [s[p]] + s[p + 1..];
  }

  lemma EndsEarlier(a: seq<char>, p: nat)
    requires EndsAt(a, p + 1)
    ensures EndsAt(a[p := '\0'], p) && a[p := '\0'][..p] == a[..p + 1][..p]
  {}

  /** Removes trailing slashes; p is the last position that is left. */
  method TrimSlashes(buf: array<char>, ghost s: string) returns (p: int)
    requires Terminated(buf[..]) && s == Str(buf[..])
    modifies buf
    ensures -1 <= p < |s| && (p == -1 ==> s == "")
    ensures EndsAt(buf[..], p + 1) && buf[..p + 1] == s[..p + 1]
    ensures AllSlashes(s[p + 1..]) && (p > 0 ==> buf[p] != '/')
  {
    var len := Strlen(buf);
    StrEndsAt(buf[..], len);
    p := len as int - 1;
    while p > 0 && buf[p] == '/'
      invariant -1 <= p < |s| && (p == -1 ==> s == "")
      invariant EndsAt(buf[..], p + 1) && buf[..p + 1] == s[..p + 1]
      invariant AllSlashes(s[p + 1..])
      decreases p
    {
      assert s[p] == buf[..p + 1][p];
      AllSlashesMore(s, p);
      EndsEarlier(buf[..], p);
      ghost var b := buf[..][p := '\0'];
      assert s[..p + 1][..p] == s[..p];
      buf[p] := '\0';
      assert buf[..] == b;
      p := p - 1;
    }
  }

  /** The last slash at or before p, or 0. */
  method FindSlash(buf: array<char>, p: int) returns (q: int)
    requires -1 <= p < buf.Length
    ensures -1 <= q <= p && (q > 0 ==> buf[q] == '/')
    ensures forall i | 0 < i <= p && q < i :: buf[i] != '/'
  {
    q := p;
    while q > 0 && buf[q] != '/'
      invariant -1 <= q <= p
      invariant forall i | 0 < i <= p && q < i :: buf[i] != '/'
      decreases q
    {
      q := q - 1;
    }
  }

  /** Where an inner slash was found, the string before it is the parent. */
  lemma CutAtSlash(a: seq<char>, s: string, p: nat, q: nat)
    requires 0 < q <= p < |s| && EndsAt(a, p + 1) && a[..p + 1] == s[..p + 1] && AllSlashes(s[p + 1..])
    requires a[q] == '/' && a[p] != '/' && forall i | q < i <= p :: a[i] != '/'
    ensures var b := a[q := '\0'];
      Terminated(b) && Str(b) == s[..q] && Denotes(s) != [] && Denotes(Str(b)) == Parent(Denotes(s))
  {
    var b := a[q := '\0'];
    assert forall i | 0 <= i <= p :: a[..p + 1][i] == a[i] && s[..p + 1][i] == s[i];
    assert EndsAt(b, q);
    StrEndsAt(b, q);
    assert b[..q] == s[..q];
    CutDenotesParent(s, p, q);
  }

  /** Trims the string in the buffer to its parent, in place. When it cuts, the new string is
      shorter and denotes exactly the parent; when it does not, there was at most one level. */
  method Climb(buf: array<char>) returns (cut: bool)
    requires Terminated(buf[..])
    modifies buf
    ensures Terminated(buf[..])
    ensures cut ==>
              && |Str(buf[..])| < |old(Str(buf[..]))|
              && old(Denotes(Str(buf[..]))) != []
              && Denotes(Str(buf[..])) == Parent(old(Denotes(Str(buf[..]))))
    ensures !cut ==> |old(Denotes(Str(buf[..])))| <= 1
  {
    ghost var s := Str(buf[..]);
    var p := TrimSlashes(buf, s);
    var q := FindSlash(buf, p);
    cut := q > 0;
    if cut {
      CutAtSlash(buf[..], s, p, q);
      ghost var b := buf[..][q := '\0'];
      buf[q] := '\0';
      assert buf[..] == b;
    } else {
      assert forall i | 1 <= i <= p :: s[i] == s[..p + 1][i] == buf[..p + 1][i] == buf[i];
      TopDenotesOne(s, p);
    }
  }

  // ---- The directory tree ------------------------------------------------------

  ghost predicate Closed(dirs: set<Path>) {
    [] in dirs && forall p | p in dirs :: Parent(p) in dirs
  }

  /** What the other processes have created before call n, and whether call n faults. */
  datatype World = World(others: nat -> set<Path>, fault: nat -> Option<int>)

  ghost predicate Plausible(w: World) {
    && (forall n: nat :: Closed(w.others(n)))
    && (forall n: nat :: w.fault(n).Some? ==> w.fault(n).value !in {OK, ENOENT, EEXIST})
  }

  ghost predicate Faultless(w: World) { forall n: nat :: w.fault(n).None? }

  predicate Benign(err: int) { err == OK || err == ENOENT || err == EEXIST }

  /** Of the calls in this span only the last one can have met a fault, and err reports it. */
  ghost predicate FirstFault(w: World, from: nat, to: nat, err: int) {
    && from <= to && (forall n: nat | from <= n < to - 1 :: w.fault(n).None?)
    && (if Benign(err) then from < to ==> w.fault(to - 1).None? else from < to && w.fault(to - 1) == Some(err))
  }

  lemma FirstFaultJoins(w: World, a: nat, b: nat, c: nat, err: int, err': int)
    requires FirstFault(w, a, b, err) && Benign(err) && FirstFault(w, b, c, err')
    ensures FirstFault(w, a, c, err')
  {}

  /** All that others have made before call n. */
  ghost function Foreign(w: World, n: nat): set<Path> {
    if n == 0 then {} else Foreign(w, n - 1) + w.others(n - 1)
  }

  lemma {:induction false} QuietForeign(w: World, n: nat)
    requires forall k: nat :: w.others(k) == {[]}
    ensures Foreign(w, n) <= {[]}
  {
    if n > 0 {
      QuietForeign(w, n - 1);
    }
  }

  /** What was made since before is the target or one of its ancestors. */
  ghost predicate OnlyOnPath(made: set<Path>, before: set<Path>, target: Path) {
    before <= made && forall p | p in made && p !in before :: p <= target
  }

  /** A path and all its ancestors. */
  function Levels(path: Path): set<Path> {
    set i | 0 <= i <= |path| :: path[..i]
  }

  lemma LevelsClosed(path: Path)
    ensures Closed(Levels(path)) && path in Levels(path) && forall p | p in Levels(path) :: p <= path
  {
    assert path[..0] == [] && path[..|path|] == path;
    forall p | p in Levels(path) ensures Parent(p) in Levels(path) {
      var i :| 0 <= i <= |path| && p == path[..i];
      assert Parent(p) == path[..if i == 0 then 0 else i - 1];
    }
  }

  class Plugin {
    const world: World
    const base: set<Path>           // the tree before the first call
    const recursive: bool           // the plugin honours the recursive flag
    var dirs: set<Path>
    var calls: nat
    ghost var created: set<Path>    // made by this caller

    ghost predicate Valid()
      reads this
    {
      Plausible(world) && Closed(dirs) && dirs == base + created + Foreign(world, calls)
    }

    constructor (world: World, base: set<Path>, recursive: bool)
      requires Plausible(world) && Closed(base)
      ensures Valid() && dirs == base && created == {}
      ensures this.world == world && this.base == base && this.recursive == recursive
    {
      this.world, this.base, this.recursive := world, base, recursive;
      dirs, calls, created := base, 0, {};
    }

    /** A plain mkdir: it needs the parent and refuses an existing name. */
    method Mkdir(url: string) returns (err: int)
      requires Valid()
      modifies this
      ensures Valid() && old(dirs) <= dirs && calls == old(calls) + 1
      ensures created == old(created) + (if err == OK then {Denotes(url)} else {})
      ensures err == OK || err == EEXIST ==> Denotes(url) in dirs
      ensures err == ENOENT ==> Denotes(url) !in dirs && Parent(Denotes(url)) !in dirs
      ensures Faultless(world) ==> err in {OK, EEXIST, ENOENT}
      ensures err == OK ==> Denotes(url) !in old(dirs)
      ensures FirstFault(world, old(calls), calls, err)
    {
      dirs := dirs + world.others(calls);
      var fault := world.fault(calls);
      calls := calls + 1;
      var path := Denotes(url);
      if fault.Some? {
        err := fault.value;
      } else if path in dirs {
        err := EEXIST;
      } else if Parent(path) !in dirs {
        err := ENOENT;
      } else {
        dirs := dirs + {path};
        created := created + {path};
        err := OK;
      }
    }

    /** gfal_plugin_mkdirp with the recursive flag: EEXIST counts as success, and a plugin
        that honours the flag creates all levels. */
    method MkdirAll(url: string) returns (err: int)
      requires Valid()
      modifies this
      ensures Valid() && old(dirs) <= dirs
      ensures OnlyOnPath(created, old(created), Denotes(url))
      ensures err == OK || err == EEXIST ==> Denotes(url) in dirs
      ensures err != OK ==> created == old(created)
      ensures err == ENOENT ==> Denotes(url) !in dirs && Parent(Denotes(url)) !in dirs
      ensures Faultless(world) ==> err in {OK, ENOENT}
      ensures !recursive && Faultless(world) && Parent(Denotes(url)) !in old(dirs) + world.others(old(calls)) ==>
                err == ENOENT
      ensures calls == old(calls) + 1 && FirstFault(world, old(calls), calls, err)
    {
      LevelsClosed(Denotes(url));
      if !recursive {
        err := Mkdir(url);
        if err == EEXIST {
          err := OK;
        }
        return;
      }
      err := MkdirLevels(url);
    }

    /** A plugin that honours the recursive flag. */
    method MkdirLevels(url: string) returns (err: int)
      requires Valid()
      modifies this
      ensures Valid() && old(dirs) <= dirs && calls == old(calls) + 1
      ensures err == OK ==> Denotes(url) in dirs && created == old(created) + Levels(Denotes(url))
      ensures err != OK ==> created == old(created) && !Faultless(world)
      ensures err !in {EEXIST, ENOENT}
      ensures FirstFault(world, old(calls), calls, err)
    {
      LevelsClosed(Denotes(url));
      dirs := dirs + world.others(calls);
      var fault := world.fault(calls);
      calls := calls + 1;
      if fault.Some? {
        err := fault.value;
      } else {
        dirs := dirs + Levels(Denotes(url));
        created := created + Levels(Denotes(url));
        err := OK;
      }
    }
  }

  // ---- gfal2_mkdir_rec -----------------------------------------------------------

  /** Each entry denotes the parent of the next one. */
  ghost predicate Chain(stack: seq<string>) {
    |stack| >= 2 ==> Denotes(stack[0]) == Parent(Denotes(stack[1])) && Chain(stack[1..])
  }

  lemma PrefixTransitive(p: Path, q: Path, r: Path)
    requires p <= q && q <= r
    ensures p <= r
  {}

  lemma {:induction false} ChainAt(stack: seq<string>, i: nat)
    requires Chain(stack) && i + 1 < |stack|
    ensures Denotes(stack[i]) == Parent(Denotes(stack[i + 1]))
  {
    if i > 0 {
      ChainAt(stack[1..], i - 1);
    }
  }

  lemma {:induction false} ChainOnPath(stack: seq<string>, i: nat)
    requires Chain(stack) && i < |stack|
    ensures Denotes(stack[i]) <= Denotes(stack[|stack| - 1])
    decreases |stack| - i
  {
    if i + 1 < |stack| {
      ChainAt(stack, i);
      ChainOnPath(stack, i + 1);
      PrefixTransitive(Denotes(stack[i]), Denotes(stack[i + 1]), Denotes(stack[|stack| - 1]));
    }
  }

  /** A parent goes on top of the chain. */
  lemma PushOnChain(top: string, stack: seq<string>)
    requires Chain(stack) && (stack != [] ==> Denotes(top) == Parent(Denotes(stack[0])))
    ensures var s := [top] + stack; Chain(s) && Denotes(top) <= Denotes(s[|s| - 1])
  {
    var s := [top] + stack;
    assert s[1..] == stack;
    ChainOnPath(s, 0);
  }

  function Truncated(url: string): string {
    if |url| < URL_MAX_LEN then url else url[..URL_MAX_LEN - 1]
  }

  lemma OnlyOnPathTransitive(a: set<Path>, b: set<Path>, c: set<Path>, target: Path)
    requires OnlyOnPath(b, a, target) && OnlyOnPath(c, b, target)
    ensures OnlyOnPath(c, a, target)
  {}

  /** One round of the climb: it makes the parent, if there is a level to climb. */
  method ClimbOnce(plugin: Plugin, buf: array<char>, ghost target: Path) returns (err: int)
    requires plugin.Valid() && Terminated(buf[..]) && Denotes(Str(buf[..])) <= target
    modifies plugin, buf
    ensures plugin.Valid() && old(plugin.dirs) <= plugin.dirs && Terminated(buf[..])
    ensures OnlyOnPath(plugin.created, old(plugin.created), target)
    ensures err == ENOENT ==>
              && |Str(buf[..])| < |old(Str(buf[..]))|
              && Denotes(Str(buf[..])) == Parent(old(Denotes(Str(buf[..]))))
              && Parent(Denotes(Str(buf[..]))) !in plugin.dirs
    ensures err == OK || err == EEXIST ==> Parent(old(Denotes(Str(buf[..])))) in plugin.dirs
    ensures Faultless(plugin.world) ==> err in {OK, EEXIST, ENOENT}
    ensures FirstFault(plugin.world, old(plugin.calls), plugin.calls, err)
  {
    ghost var here := Denotes(Str(buf[..]));
    err := OK;
    var cut := Climb(buf);
    if cut {
      PrefixTransitive(Denotes(Str(buf[..])), here, target);
      err := plugin.Mkdir(Str(buf[..]));
    } else {
      assert Parent(here) == [];
    }
  }

  /** The climb loop: pushes each string and trims it to its parent until a mkdir of the
      parent answers something else than ENOENT or no level is left. It climbs no higher than it
      must: above the target it only pushes levels whose parent was missing. */
  method ClimbToExisting(plugin: Plugin, url: string) returns (stack: seq<string>, err: int)
    requires plugin.Valid() && '\0' !in url
    modifies plugin
    ensures plugin.Valid() && old(plugin.dirs) <= plugin.dirs
    ensures stack != [] && Chain(stack) && stack[|stack| - 1] == Truncated(url)
    ensures OnlyOnPath(plugin.created, old(plugin.created), Denotes(Truncated(url)))
    ensures err != ENOENT
    ensures err == OK || err == EEXIST ==> Parent(Denotes(stack[0])) in plugin.dirs
    ensures Faultless(plugin.world) ==> err in {OK, EEXIST}
    ensures |stack| > 1 ==> Parent(Denotes(stack[0])) !in old(plugin.dirs)
    ensures FirstFault(plugin.world, old(plugin.calls), plugin.calls, err)
  {
    ghost var target := Denotes(Truncated(url));
    var buf := Strlcpy(url);
    stack := [];
    err := ENOENT;
    while err == ENOENT
      invariant plugin.Valid() && old(plugin.dirs) <= plugin.dirs && fresh(buf) && Terminated(buf[..])
      invariant Chain(stack)
      invariant stack == [] ==> err == ENOENT && Str(buf[..]) == Truncated(url)
      invariant stack != [] ==> stack[|stack| - 1] == Truncated(url)
      invariant stack != [] && err == ENOENT ==> Denotes(Str(buf[..])) == Parent(Denotes(stack[0]))
      invariant stack != [] && (err == OK || err == EEXIST) ==> Parent(Denotes(stack[0])) in plugin.dirs
      invariant OnlyOnPath(plugin.created, old(plugin.created), target)
      invariant Faultless(plugin.world) ==> err in {OK, EEXIST, ENOENT}
      invariant |stack| > 1 ==> Parent(Denotes(stack[0])) !in old(plugin.dirs)
      invariant stack != [] && err == ENOENT ==> Parent(Denotes(Str(buf[..]))) !in old(plugin.dirs)
      invariant FirstFault(plugin.world, old(plugin.calls), plugin.calls, err)
      decreases if err == ENOENT then 1 + |Str(buf[..])| else 0
    {
      var here := Str(buf[..]);
      PushOnChain(here, stack);
      stack := [here] + stack;
      ghost var created, calls := plugin.created, plugin.calls;
      err := ClimbOnce(plugin, buf, target);
      FirstFaultJoins(plugin.world, old(plugin.calls), calls, plugin.calls, ENOENT, err);
      OnlyOnPathTransitive(old(plugin.created), created, plugin.created, target);
    }
  }

  /** One level of the descent, below a directory that exists. */
  method MakeLevel(plugin: Plugin, stack: seq<string>, i: nat) returns (err: int)
    requires plugin.Valid() && Chain(stack) && i < |stack| && Parent(Denotes(stack[i])) in plugin.dirs
    modifies plugin
    ensures plugin.Valid() && old(plugin.dirs) <= plugin.dirs
    ensures OnlyOnPath(plugin.created, old(plugin.created), Denotes(stack[|stack| - 1]))
    ensures err == OK ==> Denotes(stack[i]) in plugin.dirs
    ensures err == OK && i + 1 < |stack| ==> Parent(Denotes(stack[i + 1])) in plugin.dirs
    ensures FirstFault(plugin.world, old(plugin.calls), plugin.calls, err) && (Benign(err) ==> err == OK)
  {
    ChainOnPath(stack, i);
    if i + 1 < |stack| {
      ChainAt(stack, i);
    }
    err := plugin.Mkdir(stack[i]);
    if err == EEXIST {
      err := OK;
    }
  }

  /** The descent loop: creates the stacked levels from the top, taking EEXIST for success. */
  method Descend(plugin: Plugin, stack: seq<string>) returns (err: int)
    requires plugin.Valid() && stack != [] && Chain(stack)
    requires Parent(Denotes(stack[0])) in plugin.dirs
    modifies plugin
    ensures plugin.Valid() && old(plugin.dirs) <= plugin.dirs
    ensures OnlyOnPath(plugin.created, old(plugin.created), Denotes(stack[|stack| - 1]))
    ensures err == OK ==> Denotes(stack[|stack| - 1]) in plugin.dirs
    ensures FirstFault(plugin.world, old(plugin.calls), plugin.calls, err) && (Benign(err) ==> err == OK)
  {
    ghost var target := Denotes(stack[|stack| - 1]);
    err := OK;
    var i := 0;
    while i < |stack| && err == OK
      invariant 0 <= i <= |stack|
      invariant plugin.Valid() && old(plugin.dirs) <= plugin.dirs
      invariant OnlyOnPath(plugin.created, old(plugin.created), target)
      invariant err == OK && i < |stack| ==> Parent(Denotes(stack[i])) in plugin.dirs
      invariant err == OK && i == |stack| ==> target in plugin.dirs
      invariant FirstFault(plugin.world, old(plugin.calls), plugin.calls, err) && (Benign(err) ==> err == OK)
    {
      ghost var created, calls := plugin.created, plugin.calls;
      err := MakeLevel(plugin, stack, i);
      OnlyOnPathTransitive(old(plugin.created), created, plugin.created, target);
      FirstFaultJoins(plugin.world, old(plugin.calls), calls, plugin.calls, OK, err);
      i := i + 1;
    }
  }

  /** The call creates only the target and its ancestors; success means that the target, or
      what the buffer holds of it, exists; and it succeeds unless some request meets a fault, then
      stops there and reports it, whatever others create meanwhile. */
  method MkdirRec(plugin: Plugin, url: string) returns (err: int)
    requires plugin.Valid() && '\0' !in url
    modifies plugin
    ensures plugin.Valid() && old(plugin.dirs) <= plugin.dirs
    ensures OnlyOnPath(plugin.created, old(plugin.created), Denotes(url)) ||
            OnlyOnPath(plugin.created, old(plugin.created), Denotes(Truncated(url)))
    ensures err == OK ==> Denotes(url) in plugin.dirs || Denotes(Truncated(url)) in plugin.dirs
    ensures err == OK && FitsBuffer(url) ==> Denotes(url) in plugin.dirs
    ensures Faultless(plugin.world) ==> err == OK
    ensures Faultless(plugin.world) && Parent(Denotes(url)) in old(plugin.dirs) ==> Denotes(url) in plugin.dirs
    ensures !plugin.recursive && Faultless(plugin.world) &&
            Parent(Denotes(url)) !in old(plugin.dirs) + plugin.world.others(old(plugin.calls)) ==>
              OnlyOnPath(plugin.created, old(plugin.created), Denotes(Truncated(url)))
    ensures FirstFault(plugin.world, old(plugin.calls), plugin.calls, err) && (Benign(err) ==> err == OK)
  {
    TruncationHarmlessExactly(url);
    err := plugin.MkdirAll(url);
    if err == EEXIST {
      return OK;
    }
    if err != ENOENT {
      return;
    }
    ghost var calls := plugin.calls;
    var stack;
    stack, err := ClimbToExisting(plugin, url);
    FirstFaultJoins(plugin.world, old(plugin.calls), calls, plugin.calls, ENOENT, err);
    if err == EEXIST {
      err := OK;
    }
    calls := plugin.calls;
    if err == OK {
      err := Descend(plugin, stack);
      FirstFaultJoins(plugin.world, old(plugin.calls), calls, plugin.calls, OK, err);
    }
  }

  // ---- URLs longer than the buffer -----------------------------------------------

  /** The truncated copy loses nothing but slashes. */
  predicate FitsBuffer(url: string) {
    |url| < URL_MAX_LEN || AllSlashes(url[URL_MAX_LEN - 1..])
  }

  function Letters(s: string): nat {
    if s == "" then 0 else (if s[0] == '/' then 0 else 1) + Letters(s[1..])
  }

  function Size(parts: seq<string>): nat {
    if parts == [] then 0 else |parts[0]| + Size(parts[1..])
  }

  lemma {:induction false} SplitKeepsLetters(s: string)
    ensures Size(Split(s, '/')) == Letters(s)
  {
    if s != "" {
      SplitKeepsLetters(s[1..]);
      var r := Split(s[1..], '/');
      if s[0] == '/' {
        assert Split(s, '/')[1..] == r;
      } else {
        assert Split(s, '/')[1..] == r[1..];
      }
    }
  }

  lemma {:induction false} NonEmptyKeepsSize(parts: seq<string>)
    ensures Size(NonEmpty(parts)) == Size(parts)
  {
    if parts != [] {
      NonEmptyKeepsSize(parts[1..]);
      if parts[0] == "" {
        assert NonEmpty(parts) == NonEmpty(parts[1..]);
      } else {
        assert NonEmpty(parts)[1..] == NonEmpty(parts[1..]);
      }
    }
  }

  lemma {:induction false} LettersConcat(a: string, b: string)
    ensures Letters(a + b) == Letters(a) + Letters(b)
  {
    if a == "" {
      assert a + b == b;
    } else {
      LettersConcat(a[1..], b);
      assert (a + b)[1..] == a[1..] + b;
    }
  }

  lemma {:induction false} LettersPositive(s: string, i: nat)
    requires i < |s| && s[i] != '/'
    ensures Letters(s) > 0
  {
    if i > 0 {
      LettersPositive(s[1..], i - 1);
    }
  }

  lemma {:induction false} SizeMonotone(p: Path, q: Path)
    requires p <= q
    ensures Size(p) <= Size(q)
  {
    if p != [] {
      SizeMonotone(p[1..], q[1..]);
    }
  }

  lemma DenotesKeepsLetters(url: string)
    ensures Size(Denotes(url)) == Letters(url)
  {
    SplitKeepsLetters(url);
    NonEmptyKeepsSize(Split(url, '/'));
  }

  /** What the truncated copy denotes is (an extension of) the target exactly when only
      slashes are lost. */
  lemma TruncationHarmlessExactly(url: string)
    ensures Denotes(Truncated(url)) == Denotes(url) <==> FitsBuffer(url)
    ensures Denotes(url) <= Denotes(Truncated(url)) <==> FitsBuffer(url)
  {
    if |url| >= URL_MAX_LEN {
      var a, b := url[..URL_MAX_LEN - 1], url[URL_MAX_LEN - 1..];
      assert url == a + b;
      if AllSlashes(b) {
        DenotesTrailing(a, b);
      } else {
        var i :| 0 <= i < |b| && b[i] != '/';
        LettersPositive(b, i);
        LettersConcat(a, b);
        DenotesKeepsLetters(a);
        DenotesKeepsLetters(url);
        if Denotes(url) <= Denotes(a) {
          SizeMonotone(Denotes(url), Denotes(a));
          assert false;
        }
      }
    }
  }

  /** On a tree that holds only its root and that nobody else touches, a call of a plugin that
      makes one level at a time reports success in every case, and the target exists exactly
      when the URL fits the buffer or has at most one level. */
  method LongUrlMissesTarget(url: string) returns (plugin: Plugin, err: int)
    requires '\0' !in url
    ensures fresh(plugin) && err == OK
    ensures Denotes(url) in plugin.dirs <==> FitsBuffer(url) || |Denotes(url)| <= 1
  {
    var world := World((n: nat) => {[]}, (n: nat) => None);
    plugin := new Plugin(world, {[]}, false);
    err := MkdirRec(plugin, url);
    TruncationHarmlessExactly(url);
    QuietForeign(world, plugin.calls);
  }
}
