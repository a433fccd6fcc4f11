/** The credential mapping of a context: src/core/common/gfal_cred_mapping.c.

    Credentials live in one list that insertion keeps ordered by descending prefix and, for
    equal prefixes, ascending type. A front-to-back scan then stands in for a search of the
    longest prefix. */
module CredentialMap {
  import opened Wrappers

  datatype Cred = Cred(kind: string, value: string)

  datatype Node = Node(prefix: string, cred: Cred)

  type Key = (string, string)

  function KeyOf(n: Node): Key { (n.prefix, n.cred.kind) }

  // ---- strcmp and the list order -------------------------------------------------

  /** strcmp(a, b) < 0 */
  predicate Less(a: string, b: string) {
    b != "" && (a == "" || a[0] < b[0] || (a[0] == b[0] && Less(a[1..], b[1..])))
  }

  /** node_compare(x, y) < 0 */
  predicate Before(x: Node, y: Node) {
    Less(y.prefix, x.prefix) || (x.prefix == y.prefix && Less(x.cred.kind, y.cred.kind))
  }

  /** The first difference decides, and a proper prefix comes first. */
  lemma {:induction false} LessByFirstDifference(a: string, b: string, i: nat)
    requires i <= |a| && i <= |b| && a[..i] == b[..i]
    requires (i < |a| && i < |b| && a[i] != b[i]) || i == |a| || i == |b|
    ensures Less(a, b) <==> if i < |a| && i < |b| then a[i] < b[i] else i < |b|
  {
    if i > 0 {
      assert a[0] == a[..i][0] == b[..i][0] == b[0];
      assert a[1..][..i - 1] == a[..i][1..] && b[1..][..i - 1] == b[..i][1..];
      LessByFirstDifference(a[1..], b[1..], i - 1);
    }
  }

  lemma {:induction false} LessTransitive(a: string, b: string, c: string)
    requires Less(a, b) && Less(b, c)
    ensures Less(a, c)
  {
    if a != "" && a[0] == b[0] == c[0] {
      LessTransitive(a[1..], b[1..], c[1..]);
    }
  }

  lemma {:induction false} LessIrreflexive(a: string)
    ensures !Less(a, a)
  {
    if a != "" {
      LessIrreflexive(a[1..]);
    }
  }

  lemma {:induction false} LessTotal(a: string, b: string)
    ensures Less(a, b) || a == b || Less(b, a)
  {
    if a != "" && b != "" && a[0] == b[0] {
      LessTotal(a[1..], b[1..]);
      assert a[1..] == b[1..] ==> a == [a[0]] + a[1..] == b;
    }
  }

  /** A proper prefix sorts before its extensions, so the list has it after them. */
  lemma {:induction false} PrefixIsLess(a: string, b: string)
    requires a < b
    ensures Less(a, b)
  {
    if a != "" {
      PrefixIsLess(a[1..], b[1..]);
    }
  }

  lemma BeforeTransitive(x: Node, y: Node, z: Node)
    requires Before(x, y) && Before(y, z)
    ensures Before(x, z)
  {
    if Less(y.prefix, x.prefix) && Less(z.prefix, y.prefix) {
      LessTransitive(z.prefix, y.prefix, x.prefix);
    } else if x.prefix == y.prefix == z.prefix {
      LessTransitive(x.cred.kind, y.cred.kind, z.cred.kind);
    }
  }

  lemma BeforeIrreflexive(x: Node, y: Node)
    requires KeyOf(x) == KeyOf(y)
    ensures !Before(x, y)
  {
    LessIrreflexive(x.prefix);
    LessIrreflexive(x.cred.kind);
  }

  lemma BeforeTotal(x: Node, y: Node)
    ensures Before(x, y) || KeyOf(x) == KeyOf(y) || Before(y, x)
  {
    LessTotal(x.prefix, y.prefix);
    LessTotal(x.cred.kind, y.cred.kind);
  }

  /** Strictly ordered, hence without two nodes of one key. */
  predicate Sorted(nodes: seq<Node>) {
    nodes != [] ==> (forall m | m in nodes[1..] :: Before(nodes[0], m)) && Sorted(nodes[1..])
  }

  lemma {:induction false} SortedIsUnique(nodes: seq<Node>, x: Node, y: Node)
    requires Sorted(nodes) && x in nodes && y in nodes && KeyOf(x) == KeyOf(y)
    ensures x == y
  {
    if x == nodes[0] || y == nodes[0] {
      BeforeIrreflexive(x, y);
      BeforeIrreflexive(y, x);
    } else {
      SortedIsUnique(nodes[1..], x, y);
    }
  }

  // ---- The list operations as functions -------------------------------------------

  function Drop(nodes: seq<Node>, key: Key): seq<Node> {
    if nodes == [] then [] else if KeyOf(nodes[0]) == key then nodes[1..] else [nodes[0]] + Drop(nodes[1..], key)
  }

  function Insert(nodes: seq<Node>, n: Node): seq<Node> {
    if nodes != [] && Before(nodes[0], n) then [nodes[0]] + Insert(nodes[1..], n) else [n] + nodes
  }

  function Put(nodes: seq<Node>, n: Node): seq<Node> { Insert(Drop(nodes, KeyOf(n)), n) }

  /** Where a search for the key stops, the list is what Drop leaves. */
  lemma {:induction false} DropAt(nodes: seq<Node>, key: Key, i: nat)
    requires i <= |nodes| && (forall j | 0 <= j < i :: KeyOf(nodes[j]) != key)
    requires i < |nodes| ==> KeyOf(nodes[i]) == key
    ensures Drop(nodes, key) == if i < |nodes| then nodes[..i] + nodes[i + 1..] else nodes
  {
    if i > 0 {
      DropAt(nodes[1..], key, i - 1);
    }
  }

  /** Where a search for a node not before n stops, n belongs. */
  lemma {:induction false} InsertAt(nodes: seq<Node>, n: Node, i: nat)
    requires i <= |nodes| && (forall j | 0 <= j < i :: Before(nodes[j], n))
    requires i < |nodes| ==> !Before(nodes[i], n)
    ensures Insert(nodes, n) == nodes[..i] + [n] + nodes[i..]
  {
    if i > 0 {
      InsertAt(nodes[1..], n, i - 1);
    }
  }

  /** The list that the copy loop builds by setting each node of src in turn. */
  function PutAll(nodes: seq<Node>, src: seq<Node>): seq<Node>
    decreases |src|
  {
    if src == [] then nodes else PutAll(Put(nodes, src[0]), src[1..])
  }

  lemma {:induction false} DropSpec(nodes: seq<Node>, key: Key)
    requires Sorted(nodes)
    ensures Sorted(Drop(nodes, key))
    ensures forall m :: m in Drop(nodes, key) <==> m in nodes && KeyOf(m) != key
  {
    if nodes != [] {
      if KeyOf(nodes[0]) == key {
        forall m | m in nodes && KeyOf(m) == key ensures m == nodes[0] {
          SortedIsUnique(nodes, m, nodes[0]);
        }
        forall m | m in nodes[1..] ensures KeyOf(m) != key {
          if KeyOf(m) == key {
            BeforeIrreflexive(nodes[0], m);
          }
        }
      } else {
        DropSpec(nodes[1..], key);
      }
    }
  }

  lemma {:induction false} InsertSpec(nodes: seq<Node>, n: Node)
    requires Sorted(nodes) && forall m | m in nodes :: KeyOf(m) != KeyOf(n)
    ensures Sorted(Insert(nodes, n))
    ensures forall m :: m in Insert(nodes, n) <==> m in nodes || m == n
  {
    if nodes != [] {
      if Before(nodes[0], n) {
        InsertSpec(nodes[1..], n);
      } else {
        BeforeTotal(nodes[0], n);
        assert nodes[0] in nodes;
        forall m | m in nodes[1..] ensures Before(n, m) {
          BeforeTransitive(n, nodes[0], m);
        }
      }
    }
  }

  lemma PutSpec(nodes: seq<Node>, n: Node)
    requires Sorted(nodes)
    ensures Sorted(Put(nodes, n))
    ensures forall m :: m in Put(nodes, n) <==> m == n || (m in nodes && KeyOf(m) != KeyOf(n))
  {
    DropSpec(nodes, KeyOf(n));
    InsertSpec(Drop(nodes, KeyOf(n)), n);
  }

  /** The order leaves one list for each content. */
  lemma {:induction false} SortedIsCanonical(a: seq<Node>, b: seq<Node>)
    requires Sorted(a) && Sorted(b) && forall m :: m in a <==> m in b
    ensures a == b
  {
    assert a == [] <==> b == [] by {
      if a != [] {
        assert a[0] in b;
      }
      if b != [] {
        assert b[0] in a;
      }
    }
    if a != [] {
      assert a[0] in b && b[0] in a;
      if a[0] != b[0] {
        assert Before(a[0], b[0]) && Before(b[0], a[0]);
        BeforeTransitive(a[0], b[0], a[0]);
        BeforeIrreflexive(a[0], a[0]);
      }
      forall m ensures m in a[1..] <==> m in b[1..] {
        if m == a[0] {
          BeforeIrreflexive(m, m);
        }
        assert m in a <==> m == a[0] || m in a[1..];
        assert m in b <==> m == b[0] || m in b[1..];
      }
      SortedIsCanonical(a[1..], b[1..]);
    }
  }

  lemma {:induction false} PutAllSpec(nodes: seq<Node>, src: seq<Node>)
    requires Sorted(nodes) && Sorted(src)
    requires forall m, n | m in nodes && n in src :: KeyOf(m) != KeyOf(n)
    ensures Sorted(PutAll(nodes, src))
    ensures forall m :: m in PutAll(nodes, src) <==> m in nodes || m in src
    decreases |src|
  {
    if src != [] {
      var next := Put(nodes, src[0]);
      PutSpec(nodes, src[0]);
      forall m, n | m in next && n in src[1..] ensures KeyOf(m) != KeyOf(n) {
        if m == src[0] && KeyOf(m) == KeyOf(n) {
          BeforeIrreflexive(m, n);
        }
      }
      PutAllSpec(next, src[1..]);
    }
  }

  /** Copying node by node into an empty list gives the very same list. */
  lemma CopyIsIdentity(src: seq<Node>)
    requires Sorted(src)
    ensures PutAll([], src) == src
  {
    PutAllSpec([], src);
    SortedIsCanonical(PutAll([], src), src);
  }

  // ---- The map that the list stands for --------------------------------------------

  ghost function Model(nodes: seq<Node>): map<Key, string>
    requires Sorted(nodes)
  {
    if nodes == [] then map[] else Model(nodes[1..])[KeyOf(nodes[0]) := nodes[0].cred.value]
  }

  lemma {:induction false} ModelHas(nodes: seq<Node>)
    requires Sorted(nodes)
    ensures forall n | n in nodes :: KeyOf(n) in Model(nodes) && Model(nodes)[KeyOf(n)] == n.cred.value
    ensures forall k | k in Model(nodes) :: Node(k.0, Cred(k.1, Model(nodes)[k])) in nodes
  {
    if nodes != [] {
      ModelHas(nodes[1..]);
      forall n | n in nodes[1..] ensures KeyOf(n) != KeyOf(nodes[0]) {
        if KeyOf(n) == KeyOf(nodes[0]) {
          BeforeIrreflexive(nodes[0], n);
        }
      }
    }
  }

  lemma ModelPut(nodes: seq<Node>, n: Node)
    requires Sorted(nodes)
    ensures Sorted(Put(nodes, n)) && Model(Put(nodes, n)) == Model(nodes)[KeyOf(n) := n.cred.value]
  {
    PutSpec(nodes, n);
    var a, b := Model(Put(nodes, n)), Model(nodes)[KeyOf(n) := n.cred.value];
    ModelHas(nodes);
    ModelHas(Put(nodes, n));
    forall k ensures k in a <==> k in b
    {
      if k in b && k != KeyOf(n) {
        assert Node(k.0, Cred(k.1, b[k])) in Put(nodes, n);
      }
    }
    forall k | k in a ensures a[k] == b[k] {
      assert Node(k.0, Cred(k.1, a[k])) in Put(nodes, n);
    }
  }

  lemma ModelDrop(nodes: seq<Node>, key: Key)
    requires Sorted(nodes)
    ensures Sorted(Drop(nodes, key)) && Model(Drop(nodes, key)) == Model(nodes) - {key}
  {
    DropSpec(nodes, key);
    var a, b := Model(Drop(nodes, key)), Model(nodes) - {key};
    ModelHas(nodes);
    ModelHas(Drop(nodes, key));
    forall k ensures k in a <==> k in b
    {
      if k in b {
        assert Node(k.0, Cred(k.1, b[k])) in Drop(nodes, key);
      }
    }
    forall k | k in a ensures a[k] == b[k] {
      assert Node(k.0, Cred(k.1, a[k])) in Drop(nodes, key);
    }
  }

  // ---- Whole runs --------------------------------------------------------------------

  /** Operations on the two contexts of a run; Copy replaces one by the other. */
  datatype Op = Set(at: bool, n: Node) | Del(at: bool, key: Key) | Clean(at: bool) | Copy(to: bool)

  type Lists = (seq<Node>, seq<Node>)
  type Maps = (map<Key, string>, map<Key, string>)

  function OnList(nodes: Lists, at: bool): seq<Node> { if at then nodes.1 else nodes.0 }
  function WithList(nodes: Lists, at: bool, l: seq<Node>): Lists { if at then (nodes.0, l) else (l, nodes.1) }
  function OnMap(m: Maps, at: bool): map<Key, string> { if at then m.1 else m.0 }
  function WithMap(m: Maps, at: bool, x: map<Key, string>): Maps { if at then (m.0, x) else (x, m.1) }

  function ListStep(s: Lists, op: Op): Lists {
    match op
    case Set(at, n) => WithList(s, at, Put(OnList(s, at), n))
    case Del(at, key) => WithList(s, at, Drop(OnList(s, at), key))
    case Clean(at) => WithList(s, at, [])
    case Copy(to) => WithList(s, to, PutAll([], OnList(s, !to)))
  }

  function MapStep(m: Maps, op: Op): Maps {
    match op
    case Set(at, n) => WithMap(m, at, OnMap(m, at)[KeyOf(n) := n.cred.value])
    case Del(at, key) => WithMap(m, at, OnMap(m, at) - {key})
    case Clean(at) => WithMap(m, at, map[])
    case Copy(to) => (OnMap(m, !to), OnMap(m, !to))
  }

  function ListRun(s: Lists, run: seq<Op>): Lists
    decreases |run|
  {
    if run == [] then s else ListRun(ListStep(s, run[0]), run[1..])
  }

  function MapRun(m: Maps, run: seq<Op>): Maps
    decreases |run|
  {
    if run == [] then m else MapRun(MapStep(m, run[0]), run[1..])
  }

  ghost predicate Refines(s: Lists, m: Maps) {
    Sorted(s.0) && Sorted(s.1) && Model(s.0) == m.0 && Model(s.1) == m.1
  }

  /** After every run of set, del, clean and copy on two contexts, both lists are strictly
      ordered with unique keys and stand for the maps that the same run gives. */
  lemma {:induction false} RunsRefineMaps(s: Lists, m: Maps, run: seq<Op>)
    requires Refines(s, m)
    ensures Refines(ListRun(s, run), MapRun(m, run))
    decreases |run|
  {
    if run != [] {
      match run[0] {
        case Set(at, n) => ModelPut(OnList(s, at), n);
        case Del(at, key) => ModelDrop(OnList(s, at), key);
        case Clean(at) =>
        case Copy(to) => CopyIsIdentity(OnList(s, !to));
      }
      RunsRefineMaps(ListStep(s, run[0]), MapStep(m, run[0]), run[1..]);
    }
  }

  // ---- Lookup ----------------------------------------------------------------------

  /** The prefix names the URL itself or a directory on its path. */
  predicate Matches(prefix: string, url: string)
    requires prefix != ""
  {
    prefix <= url && !(|prefix| < |url| && url[|prefix| - 1] != '/' && url[|prefix|] != '/')
  }

  /** The prefix is the URL, or ends at one of its slashes, on either side. */
  lemma MatchesExactly(prefix: string, url: string)
    requires prefix != ""
    ensures Matches(prefix, url) <==>
              || prefix == url
              || (exists rest :: url == prefix + "/" + rest)
              || (prefix[|prefix| - 1] == '/' && exists rest :: url == prefix + rest)
  {
    var n := |prefix|;
    if prefix <= url && n < |url| {
      assert url == prefix + url[n..];
      if url[n] == '/' {
        assert url == prefix + "/" + url[n + 1..];
      }
    } else if prefix <= url {
      assert prefix == url;
    }
  }

  predicate NonEmptyPrefixes(nodes: seq<Node>) { forall n | n in nodes :: n.prefix != "" }

  predicate Suits(n: Node, kind: string, url: string)
    requires n.prefix != ""
  {
    n.cred.kind == kind && Matches(n.prefix, url)
  }

  /** The first node of the scan that suits. */
  function Scan(nodes: seq<Node>, kind: string, url: string): Option<Node>
    requires NonEmptyPrefixes(nodes)
  {
    if nodes == [] then None
    else if Suits(nodes[0], kind, url) then Some(nodes[0])
    else Scan(nodes[1..], kind, url)
  }

  /** By brute force over the map: prefix p of this type matches, and no longer one does. */
  ghost predicate IsLongest(m: map<Key, string>, kind: string, url: string, p: string)
    requires forall k | k in m :: k.0 != ""
  {
    && (p, kind) in m && Matches(p, url)
    && forall k | k in m && k.1 == kind && Matches(k.0, url) :: |k.0| <= |p|
  }

  ghost predicate NoneMatches(m: map<Key, string>, kind: string, url: string)
    requires forall k | k in m :: k.0 != ""
  {
    forall k | k in m :: !(k.1 == kind && Matches(k.0, url))
  }

  lemma LongestIsUnique(m: map<Key, string>, kind: string, url: string, p: string, q: string)
    requires forall k | k in m :: k.0 != ""
    requires IsLongest(m, kind, url, p) && IsLongest(m, kind, url, q)
    ensures p == q
  {
    assert (p, kind).0 == p && (q, kind).0 == q;
    assert p == url[..|p|] && q == url[..|q|];
  }

  /** Later nodes that match the same URL are shorter. */
  lemma MatchesGetShorter(x: Node, y: Node, url: string)
    requires Before(x, y) && x.prefix != "" && y.prefix != "" && Matches(x.prefix, url) && Matches(y.prefix, url)
    ensures |y.prefix| <= |x.prefix|
  {
    if |x.prefix| < |y.prefix| {
      assert x.prefix < y.prefix by {
        assert x.prefix == url[..|x.prefix|] && y.prefix == url[..|y.prefix|];
      }
      PrefixIsLess(x.prefix, y.prefix);
      LessTransitive(x.prefix, y.prefix, x.prefix);
      LessIrreflexive(x.prefix);
    }
  }

  lemma {:induction false} ScanSpec(nodes: seq<Node>, kind: string, url: string)
    requires Sorted(nodes) && NonEmptyPrefixes(nodes)
    ensures match Scan(nodes, kind, url)
      case None => forall n | n in nodes :: !Suits(n, kind, url)
      case Some(n) =>
        n in nodes && Suits(n, kind, url) && forall m | m in nodes && Suits(m, kind, url) :: |m.prefix| <= |n.prefix|
  {
    if nodes != [] {
      if Suits(nodes[0], kind, url) {
        forall m | m in nodes && Suits(m, kind, url) ensures |m.prefix| <= |nodes[0].prefix| {
          if m != nodes[0] {
            MatchesGetShorter(nodes[0], m, url);
          }
        }
      } else {
        ScanSpec(nodes[1..], kind, url);
      }
    }
  }

  /** The scan finds the value of the longest matching prefix of the type, and nothing exactly
      when no prefix matches. */
  lemma ScanIsLongestPrefix(nodes: seq<Node>, kind: string, url: string)
    requires Sorted(nodes) && NonEmptyPrefixes(nodes)
    ensures forall k | k in Model(nodes) :: k.0 != ""
    ensures Scan(nodes, kind, url).None? <==> NoneMatches(Model(nodes), kind, url)
    ensures Scan(nodes, kind, url).Some? ==>
              var n := Scan(nodes, kind, url).value;
              IsLongest(Model(nodes), kind, url, n.prefix) && Model(nodes)[(n.prefix, kind)] == n.cred.value
  {
    ModelHas(nodes);
    ScanSpec(nodes, kind, url);
    forall k | k in Model(nodes) ensures k.0 != "" {
      assert Node(k.0, Cred(k.1, Model(nodes)[k])) in nodes;
    }
    forall k | k in Model(nodes) && k.1 == kind && Matches(k.0, url)
      ensures Suits(Node(k.0, Cred(k.1, Model(nodes)[k])), kind, url)
    {}
    if Scan(nodes, kind, url).Some? {
      var n := Scan(nodes, kind, url).value;
      assert KeyOf(n) == (n.prefix, kind);
    }
  }

  // ---- Lookup after whole runs ----------------------------------------------------------

  /** Every credential that the run sets has a non-empty prefix. */
  predicate SetsNonEmpty(run: seq<Op>) { forall op | op in run :: op.Set? ==> op.n.prefix != "" }

  lemma StepKeepsNonEmpty(s: Lists, op: Op)
    requires Sorted(s.0) && Sorted(s.1) && NonEmptyPrefixes(s.0) && NonEmptyPrefixes(s.1)
    requires op.Set? ==> op.n.prefix != ""
    ensures var s' := ListStep(s, op); NonEmptyPrefixes(s'.0) && NonEmptyPrefixes(s'.1)
  {
    match op
    case Set(at, n) => PutSpec(OnList(s, at), n);
    case Del(at, key) => DropSpec(OnList(s, at), key);
    case Clean(at) =>
    case Copy(to) => CopyIsIdentity(OnList(s, !to));
  }

  lemma {:induction false} RunKeepsNonEmpty(s: Lists, m: Maps, run: seq<Op>)
    requires Refines(s, m) && NonEmptyPrefixes(s.0) && NonEmptyPrefixes(s.1) && SetsNonEmpty(run)
    ensures var s' := ListRun(s, run); NonEmptyPrefixes(s'.0) && NonEmptyPrefixes(s'.1)
    decreases |run|
  {
    if run != [] {
      StepKeepsNonEmpty(s, run[0]);
      RunsRefineMaps(s, m, [run[0]]);
      assert [run[0]][1..] == [];
      assert ListRun(s, [run[0]]) == ListStep(s, run[0]) && MapRun(m, [run[0]]) == MapStep(m, run[0]);
      RunKeepsNonEmpty(ListStep(s, run[0]), MapStep(m, run[0]), run[1..]);
    }
  }

  /** After every run of set, del, clean and copy on two fresh contexts that sets non-empty prefixes,
      the scan of either list finds the longest prefix that matches in the map of the same run, with
      its value, and nothing exactly when none matches. */
  lemma LookupAfterRun(run: seq<Op>, at: bool, kind: string, url: string)
    requires SetsNonEmpty(run)
    ensures var nodes, m := OnList(ListRun(([], []), run), at), OnMap(MapRun((map[], map[]), run), at);
      && NonEmptyPrefixes(nodes) && (forall k | k in m :: k.0 != "")
      && match Scan(nodes, kind, url)
         case None => NoneMatches(m, kind, url)
         case Some(n) => IsLongest(m, kind, url, n.prefix) && m[(n.prefix, kind)] == n.cred.value
  {
    var s, m: Maps := ([], []), (map[], map[]);
    RunsRefineMaps(s, m, run);
    RunKeepsNonEmpty(s, m, run);
    ScanIsLongestPrefix(OnList(ListRun(s, run), at), kind, url);
  }

  // ---- The context's list, in place -----------------------------------------------

  const X509_CERT := "X509_CERT"
  const X509_KEY := "X509_KEY"
  const BEARER := "BEARER"

  /** The configuration values that a lookup falls back to. */
  datatype Config = Config(cert: Option<string>, key: Option<string>, bearer: Option<string>)

  function Fallback(config: Config, kind: string): Option<string> {
    if kind == X509_CERT then config.cert
    else if kind == X509_KEY then config.key
    else if kind == BEARER then config.bearer
    else None
  }

  /** What a lookup returns, from the scan or the configuration. */
  function Resolve(nodes: seq<Node>, kind: string, url: string, config: Config): Option<string>
    requires NonEmptyPrefixes(nodes)
  {
    match Scan(nodes, kind, url)
    case Some(n) => Some(n.cred.value)
    case None => Fallback(config, kind)
  }

  class Store {
    var nodes: seq<Node>

    ghost predicate Valid()
      reads this
    {
      Sorted(nodes)
    }

    constructor ()
      ensures Valid() && nodes == []
    {
      nodes := [];
    }

    /** Removes the node with the key, if there is one. */
    method Delete(key: Key) returns (found: bool)
      modifies this
      ensures nodes == Drop(old(nodes), key)
      ensures found <==> exists n :: n in old(nodes) && KeyOf(n) == key
    {
      var i := 0;
      while i < |nodes| && KeyOf(nodes[i]) != key
        invariant 0 <= i <= |nodes|
        invariant forall j | 0 <= j < i :: KeyOf(nodes[j]) != key
      {
        i := i + 1;
      }
      DropAt(nodes, key, i);
      found := i < |nodes|;
      if found {
        assert nodes[i] in nodes;
        nodes := nodes[..i] + nodes[i + 1..];
      }
    }

    /** gfal2_cred_set. Passing no credential is only defined when the prefix is not stored,
        and then changes nothing. */
    method Set(prefix: string, cred: Option<Cred>)
      requires Valid()
      requires cred.None? ==> forall n | n in nodes :: n.prefix != prefix
      modifies this
      ensures Valid()
      ensures cred.None? ==> nodes == old(nodes)
      ensures cred.Some? ==> nodes == Put(old(nodes), Node(prefix, cred.value))
      ensures cred.Some? ==> Model(nodes) == Model(old(nodes))[(prefix, cred.value.kind) := cred.value.value]
    {
      if cred.None? {
        return;
      }
      var node := Node(prefix, cred.value);
      ModelPut(nodes, node);
      var _ := Delete(KeyOf(node));
      InsertSorted(node);
    }

    /** g_list_insert_sorted with node_compare. */
    method InsertSorted(node: Node)
      modifies this
      ensures nodes == Insert(old(nodes), node)
    {
      var i := 0;
      while i < |nodes| && Before(nodes[i], node)
        invariant 0 <= i <= |nodes|
        invariant forall j | 0 <= j < i :: Before(nodes[j], node)
      {
        i := i + 1;
      }
      InsertAt(nodes, node, i);
      nodes := nodes[..i] + [node] + nodes[i..];
    }

    /** gfal2_cred_del: 0 when the key was stored, -1 otherwise. */
    method Del(kind: string, url: string) returns (ret: int)
      requires Valid()
      modifies this
      ensures Valid() && nodes == Drop(old(nodes), (url, kind))
      ensures Model(nodes) == Model(old(nodes)) - {(url, kind)}
      ensures ret == if (url, kind) in Model(old(nodes)) then 0 else -1
    {
      ModelDrop(nodes, (url, kind));
      ModelHas(nodes);
      var found := Delete((url, kind));
      ret := if found then 0 else -1;
    }

    method Clean()
      modifies this
      ensures Valid() && nodes == []
    {
      nodes := [];
    }

    /** gfal2_cred_copy: the same list, except that copying a context onto itself empties it,
        because the destination is cleaned first. */
    method CopyFrom(src: Store)
      requires src.Valid()
      modifies this
      ensures Valid()
      ensures src != this ==> nodes == old(src.nodes)
      ensures src == this ==> nodes == []
    {
      CopyIsIdentity(src.nodes);
      Clean();
      var i := 0;
      while i < |src.nodes| && src != this
        invariant 0 <= i <= |src.nodes| && Valid() && (src != this ==> src.nodes == old(src.nodes))
        invariant src == this ==> nodes == []
        invariant src != this ==> PutAll(nodes, src.nodes[i..]) == PutAll([], src.nodes)
      {
        Set(src.nodes[i].prefix, Some(src.nodes[i].cred));
        i := i + 1;
      }
    }

    /** gfal2_cred_get: the value and prefix of the first node that suits, which is the longest
        matching prefix of the map, or else the configured value of the type. */
    method Get(kind: string, url: string, config: Config) returns (base: string, value: Option<string>)
      requires Valid() && NonEmptyPrefixes(nodes)
      ensures forall k | k in Model(nodes) :: k.0 != ""
      ensures NoneMatches(Model(nodes), kind, url) ==>
                && base == ""
                && value == (if kind == "X509_CERT" then config.cert
                             else if kind == "X509_KEY" then config.key
                             else if kind == "BEARER" then config.bearer
                             else None)
      ensures !NoneMatches(Model(nodes), kind, url) ==>
                IsLongest(Model(nodes), kind, url, base) && value == Some(Model(nodes)[(base, kind)])
      ensures value == Resolve(nodes, kind, url, config)
    {
      ScanIsLongestPrefix(nodes, kind, url);
      var i := 0;
      while i < |nodes|
        invariant 0 <= i <= |nodes|
        invariant Scan(nodes, kind, url) == Scan(nodes[i..], kind, url)
      {
        var node := nodes[i];
        if node.cred.kind == kind && node.prefix <= url {
          if !(|node.prefix| < |url| && url[|node.prefix| - 1] != '/' && url[|node.prefix|] != '/') {
            return node.prefix, Some(node.cred.value);
          }
        }
        i := i + 1;
      }
      base := "";
      value := Fallback(config, kind);
    }
  }
}
