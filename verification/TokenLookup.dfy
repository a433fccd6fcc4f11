/** Bearer tokens of the HTTP plugin: find_se_token and the storing part of
    retrieve_and_store_se_token of src/plugins/http/gfal_http_plugin.cpp, and the token part
    of gfal_http_mkdirpG of src/plugins/http/gfal_http_plugin_metadata.cpp. */
module TokenLookup {
  import opened Wrappers
  import opened CredentialMap

  datatype Operation = Read | Head | Write | Mkcol | Tape | ReadPasv | WritePasv

  predicate WriteFlag(op: Operation) { op.Mkcol? || op.Write? || op.WritePasv? }

  predicate SearchFlag(op: Operation) { op.Mkcol? || op.Head? }

  /** path_contains: search names path itself or a directory on the way to it. */
  predicate PathContains(path: string, search: string)
    requires search != ""
  {
    search <= path && (|path| == |search| || path[|search| - 1] == '/' || path[|search|] == '/')
  }

  /** find_in_token_map: a token that is not recorded is taken for user-set. */
  predicate Sufficient(tokens: map<string, bool>, token: string, write: bool) {
    token !in tokens || tokens[token] || write == tokens[token]
  }

  predicate Candidate(n: Node, uri: string, op: Operation)
    requires n.prefix != "" && uri != ""
  {
    n.cred.kind == BEARER && (PathContains(uri, n.prefix) || (SearchFlag(op) && PathContains(n.prefix, uri)))
  }

  predicate Usable(n: Node, tokens: map<string, bool>, uri: string, op: Operation)
    requires n.prefix != "" && uri != ""
  {
    Candidate(n, uri, op) && Sufficient(tokens, n.cred.value, WriteFlag(op))
  }

  function FirstUsable(nodes: seq<Node>, tokens: map<string, bool>, uri: string, op: Operation): Option<Node>
    requires NonEmptyPrefixes(nodes) && uri != ""
  {
    if nodes == [] then None
    else if Usable(nodes[0], tokens, uri, op) then Some(nodes[0])
    else FirstUsable(nodes[1..], tokens, uri, op)
  }

  /** find_se_token: the scan, then the credential of the bare host. */
  function Found(nodes: seq<Node>, tokens: map<string, bool>, uri: string, host: string, op: Operation, config: Config):
    Option<string>
    requires NonEmptyPrefixes(nodes) && uri != ""
  {
    match FirstUsable(nodes, tokens, uri, op)
    case Some(n) => Some(n.cred.value)
    case None => Resolve(nodes, BEARER, host, config)
  }

  function Reserved(dir: string): string
    requires dir != ""
  {
    (if dir[|dir| - 1] == '/' then dir else dir + "/") + "gfal2_mkdir.reserved"
  }

  // ---- The plugin's state ------------------------------------------------------------

  class TokenCache {
    const creds: Store
    var tokens: map<string, bool>

    constructor (creds: Store)
      ensures this.creds == creds && tokens == map[]
    {
      this.creds := creds;
      tokens := map[];
    }

    method FindSeToken(uri: string, host: string, op: Operation, config: Config) returns (token: Option<string>)
      requires creds.Valid() && NonEmptyPrefixes(creds.nodes) && uri != ""
      ensures token == Found(creds.nodes, tokens, uri, host, op, config)
      ensures (exists n | n in creds.nodes :: Fits(n, tokens, uri, op)) ==>
                token.Some? && exists n | n in creds.nodes :: Fits(n, tokens, uri, op) && n.cred.value == token.value
      ensures !(exists n | n in creds.nodes :: Fits(n, tokens, uri, op)) ==>
                token == Resolve(creds.nodes, BEARER, host, config)
    {
      FindsExactly(creds.nodes, tokens, uri, op);
      var i := 0;
      while i < |creds.nodes|
        invariant 0 <= i <= |creds.nodes|
        invariant FirstUsable(creds.nodes, tokens, uri, op) == FirstUsable(creds.nodes[i..], tokens, uri, op)
      {
        var node := creds.nodes[i];
        if node.cred.kind == BEARER {
          if PathContains(uri, node.prefix) || (SearchFlag(op) && PathContains(node.prefix, uri)) {
            var known := node.cred.value in tokens;
            if !known || tokens[node.cred.value] || WriteFlag(op) == tokens[node.cred.value] {
              return Some(node.cred.value);
            }
          }
        }
        i := i + 1;
      }
      var _, value := creds.Get(BEARER, host, config);
      token := value;
    }

    /** Records a retrieved token for the URI and the access it was asked for. */
    method StoreSeToken(uri: string, op: Operation, token: string)
      requires creds.Valid()
      modifies this, creds
      ensures creds.Valid() && creds.nodes == Put(old(creds.nodes), Node(uri, Cred(BEARER, token)))
      ensures tokens == old(tokens)[token := op == Write || op == Mkcol || op == WritePasv]
    {
      creds.Set(uri, Some(Cred(BEARER, token)));
      tokens := tokens[token := WriteFlag(op)];
    }

    /** The token part of mkdir: a lookup, and when it finds nothing and the server issues a
        token, that token is stored for a reserved name in the directory. Either way the
        request that follows finds a token, unless none was found and none was issued. */
    method PrepareMkdir(dir: string, host: string, config: Config, issued: Option<string>)
      returns (token: Option<string>)
      requires creds.Valid() && NonEmptyPrefixes(creds.nodes) && dir != ""
      modifies this, creds
      ensures creds.Valid() && NonEmptyPrefixes(creds.nodes)
      ensures token == Found(creds.nodes, tokens, dir, host, Mkcol, config)
      ensures token.Some? <==> issued.Some? || old(Found(creds.nodes, tokens, dir, host, Mkcol, config)).Some?
      ensures old(Found(creds.nodes, tokens, dir, host, Mkcol, config)).Some? ==>
                creds.nodes == old(creds.nodes) && tokens == old(tokens)
      ensures old(Found(creds.nodes, tokens, dir, host, Mkcol, config)).None? && issued.Some? ==>
                var name := (if dir[|dir| - 1] == '/' then dir else dir + "/") + "gfal2_mkdir.reserved";
                && creds.nodes == Put(old(creds.nodes), Node(name, Cred("BEARER", issued.value)))
                && tokens == old(tokens)[issued.value := true]
    {
      token := FindSeToken(dir, host, Mkcol, config);
      if token.None? && issued.Some? {
        PutSpec(creds.nodes, Node(Reserved(dir), Cred(BEARER, issued.value)));
        MkcolFindsReservedToken(creds.nodes, tokens, dir, issued.value);
        StoreSeToken(Reserved(dir), Mkcol, issued.value);
        token := FindSeToken(dir, host, Mkcol, config);
      }
    }
  }

  // ---- What the scan promises -----------------------------------------------------------

  /** The token scan and the credential map test containment alike. */
  lemma ContainmentAgrees(prefix: string, url: string)
    requires prefix != ""
    ensures PathContains(url, prefix) <==> Matches(prefix, url)
  {
    if prefix <= url && |prefix| == |url| {
      assert prefix == url;
    }
  }

  lemma {:induction false} FirstUsableSpec(nodes: seq<Node>, tokens: map<string, bool>, uri: string, op: Operation)
    requires NonEmptyPrefixes(nodes) && uri != ""
    ensures match FirstUsable(nodes, tokens, uri, op)
      case None => forall n | n in nodes :: !Usable(n, tokens, uri, op)
      case Some(n) =>
        && n in nodes && Usable(n, tokens, uri, op)
        && exists i | 0 <= i < |nodes| :: nodes[i] == n && forall j | 0 <= j < i :: !Usable(nodes[j], tokens, uri, op)
  {
    if nodes != [] && !Usable(nodes[0], tokens, uri, op) {
      FirstUsableSpec(nodes[1..], tokens, uri, op);
      if FirstUsable(nodes, tokens, uri, op).Some? {
        var tail, n := nodes[1..], FirstUsable(nodes, tokens, uri, op).value;
        var i :| 0 <= i < |tail| && tail[i] == n && forall j | 0 <= j < i :: !Usable(tail[j], tokens, uri, op);
        assert nodes[i + 1] == n && forall j | 0 < j < i + 1 :: nodes[j] == tail[j - 1];
      }
    }
  }

  /** By name: reads, heads, tape requests and passive reads take any token; writes, directory
      creations and passive writes none that is recorded without write access. */
  predicate Allowed(tokens: map<string, bool>, token: string, op: Operation) {
    match op
    case Read | Head | Tape | ReadPasv => true
    case Write | Mkcol | WritePasv => token !in tokens || tokens[token]
  }

  /** By name: a bearer token whose prefix names the URI or a directory on its path, or for heads and
      directory creations also a name below the URI, and which is allowed. */
  predicate Fits(n: Node, tokens: map<string, bool>, uri: string, op: Operation)
    requires n.prefix != "" && uri != ""
  {
    && n.cred.kind == "BEARER" && Allowed(tokens, n.cred.value, op)
    && (Matches(n.prefix, uri) || ((op == Head || op == Mkcol) && Matches(uri, n.prefix)))
  }

  lemma FitsIsUsable(n: Node, tokens: map<string, bool>, uri: string, op: Operation)
    requires n.prefix != "" && uri != ""
    ensures Fits(n, tokens, uri, op) <==> Usable(n, tokens, uri, op)
  {
    ContainmentAgrees(n.prefix, uri);
    ContainmentAgrees(uri, n.prefix);
  }

  /** The scan finds a token that fits, and finds one exactly when there is one. */
  lemma FindsExactly(nodes: seq<Node>, tokens: map<string, bool>, uri: string, op: Operation)
    requires NonEmptyPrefixes(nodes) && uri != ""
    ensures FirstUsable(nodes, tokens, uri, op).Some? <==> exists n | n in nodes :: Fits(n, tokens, uri, op)
    ensures FirstUsable(nodes, tokens, uri, op).Some? ==>
              var n := FirstUsable(nodes, tokens, uri, op).value; n in nodes && Fits(n, tokens, uri, op)
  {
    FirstUsableSpec(nodes, tokens, uri, op);
    forall n | n in nodes ensures Fits(n, tokens, uri, op) <==> Usable(n, tokens, uri, op) {
      FitsIsUsable(n, tokens, uri, op);
    }
  }

  /** For an operation without extended search the scan picks the longest containing prefix among the
      allowed tokens. */
  lemma {:induction false} ScanPicksLongestAllowed(nodes: seq<Node>, tokens: map<string, bool>, uri: string,
                                                   op: Operation)
    requires Sorted(nodes) && NonEmptyPrefixes(nodes) && uri != "" && op != Head && op != Mkcol
    ensures FirstUsable(nodes, tokens, uri, op).Some? ==>
              var n := FirstUsable(nodes, tokens, uri, op).value;
              && n in nodes && Suits(n, BEARER, uri) && Allowed(tokens, n.cred.value, op)
              && forall m | m in nodes && Suits(m, BEARER, uri) ::
                   Allowed(tokens, m.cred.value, op) ==> |m.prefix| <= |n.prefix|
  {
    if nodes != [] {
      FitsIsUsable(nodes[0], tokens, uri, op);
      if Usable(nodes[0], tokens, uri, op) {
        forall m | m in nodes && Suits(m, BEARER, uri) ensures |m.prefix| <= |nodes[0].prefix| {
          if m != nodes[0] {
            MatchesGetShorter(nodes[0], m, uri);
          }
        }
      } else {
        ScanPicksLongestAllowed(nodes[1..], tokens, uri, op);
      }
    }
  }

  /** After a token was stored for a URI, a lookup of that URI finds one for every reading operation,
      for the operation it was stored for, and if that was a writing one for every operation. */
  lemma StoredTokenIsFound(nodes: seq<Node>, tokens: map<string, bool>, uri: string, stored: Operation, token: string,
                           op: Operation)
    requires Sorted(nodes) && NonEmptyPrefixes(nodes) && uri != ""
    requires op == stored || op in {Read, Head, Tape, ReadPasv} || stored in {Write, Mkcol, WritePasv}
    ensures var nodes' := Put(nodes, Node(uri, Cred(BEARER, token)));
      && NonEmptyPrefixes(nodes')
      && FirstUsable(nodes', tokens[token := stored in {Write, Mkcol, WritePasv}], uri, op).Some?
  {
    var n := Node(uri, Cred(BEARER, token));
    var tokens' := tokens[token := stored in {Write, Mkcol, WritePasv}];
    PutSpec(nodes, n);
    FindsExactly(Put(nodes, n), tokens', uri, op);
    assert n in Put(nodes, n) && Fits(n, tokens', uri, op);
  }

  /** The reserved name lies in the directory, so the extended search finds its token. */
  lemma ReservedIsContained(dir: string)
    requires dir != ""
    ensures PathContains(Reserved(dir), dir)
  {}

  /** After a token was stored for dir/gfal2_mkdir.reserved, a MKCOL lookup of dir finds a token,
      and never one that is recorded read-only. */
  lemma MkcolFindsReservedToken(nodes: seq<Node>, tokens: map<string, bool>, dir: string, token: string)
    requires Sorted(nodes) && NonEmptyPrefixes(nodes) && dir != ""
    ensures var nodes' := Put(nodes, Node(Reserved(dir), Cred(BEARER, token)));
      && Sorted(nodes') && NonEmptyPrefixes(nodes')
      && var tokens' := tokens[token := WriteFlag(Mkcol)];
      && FirstUsable(nodes', tokens', dir, Mkcol).Some?
      && Sufficient(tokens', FirstUsable(nodes', tokens', dir, Mkcol).value.cred.value, true)
  {
    var n := Node(Reserved(dir), Cred(BEARER, token));
    PutSpec(nodes, n);
    ReservedIsContained(dir);
    assert Usable(n, tokens[token := WriteFlag(Mkcol)], dir, Mkcol);
    FirstUsableSpec(Put(nodes, n), tokens[token := WriteFlag(Mkcol)], dir, Mkcol);
  }

  // ---- The host fallback does not look at the access -----------------------------------

  predicate ReadOnlyToken(tokens: map<string, bool>, token: Option<string>) {
    token.Some? && token.value in tokens && !tokens[token.value]
  }

  /** A write operation is given a token recorded read-only exactly when the scan finds
      nothing and the credential of the bare host, or the configured one, is such a token. */
  lemma ReadOnlyTokenForWriteExactly(nodes: seq<Node>, tokens: map<string, bool>, uri: string, host: string,
                                     op: Operation, config: Config)
    requires Sorted(nodes) && NonEmptyPrefixes(nodes) && uri != "" && WriteFlag(op)
    ensures ReadOnlyToken(tokens, Found(nodes, tokens, uri, host, op, config)) <==>
              && (forall n | n in nodes :: !Usable(n, tokens, uri, op))
              && ReadOnlyToken(tokens, Resolve(nodes, BEARER, host, config))
  {
    FirstUsableSpec(nodes, tokens, uri, op);
  }

  /** Storing a token for a read and setting the same token for the host makes a later write get it. */
  method HostFallbackLeaksReadOnlyToken() returns (cache: TokenCache, token: Option<string>)
    ensures fresh(cache) && token == Some("t") && ReadOnlyToken(cache.tokens, token)
  {
    var uri, host := "https://se.org/f", "se.org";
    var creds := new Store();
    cache := new TokenCache(creds);
    cache.StoreSeToken(uri, Read, "t");
    creds.Set(host, Some(Cred(BEARER, "t")));
    HostSortsFirst(uri, host, Cred(BEARER, "t"));
    token := cache.FindSeToken(uri, host, Write, Config(None, None, None));
  }

  /** The two stored nodes, of which only the first matches the bare host and only the second the
      URI, with a token that does not suffice for a write. */
  lemma HostSortsFirst(uri: string, host: string, cred: Cred)
    requires uri != "" && host != "" && uri[0] < host[0] && cred.kind == BEARER
    ensures var nodes := Put(Put([], Node(uri, cred)), Node(host, cred));
      && nodes == [Node(host, cred), Node(uri, cred)]
      && FirstUsable(nodes, map[cred.value := false], uri, Write) == None
      && Scan(nodes, BEARER, host) == Some(Node(host, cred))
  {
    var x, y := Node(uri, cred), Node(host, cred);
    assert Put([], x) == [x];
    assert [x][1..] == [] && Drop([x], KeyOf(y)) == [x];
    assert Put([x], y) == [y] + [x] == [y, x];
    assert [y, x][1..] == [x];
    assert !(host <= uri);
    assert FirstUsable([x], map[cred.value := false], uri, Write) == None;
  }
}
