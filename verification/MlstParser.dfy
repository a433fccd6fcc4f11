/** The MLST and MLSD line parser: parse_mlst_line of
    src/plugins/gridftp/gridftp_parsing.cpp.

    The parser works in the line's own buffer: it writes terminators over the separators,
    lower-cases the fact names, and keeps pointers to the values. A line is
    fact=value;fact=value; then a space and the file name (section 7.2 of RFC 3659). */
module MlstParser {
  import opened Wrappers
  import opened CStrings

  datatype Fact = Fact(name: string, value: string)

  /** The facts the parser looks at; the names are compared in lower case. */
  const KNOWN: set<string> := {"type", "unique", "unix.mode", "modify", "size", "unix.slink", "unix.uid", "unix.gid"}

  // ---- What a line means ------------------------------------------------------------------

  /** The position of the first c, or the length when there is none. */
  function IndexOf(s: string, c: char): (r: nat)
    ensures r <= |s|
  {
    if s == "" || s[0] == c then 0 else 1 + IndexOf(s[1..], c)
  }

  lemma {:induction false} IndexOfSpec(s: string, c: char)
    ensures var r := IndexOf(s, c); (r < |s| ==> s[r] == c) && c !in s[..r] && (r == |s| <==> c !in s)
  {
    if s != "" && s[0] != c {
      IndexOfSpec(s[1..], c);
      assert s[..IndexOf(s, c)] == [s[0]] + s[1..][..IndexOf(s[1..], c)];
    }
  }

  /** Where the fact after the first one begins. */
  function NextFact(s: string): (r: nat)
    ensures r <= |s| && (s != "" ==> r > 0)
  {
    var semi := IndexOf(s, ';');
    if semi < |s| then semi + 1 else semi
  }

  function Prepend(done: seq<Fact>, rest: Option<seq<Fact>>): Option<seq<Fact>> {
    if rest.None? then None else Some(done + rest.value)
  }

  /** The facts of a list, names in lower case; None when some fact has no '='. */
  function ParseFacts(s: string): Option<seq<Fact>>
    decreases |s|
  {
    if s == "" then Some([])
    else
      var semi := IndexOf(s, ';');
      var fact := s[..semi];
      var eq := IndexOf(fact, '=');
      if eq == |fact| then None
      else Prepend([Fact(Lower(fact[..eq]), fact[eq + 1..])], ParseFacts(s[NextFact(s)..]))
  }

  function LastValue(facts: seq<Fact>, name: string): Option<string> {
    if facts == [] then None
    else if facts[|facts| - 1].name == name then Some(facts[|facts| - 1].value)
    else LastValue(facts[..|facts| - 1], name)
  }

  /** The last value of each known fact. */
  function Entries(known: set<string>, facts: seq<Fact>): map<string, string> {
    map n | n in known && LastValue(facts, n).Some? :: LastValue(facts, n).value
  }

  predicate IsSpace(c: char) { c == ' ' || c == '\t' || c == '\n' || c == '\r' || c == 11 as char || c == 12 as char }

  function TrimRight(s: string): string {
    if s != "" && IsSpace(s[|s| - 1]) then TrimRight(s[..|s| - 1]) else s
  }

  // ---- The same by pieces -----------------------------------------------------------------------

  /** The facts between semicolons; the last semicolon may be missing. */
  function Pieces(s: string): seq<string> {
    var r := Split(s, ';');
    if r[|r| - 1] == "" then r[..|r| - 1] else r
  }

  function FactOf(piece: string): Fact
    requires '=' in piece
  {
    IndexOfSpec(piece, '=');
    var eq := IndexOf(piece, '=');
    Fact(Lower(piece[..eq]), piece[eq + 1..])
  }

  lemma PiecesCons(first: string, rest: string)
    requires ';' !in first
    ensures Pieces(first + [';'] + rest) == [first] + Pieces(rest)
  {
    SplitAt(first, ';', rest);
    SplitWhole(first, ';');
  }

  lemma PiecesOne(s: string)
    requires ';' !in s
    ensures Pieces(s) == if s == "" then [] else [s]
  {
    SplitWhole(s, ';');
  }

  /** One fact of the list, and the rest. */
  lemma PiecesNext(s: string)
    requires s != ""
    ensures Pieces(s) == [s[..IndexOf(s, ';')]] + Pieces(s[NextFact(s)..])
  {
    var semi := IndexOf(s, ';');
    IndexOfSpec(s, ';');
    if semi < |s| {
      CutAround(s, semi);
      PiecesCons(s[..semi], s[semi + 1..]);
    } else {
      PiecesLast(s);
    }
  }

  lemma CutAround(s: string, i: nat)
    requires i < |s|
    ensures s == s[..i] + [s[i]] + s[i + 1..]
  {}

  lemma PiecesLast(s: string)
    requires s != "" && ';' !in s
    ensures Pieces(s) == [s[..|s|]] + Pieces(s[|s|..])
  {
    assert s[..|s|] == s && s[|s|..] == "";
    PiecesOne(s);
    PiecesOne("");
    assert [s] + [] == [s];
  }

  /** The facts of all pieces, or nothing when some piece has no '='. */
  function FactsOf(pieces: seq<string>): Option<seq<Fact>> {
    if pieces == [] then Some([])
    else if '=' !in pieces[0] then None
    else Prepend([FactOf(pieces[0])], FactsOf(pieces[1..]))
  }

  lemma {:induction false} FactsOfAll(pieces: seq<string>)
    ensures FactsOf(pieces).Some? <==> forall i | 0 <= i < |pieces| :: '=' in pieces[i]
    ensures FactsOf(pieces).Some? ==>
              var facts := FactsOf(pieces).value;
              |facts| == |pieces| && forall i | 0 <= i < |pieces| :: '=' in pieces[i] && facts[i] == FactOf(pieces[i])
  {
    if pieces != [] {
      FactsOfAll(pieces[1..]);
      assert forall i | 0 < i < |pieces| :: pieces[i] == pieces[1..][i - 1];
    }
  }

  lemma {:induction false} ParseIsFactsOf(s: string)
    ensures ParseFacts(s) == FactsOf(Pieces(s))
    decreases |s|
  {
    if s == "" {
      PiecesOne(s);
    } else {
      var piece, rest := s[..IndexOf(s, ';')], s[NextFact(s)..];
      PiecesNext(s);
      IndexOfSpec(piece, '=');
      ParseIsFactsOf(rest);
      FactsOfCons(piece, Pieces(rest));
    }
  }

  lemma FactsOfCons(piece: string, rest: seq<string>)
    ensures FactsOf([piece] + rest) == if '=' in piece then Prepend([FactOf(piece)], FactsOf(rest)) else None
  {
    assert ([piece] + rest)[1..] == rest;
  }

  /** For every text: parsing fails exactly when some piece has no '=', and otherwise gives the fact of
      each piece, in order. */
  lemma ParseByPieces(s: string)
    ensures var ps := Pieces(s);
      && (ParseFacts(s).Some? <==> forall i | 0 <= i < |ps| :: '=' in ps[i])
      && (ParseFacts(s).Some? ==>
            var facts := ParseFacts(s).value;
            |facts| == |ps| && forall i | 0 <= i < |ps| :: '=' in ps[i] && facts[i] == FactOf(ps[i]))
  {
    ParseIsFactsOf(s);
    FactsOfAll(Pieces(s));
  }

  /** The last fact of a name counts. */
  lemma {:induction false} LastValueSpec(facts: seq<Fact>, name: string)
    ensures match LastValue(facts, name)
      case None => forall f | f in facts :: f.name != name
      case Some(v) => exists i | 0 <= i < |facts| ::
        facts[i] == Fact(name, v) && forall j | i < j < |facts| :: facts[j].name != name
  {
    if facts != [] {
      var init, last := facts[..|facts| - 1], facts[|facts| - 1];
      if last.name == name {
        assert facts[|facts| - 1] == Fact(name, last.value);
      } else {
        LastValueSpec(init, name);
        if LastValue(init, name).Some? {
          var i :| 0 <= i < |init| && init[i] == Fact(name, LastValue(init, name).value) &&
                   forall j | i < j < |init| :: init[j].name != name;
          assert facts[i] == init[i];
          assert forall j | 0 <= j < |init| :: facts[j] == init[j];
        }
      }
    }
  }

  /** Exactly the trailing white space is cut off. */
  lemma {:induction false} TrimRightSpec(s: string)
    ensures var r := TrimRight(s);
      r <= s && (r != "" ==> !IsSpace(r[|r| - 1])) && forall i | |r| <= i < |s| :: IsSpace(s[i])
  {
    if s != "" && IsSpace(s[|s| - 1]) {
      TrimRightSpec(s[..|s| - 1]);
    }
  }

  // ---- C strings ------------------------------------------------------------------------------

  /** The string v stands at position i and ends there with a terminator. */
  predicate StandsAt(a: seq<char>, i: nat, v: string) {
    '\0' !in v && i + |v| < |a| && a[i..i + |v|] == v && a[i + |v|] == '\0'
  }

  lemma {:induction false} StandsIsStr(a: seq<char>, i: nat, v: string)
    requires StandsAt(a, i, v)
    ensures Str(a[i..]) == v
    decreases |v|
  {
    if v == "" {
      assert a[i..][0] == '\0';
    } else {
      assert a[i] == a[i..i + |v|][0];
      assert a[i + 1..i + 1 + |v[1..]|] == a[i..i + |v|][1..];
      StandsIsStr(a, i + 1, v[1..]);
      assert a[i..][1..] == a[i + 1..];
    }
  }

  /** strchr from a position, in a string that ends at end. */
  method Strchr(buf: array<char>, from: nat, c: char, ghost end: nat) returns (pos: int)
    requires from <= end < buf.Length && c != '\0'
    requires buf[end] == '\0' && '\0' !in buf[from..end]
    ensures pos == -1 <==> IndexOf(buf[from..end], c) == end - from
    ensures pos != -1 ==> from <= pos < end && pos == from + IndexOf(buf[from..end], c)
  {
    IndexOfSpec(buf[from..end], c);
    pos := from;
    while buf[pos] != '\0' && buf[pos] != c
      invariant from <= pos <= end
      invariant c !in buf[from..pos]
      decreases end - pos
    {
      assert buf[from..pos + 1] == buf[from..pos] + [buf[pos]];
      pos := pos + 1;
    }
    if buf[pos] == '\0' {
      assert pos == end;
      pos := -1;
    } else {
      assert pos < end && buf[from..end][..pos - from] == buf[from..pos];
      FirstAt(buf[from..end], c, pos - from);
    }
  }

  lemma {:induction false} FirstAt(s: string, c: char, i: nat)
    requires i < |s| && s[i] == c && c !in s[..i]
    ensures IndexOf(s, c) == i
  {
    if i > 0 {
      assert s[0] in s[..i];
      assert forall x | x in s[1..][..i - 1] :: x in s[..i];
      FirstAt(s[1..], c, i - 1);
    }
  }

  /** The file name: copied, then cut before its trailing white space. */
  method CopyName(name: string, buf: array<char>)
    requires '\0' !in name && |name| < buf.Length
    modifies buf
    ensures Str(buf[..]) == TrimRight(name)
  {
    for i := 0 to |name|
      invariant buf[..i] == name[..i]
    {
      buf[i] := name[i];
    }
    var trailing := |name|;
    buf[trailing] := '\0';
    assert buf[..trailing] == name;
    while trailing > 0 && IsSpace(buf[trailing - 1])
      invariant 0 <= trailing <= |name|
      invariant buf[..trailing] == name[..trailing] && buf[trailing] == '\0'
      invariant TrimRight(name[..trailing]) == TrimRight(name)
    {
      assert name[..trailing][trailing - 1] == buf[..trailing][trailing - 1];
      assert name[..trailing][..trailing - 1] == name[..trailing - 1];
      trailing := trailing - 1;
      buf[trailing] := '\0';
      assert buf[..trailing] == name[..trailing];
    }
    assert trailing > 0 ==> name[..trailing][trailing - 1] == buf[trailing - 1];
    assert TrimRight(name[..trailing]) == name[..trailing];
    assert StandsAt(buf[..], 0, name[..trailing]);
    StandsIsStr(buf[..], 0, name[..trailing]);
    assert buf[..][0..] == buf[..];
  }

  /** Lower-cases in place up to the terminator. */
  method LowerInPlace(buf: array<char>, from: nat, end: nat)
    requires from <= end < buf.Length && buf[end] == '\0' && '\0' !in buf[from..end]
    modifies buf
    ensures buf[..] == LowerPart(old(buf[..]), from, end)
  {
    var i := from;
    while i < end
      invariant from <= i <= end
      invariant forall k | from <= k < i :: buf[k] == LowerChar(old(buf[k]))
      invariant forall k | 0 <= k < from || i <= k < buf.Length :: buf[k] == old(buf[k])
    {
      buf[i] := LowerChar(buf[i]);
      i := i + 1;
    }
    LowerPartIs(old(buf[..]), buf[..], from, end);
  }

  function LowerPart(a: seq<char>, from: nat, end: nat): (r: seq<char>)
    requires from <= end <= |a|
    ensures |r| == |a|
  {
    a[..from] + Lower(a[from..end]) + a[end..]
  }

  lemma LowerPartIs(a: seq<char>, b: seq<char>, from: nat, end: nat)
    requires from <= end <= |a| == |b|
    requires forall k | from <= k < end :: b[k] == LowerChar(a[k])
    requires forall k | 0 <= k < from || end <= k < |a| :: b[k] == a[k]
    ensures b == LowerPart(a, from, end)
  {
    LowerIs(a[from..end], b[from..end]);
    assert b == b[..from] + b[from..end] + b[end..];
    assert b[..from] == a[..from] && b[end..] == a[end..];
  }

  lemma {:induction false} LowerIs(s: string, t: string)
    requires |t| == |s| && forall k | 0 <= k < |s| :: t[k] == LowerChar(s[k])
    ensures t == Lower(s)
  {
    if s != "" {
      LowerIs(s[1..], t[1..]);
    }
  }

  // ---- One fact ------------------------------------------------------------------------------

  /** The buffer after the text between start and end has been cut at eq: a terminator over the
      separator at end, one over the '=', and the name in lower case. */
  function CutAt(a: seq<char>, start: nat, eq: nat, end: nat): (r: seq<char>)
    requires start <= eq < end < |a|
    ensures |r| == |a|
  {
    LowerPart(a[end := '\0'][eq := '\0'], start, eq)
  }

  /** What that leaves: the name stands at start, the value behind eq, and all else is as
      before. */
  lemma CutStands(a: seq<char>, start: nat, eq: nat, end: nat)
    requires start <= eq < end < |a| && '\0' !in a[start..end]
    ensures var r := CutAt(a, start, eq, end);
      && r[..start] == a[..start] && r[end + 1..] == a[end + 1..] && r[end] == '\0'
      && r[start..eq] == Lower(a[start..eq]) && r[eq] == '\0'
      && StandsAt(r, eq + 1, a[eq + 1..end])
  {
    var a2 := a[end := '\0'][eq := '\0'];
    var r := CutAt(a, start, eq, end);
    assert a2[start..eq] == a[start..eq];
    assert forall k | eq <= k < |a| :: r[k] == a2[k];
    assert forall k | 0 <= k < start :: r[k] == a2[k];
    assert r[eq + 1..end] == a[eq + 1..end];
    assert forall c | c in a[eq + 1..end] :: c in a[start..end];
  }

  /** The first fact in the buffer ends at end and has its '=' before val. */
  predicate FirstFact(a: seq<char>, start: nat, space: nat, end: nat, val: nat) {
    && start < space < |a| && a[space] == '\0' && '\0' !in a[start..space]
    && end == start + IndexOf(a[start..space], ';') && IndexOf(a[start..end], '=') < end - start
    && val == start + IndexOf(a[start..end], '=') + 1
  }

  lemma NoEquals(a: seq<char>, start: nat, space: nat, end: nat)
    requires start < space < |a| && end == start + IndexOf(a[start..space], ';')
    requires IndexOf(a[start..end], '=') == end - start
    ensures ParseFacts(a[start..space]).None?
  {
    assert a[start..end] == a[start..space][..end - start];
  }

  /** Cuts the first fact of the list that stands in the buffer from start to space. */
  method CutFact(buf: array<char>, start: nat, space: nat) returns (next: nat, end: nat, factval: int)
    requires start < space < buf.Length && buf[space] == '\0' && '\0' !in buf[..][start..space]
    modifies buf
    ensures next == start + NextFact(old(buf[..])[start..space])
    ensures factval == -1 ==> ParseFacts(old(buf[..])[start..space]).None?
    ensures factval != -1 ==>
              && start < factval <= end <= space
              && FirstFact(old(buf[..]), start, space, end, factval)
              && buf[..] == CutAt(old(buf[..]), start, factval - 1, end)
  {
    ghost var a := buf[..];
    assert buf[start..space] == a[start..space];
    var endfact := Strchr(buf, start, ';', space);
    if endfact != -1 {
      buf[endfact] := '\0';
      end, next := endfact, endfact + 1;
    } else {
      end, next := space, space;
    }
    assert buf[..] == a[end := '\0'];
    assert buf[start..end] == a[start..end] == a[start..space][..end - start];
    factval := Strchr(buf, start, '=', end);
    if factval == -1 {
      NoEquals(a, start, space, end);
      return;
    }
    MarkAndLower(buf, start, factval, end);
    factval := factval + 1;
  }

  method MarkAndLower(buf: array<char>, start: nat, eq: nat, ghost end: nat)
    requires start <= eq < end < buf.Length && '\0' !in buf[start..end]
    modifies buf
    ensures buf[..] == LowerPart(old(buf[..])[eq := '\0'], start, eq)
  {
    buf[eq] := '\0';
    assert forall c | c in buf[start..eq] :: c in old(buf[start..end]) by {
      assert buf[start..eq] == old(buf[start..end])[..eq - start];
    }
    LowerInPlace(buf, start, eq);
  }

  // ---- The whole line ---------------------------------------------------------------------------

  lemma PrependTwice(done: seq<Fact>, f: Fact, rest: Option<seq<Fact>>)
    ensures Prepend(done, Prepend([f], rest)) == Prepend(done + [f], rest)
  {
    if rest.Some? {
      assert done + ([f] + rest.value) == (done + [f]) + rest.value;
    }
  }

  /** Every known fact seen so far has its last value standing where its pointer says, before
      the part that is still to be parsed. */
  ghost predicate Kept(known: set<string>, a: seq<char>, slots: map<string, nat>, done: seq<Fact>, start: nat,
                       space: nat) {
    && (forall n :: n in slots <==> n in known && LastValue(done, n).Some?)
    && (forall n | n in slots :: KeptValue(a, slots[n], LastValue(done, n), start, space))
  }

  ghost predicate KeptValue(a: seq<char>, i: nat, v: Option<string>, start: nat, space: nat) {
    v.Some? && StandsAt(a, i, v.value) && (i + |v.value| < start || i + |v.value| == space == start)
  }

  lemma KeptValueStays(a: seq<char>, a': seq<char>, i: nat, v: Option<string>, start: nat, start': nat, space: nat)
    requires KeptValue(a, i, v, start, space)
    requires start < start' <= space && start < space < |a| == |a'| && a'[..start] == a[..start]
    ensures KeptValue(a', i, v, start', space)
  {
    var e := i + |v.value|;
    assert a[i..e] == a[..start][i..e] && a'[i..e] == a'[..start][i..e];
    assert a[e] == a[..start][e] && a'[e] == a'[..start][e];
  }

  lemma KeptStep(known: set<string>, a: seq<char>, a': seq<char>, slots: map<string, nat>, done: seq<Fact>,
                 start: nat, start': nat, space: nat,
                 f: Fact, i: nat)
    requires Kept(known, a, slots, done, start, space)
    requires start < start' <= space && start < space < |a| == |a'| && a'[..start] == a[..start]
    requires KeptValue(a', i, Some(f.value), start', space)
    ensures Kept(known, a', if f.name in known then slots[f.name := i] else slots, done + [f], start', space)
  {
    assert forall n :: LastValue(done + [f], n) == if n == f.name then Some(f.value) else LastValue(done, n) by {
      assert (done + [f])[..|done|] == done;
    }
    forall n | n in slots && n != f.name ensures KeptValue(a', slots[n], LastValue(done, n), start', space) {
      KeptValueStays(a, a', slots[n], LastValue(done, n), start, start', space);
    }
  }

  function FactAt(a: seq<char>, start: nat, val: nat, end: nat): Fact
    requires start < val <= end <= |a|
  {
    Fact(Lower(a[start..val - 1]), a[val..end])
  }

  lemma RoundParses(a: seq<char>, start: nat, space: nat, end: nat, val: nat, done: seq<Fact>)
    requires FirstFact(a, start, space, end, val)
    ensures var next := start + NextFact(a[start..space]);
      && next <= space
      && Prepend(done, ParseFacts(a[start..space])) ==
         Prepend(done + [FactAt(a, start, val, end)], ParseFacts(a[next..space]))
  {
    var s := a[start..space];
    PrependTwice(done, FactAt(a, start, val, end), ParseFacts(s[NextFact(s)..]));
    assert s[..end - start] == a[start..end];
    assert s[NextFact(s)..] == a[start + NextFact(s)..space];
    assert a[start..end][..val - 1 - start] == a[start..val - 1];
    assert a[start..end][val - start..] == a[val..end];
  }

  lemma RoundFrame(a: seq<char>, start: nat, space: nat, end: nat, val: nat, next: nat)
    requires start < val <= end <= space < |a| && a[space] == '\0' && '\0' !in a[start..end]
    requires next == if end < space then end + 1 else end
    ensures var a', f := CutAt(a, start, val - 1, end), FactAt(a, start, val, end);
      && a'[..start] == a[..start]
      && a'[space] == '\0' && a'[next..space] == a[next..space] && a'[start..val - 1] == f.name
      && KeptValue(a', val, Some(f.value), next, space)
  {
    var a' := CutAt(a, start, val - 1, end);
    CutStands(a, start, val - 1, end);
    if end < space {
      assert a'[next..space] == a'[end + 1..][..space - next] && a[next..space] == a[end + 1..][..space - next];
      assert a'[space] == a'[end + 1..][space - next] && a[space] == a[end + 1..][space - next];
    }
  }

  lemma FirstFactBounds(a: seq<char>, start: nat, space: nat, end: nat, val: nat)
    requires FirstFact(a, start, space, end, val)
    ensures start < val <= end <= space && '\0' !in a[start..end]
    ensures start + NextFact(a[start..space]) == if end < space then end + 1 else end
  {
    assert a[start..end] == a[start..space][..end - start];
  }

  lemma RoundKeeps(known: set<string>, a: seq<char>, start: nat, space: nat, end: nat, val: nat, slots: map<string,
                   nat>, done: seq<Fact>)
    requires FirstFact(a, start, space, end, val) && Kept(known, a, slots, done, start, space)
    ensures var next, a', f := start + NextFact(a[start..space]), CutAt(a, start, val - 1, end), FactAt(a, start, val,
                               end);
      && a'[space] == '\0' && a'[next..space] == a[next..space] && a'[start..val - 1] == f.name
      && Kept(known, a', if f.name in known then slots[f.name := val] else slots, done + [f], next, space)
  {
    FirstFactBounds(a, start, space, end, val);
    var next, a', f := start + NextFact(a[start..space]), CutAt(a, start, val - 1, end), FactAt(a, start, val, end);
    RoundFrame(a, start, space, end, val, next);
    KeptStep(known, a, a', slots, done, start, next, space, f, val);
  }

  /** A round that succeeded: what is still to be parsed is untouched, the pointers are right for
      one more fact, and the facts found so far make up the list with those still to come. */
  ghost predicate Advanced(known: set<string>, a: seq<char>, a': seq<char>, start: nat, next: nat, space: nat,
                           slots': map<string, nat>, done: seq<Fact>, done': seq<Fact>) {
    && start < next <= space < |a| == |a'| && a'[space] == '\0' && a'[next..space] == a[next..space]
    && Kept(known, a', slots', done', next, space)
    && Prepend(done, ParseFacts(a[start..space])) == Prepend(done', ParseFacts(a[next..space]))
  }

  lemma RoundAdvances(known: set<string>, a: seq<char>, start: nat, space: nat, end: nat, val: nat, slots: map<string,
                      nat>, done: seq<Fact>)
    requires FirstFact(a, start, space, end, val) && Kept(known, a, slots, done, start, space)
    ensures var next, a', f := start + NextFact(a[start..space]), CutAt(a, start, val - 1, end), FactAt(a, start, val,
                               end);
      && a'[start..val - 1] == f.name
      && var slots' := if f.name in known then slots[f.name := val] else slots;
      Advanced(known, a, a', start, next, space, slots', done, done + [f])
  {
    RoundParses(a, start, space, end, val, done);
    RoundKeeps(known, a, start, space, end, val, slots, done);
  }

  /** One round of the parsing loop. */
  method ParseFact(known: set<string>, buf: array<char>, start: nat, space: nat, slots: map<string, nat>,
                   ghost done: seq<Fact>)
    returns (ok: bool, next: nat, slots': map<string, nat>, ghost done': seq<Fact>)
    requires start < space < buf.Length && buf[space] == '\0' && '\0' !in buf[..][start..space]
    requires Kept(known, buf[..], slots, done, start, space)
    modifies buf
    ensures !ok ==> ParseFacts(old(buf[..])[start..space]).None?
    ensures ok ==> Advanced(known, old(buf[..]), buf[..], start, next, space, slots', done, done')
  {
    ghost var a := buf[..];
    var end, factval;
    next, end, factval := CutFact(buf, start, space);
    if factval == -1 {
      return false, next, slots, done;
    }
    RoundAdvances(known, a, start, space, end, factval, slots, done);
    var name := buf[..][start..factval - 1];
    slots' := if name in known then slots[name := factval] else slots;
    done' := done + [FactAt(a, start, factval, end)];
    ok := true;
  }

  /** Reads the strings that the pointers stand for. */
  function Read(a: seq<char>, slots: map<string, nat>): map<string, string>
    requires forall n | n in slots :: slots[n] <= |a|
  {
    map n | n in slots :: Str(a[slots[n]..])
  }

  lemma ReadIsEntries(known: set<string>, a: seq<char>, slots: map<string, nat>, facts: seq<Fact>, start: nat,
                      space: nat)
    requires Kept(known, a, slots, facts, start, space)
    ensures forall n | n in slots :: slots[n] <= |a|
    ensures Read(a, slots) == Entries(known, facts)
  {
    forall n | n in slots ensures slots[n] <= |a| && Str(a[slots[n]..]) == LastValue(facts, n).value {
      assert KeptValue(a, slots[n], LastValue(facts, n), start, space);
      StandsIsStr(a, slots[n], LastValue(facts, n).value);
    }
  }

  /** The loop over the facts; the list stands in the buffer up to space. */
  method ParseFactList(known: set<string>, buf: array<char>, space: nat)
    returns (ok: bool, entries: map<string, string>)
    requires space < buf.Length && buf[space] == '\0' && '\0' !in buf[..][..space]
    modifies buf
    ensures ok <==> ParseFacts(old(buf[..])[..space]).Some?
    ensures ok ==> entries == Entries(known, ParseFacts(old(buf[..])[..space]).value)
  {
    ghost var a, facts := buf[..], ParseFacts(buf[..][..space]);
    ghost var done: seq<Fact> := [];
    var startfact, slots: map<string, nat> := 0, map[];
    entries := map[];
    assert a[0..space] == a[..space];
    assert Prepend([], facts) == facts by {
      if facts.Some? {
        assert [] + facts.value == facts.value;
      }
    }
    while startfact != space
      invariant startfact <= space && buf[space] == '\0'
      invariant buf[..][startfact..space] == a[startfact..space]
      invariant Kept(known, buf[..], slots, done, startfact, space)
      invariant facts == Prepend(done, ParseFacts(a[startfact..space]))
      decreases space - startfact
    {
      assert a[startfact..space] == a[..space][startfact..];
      ghost var b := buf[..];
      ghost var start := startfact;
      ok, startfact, slots, done := ParseFact(known, buf, startfact, space, slots, done);
      if !ok {
        return;
      }
      assert b[startfact..space] == b[start..space][startfact - start..] == a[startfact..space];
    }
    assert facts == Some(done + []) && done + [] == done;
    ReadIsEntries(known, buf[..], slots, done, startfact, space);
    ok, entries := true, Read(buf[..], slots);
  }

  predicate HasSpace(line: string) { IndexOf(line, ' ') < |line| }

  /** A terminator over the first space leaves the facts before it and the name behind it. */
  lemma LineCut(a: seq<char>, line: string, space: nat)
    requires StandsAt(a, 0, line) && space < |line|
    ensures var b := a[space := '\0'];
      && b[..space] == line[..space] && '\0' !in b[..space]
      && Str(b[space + 1..]) == line[space + 1..] && '\0' !in line[space + 1..]
  {
    var b, name := a[space := '\0'], line[space + 1..];
    assert a[0..|line|] == line;
    assert forall c | c in name :: c in line;
    assert forall c | c in line[..space] :: c in line;
    assert b[space + 1..|line|] == name;
    StandsIsStr(b, space + 1, name);
  }

  /** parse_mlst_line: it fails exactly when there is no space or some fact has no '='; otherwise
      it yields the last value of each known fact, and the name behind the first space without
      its trailing white space. */
  method ParseMlstLine(buf: array<char>, ghost line: string, nameBuf: array?<char>)
    returns (ok: bool, entries: map<string, string>)
    requires StandsAt(buf[..], 0, line) && nameBuf != buf
    requires nameBuf != null ==> |line| - IndexOf(line, ' ') - 1 < nameBuf.Length
    modifies buf, nameBuf
    ensures ok <==> HasSpace(line) && ParseFacts(line[..IndexOf(line, ' ')]).Some?
    ensures ok ==> entries == Entries(KNOWN, ParseFacts(line[..IndexOf(line, ' ')]).value)
    ensures HasSpace(line) && nameBuf != null ==> Str(nameBuf[..]) == TrimRight(line[IndexOf(line, ' ') + 1..])
  {
    IndexOfSpec(line, ' ');
    entries := map[];
    assert buf[0..|line|] == line;
    var space := Strchr(buf, 0, ' ', |line|);
    if space == -1 {
      return false, entries;
    }
    LineCut(buf[..], line, space);
    buf[space] := '\0';
    var filename := Str(buf[..][space + 1..]);
    if nameBuf != null {
      CopyName(filename, nameBuf);
    }
    ok, entries := ParseFactList(KNOWN, buf, space);
  }

  // ---- Round trip --------------------------------------------------------------------------------

  predicate Plain(s: string) { ';' !in s && ' ' !in s && '\0' !in s }

  predicate WellFormed(facts: seq<Fact>) {
    forall f | f in facts :: Plain(f.name) && '=' !in f.name && Plain(f.value)
  }

  function PrintFact(f: Fact): string { f.name + "=" + f.value }

  /** The fact list, with or without its last semicolon. */
  function PrintFacts(facts: seq<Fact>, last: bool): string {
    if facts == [] then ""
    else PrintFact(facts[0]) + (if |facts| > 1 || last then ";" else "") + PrintFacts(facts[1..], last)
  }

  function LowerNames(facts: seq<Fact>): seq<Fact> {
    if facts == [] then [] else [Fact(Lower(facts[0].name), facts[0].value)] + LowerNames(facts[1..])
  }

  lemma {:induction false} IndexAfter(s: string, c: char, t: string)
    requires c !in s
    ensures IndexOf(s + [c] + t, c) == |s| && IndexOf(s, c) == |s|
  {
    if s != "" {
      IndexAfter(s[1..], c, t);
      assert (s + [c] + t)[1..] == s[1..] + [c] + t;
    }
  }

  lemma PrintedFact(f: Fact)
    requires Plain(f.name) && '=' !in f.name && Plain(f.value)
    ensures Plain(PrintFact(f)) && IndexOf(PrintFact(f), '=') == |f.name| < |PrintFact(f)|
    ensures PrintFact(f)[..|f.name|] == f.name && PrintFact(f)[|f.name| + 1..] == f.value
  {
    IndexAfter(f.name, '=', f.value);
  }

  /** For every well-formed list, with or without the last semicolon, parsing what was printed
      gives back the facts, names in lower case. */
  lemma {:induction false} FactsRoundTrip(facts: seq<Fact>, last: bool)
    requires WellFormed(facts)
    ensures ParseFacts(PrintFacts(facts, last)) == Some(LowerNames(facts))
    decreases |facts|
  {
    if facts != [] {
      var f, rest := facts[0], PrintFacts(facts[1..], last);
      var s := PrintFacts(facts, last);
      var text := PrintFact(f);
      PrintedFact(f);
      FactsRoundTrip(facts[1..], last);
      if |facts| > 1 || last {
        assert s == text + [';'] + rest;
        IndexAfter(text, ';', rest);
        assert s[..|text|] == text && s[|text| + 1..] == rest;
      } else {
        assert s == text;
        IndexAfter(text, ';', "");
        assert s[..|s|] == s && s[|s|..] == "" == rest;
      }
      assert ParseFacts(s) == Prepend([Fact(Lower(f.name), f.value)], ParseFacts(rest));
    }
  }

  lemma {:induction false} PrintedIsPlain(facts: seq<Fact>, last: bool)
    requires WellFormed(facts)
    ensures ' ' !in PrintFacts(facts, last) && '\0' !in PrintFacts(facts, last)
  {
    if facts != [] {
      PrintedFact(facts[0]);
      PrintedIsPlain(facts[1..], last);
    }
  }

  /** The same for a whole line: what the parser computes from it are the printed facts and the
      printed name. */
  lemma LineRoundTrip(facts: seq<Fact>, last: bool, name: string)
    requires WellFormed(facts)
    ensures var line := PrintFacts(facts, last) + " " + name; var space := IndexOf(line, ' ');
      && HasSpace(line) && ParseFacts(line[..space]) == Some(LowerNames(facts)) && line[space + 1..] == name
  {
    var text := PrintFacts(facts, last);
    PrintedIsPlain(facts, last);
    IndexAfter(text, ' ', name);
    FactsRoundTrip(facts, last);
    var line := text + " " + name;
    assert line == text + [' '] + name && line[..|text|] == text && line[|text| + 1..] == name;
    assert line[|text|] == ' ';
  }
}
