/** Client information of a context: add, remove, clear, lookup and printing, from
    src/core/common/gfal_config.c.

    The pairs live in a pointer array whose removal moves the last pair into the gap. Text is
    a sequence of C bytes, none of them 0; char is taken to be signed, as on the platforms
    gfal2 is built for. */
module ClientInfo {
  import opened Wrappers
  import opened CStrings

  type Byte = b: int | 1 <= b < 256 witness 1

  type Text = seq<Byte>

  datatype Pair = Pair(key: Text, value: Text)

  // ---- The array and the map it stands for ------------------------------------------------

  predicate UniqueKeys(info: seq<Pair>) {
    forall i, j | 0 <= i < j < |info| :: info[i].key != info[j].key
  }

  function IndexOfKey(info: seq<Pair>, key: Text): (r: int)
    ensures -1 <= r < |info|
    ensures r >= 0 ==> info[r].key == key
    ensures r == -1 ==> forall i | 0 <= i < |info| :: info[i].key != key
  {
    if info == [] then -1
    else if info[0].key == key then 0
    else
      var r := IndexOfKey(info[1..], key);
      if r == -1 then -1 else r + 1
  }

  lemma KeyNamesPair(info: seq<Pair>, p: Pair, q: Pair)
    requires UniqueKeys(info) && p in info && q in info && p.key == q.key
    ensures p == q
  {
    var i :| 0 <= i < |info| && info[i] == p;
    var j :| 0 <= j < |info| && info[j] == q;
  }

  ghost function Model(info: seq<Pair>): (m: map<Text, Text>)
    requires UniqueKeys(info)
    ensures forall p | p in info :: p.key in m && m[p.key] == p.value
    ensures forall k | k in m :: Pair(k, m[k]) in info
  {
    assert forall p, q | p in info && q in info && p.key == q.key :: p == q by {
      forall p, q | p in info && q in info && p.key == q.key ensures p == q {
        KeyNamesPair(info, p, q);
      }
    }
    map p | p in info :: p.key := p.value
  }

  /** g_ptr_array_remove_index_fast: the last pair takes the place of the removed one. */
  function RemoveFast(info: seq<Pair>, i: nat): seq<Pair>
    requires i < |info|
  {
    info[i := info[|info| - 1]][..|info| - 1]
  }

  function Removed(info: seq<Pair>, key: Text): seq<Pair> {
    var i := IndexOfKey(info, key);
    if i == -1 then info else RemoveFast(info, i)
  }

  function Added(info: seq<Pair>, p: Pair): seq<Pair> { Removed(info, p.key) + [p] }

  lemma RemoveFastMembers(info: seq<Pair>, i: nat)
    requires UniqueKeys(info) && i < |info|
    ensures UniqueKeys(RemoveFast(info, i))
    ensures forall p :: p in RemoveFast(info, i) <==> p in info && p.key != info[i].key
  {
    var r, last := RemoveFast(info, i), |info| - 1;
    assert forall j | 0 <= j < last :: r[j] == info[if j == i then last else j];
    forall p | p in info && p.key != info[i].key ensures p in r {
      var j :| 0 <= j < |info| && info[j] == p;
      assert r[if j == last then i else j] == p;
    }
    forall p | p in r ensures p in info && p.key != info[i].key {
      var j :| 0 <= j < last && r[j] == p;
    }
  }

  /** The last pair takes the place of the removed one and all others stay where they are. */
  lemma RemovedMoves(info: seq<Pair>, i: nat, key: Text)
    requires UniqueKeys(info) && i < |info| && info[i].key == key
    ensures var r, last := Removed(info, key), |info| - 1;
      |r| == last && forall j | 0 <= j < last :: r[j] == info[if j == i then last else j]
  {
    assert IndexOfKey(info, key) == i;
  }

  lemma RemovedMembers(info: seq<Pair>, key: Text)
    requires UniqueKeys(info)
    ensures UniqueKeys(Removed(info, key))
    ensures forall p :: p in Removed(info, key) <==> p in info && p.key != key
  {
    if IndexOfKey(info, key) >= 0 {
      RemoveFastMembers(info, IndexOfKey(info, key));
    }
  }

  lemma AddedMembers(info: seq<Pair>, p: Pair)
    requires UniqueKeys(info)
    ensures UniqueKeys(Added(info, p))
    ensures forall q :: q in Added(info, p) <==> q == p || (q in info && q.key != p.key)
  {
    RemovedMembers(info, p.key);
    var r := Removed(info, p.key);
    forall i | 0 <= i < |r| ensures r[i].key != p.key {
      assert r[i] in r;
    }
  }

  lemma RemovedRefines(info: seq<Pair>, key: Text)
    requires UniqueKeys(info)
    ensures UniqueKeys(Removed(info, key))
    ensures Model(Removed(info, key)) == Model(info) - {key}
  {
    RemovedMembers(info, key);
    var a, b := Model(Removed(info, key)), Model(info) - {key};
    forall k | k in b ensures k in a {
      assert Pair(k, b[k]).key == k && Pair(k, b[k]) in Removed(info, key);
    }
    forall k | k in a ensures k in b && a[k] == b[k] {
      assert Pair(k, a[k]).key == k && Pair(k, a[k]) in Removed(info, key);
    }
  }

  lemma AddedRefines(info: seq<Pair>, p: Pair)
    requires UniqueKeys(info)
    ensures UniqueKeys(Added(info, p))
    ensures Model(Added(info, p)) == Model(info)[p.key := p.value]
  {
    AddedMembers(info, p);
    var s, m := Added(info, p), Model(info);
    var a, b := Model(s), m[p.key := p.value];
    assert Pair(p.key, p.value) == p;
    forall k | k in b && k != p.key ensures k in a && a[k] == m[k] {
      assert Pair(k, m[k]).key == k && Pair(k, m[k]).value == m[k] && Pair(k, m[k]) in s;
    }
    forall k | k in a && k != p.key ensures k in m {
      assert Pair(k, a[k]).key == k && Pair(k, a[k]) in s;
    }
  }

  datatype Op = Add(p: Pair) | Remove(key: Text) | Clear

  function Run(info: seq<Pair>, ops: seq<Op>): seq<Pair>
    decreases |ops|
  {
    if ops == [] then info
    else
      match ops[0]
      case Add(p) => Run(Added(info, p), ops[1..])
      case Remove(key) => Run(Removed(info, key), ops[1..])
      case Clear => Run([], ops[1..])
  }

  function MapRun(m: map<Text, Text>, ops: seq<Op>): map<Text, Text>
    decreases |ops|
  {
    if ops == [] then m
    else
      match ops[0]
      case Add(p) => MapRun(m[p.key := p.value], ops[1..])
      case Remove(key) => MapRun(m - {key}, ops[1..])
      case Clear => MapRun(map[], ops[1..])
  }

  /** Under every run of add, remove and clear the array has unique keys and stands for the map
      of the same run. */
  lemma {:induction false} RunsRefineMap(info: seq<Pair>, ops: seq<Op>)
    requires UniqueKeys(info)
    ensures UniqueKeys(Run(info, ops)) && Model(Run(info, ops)) == MapRun(Model(info), ops)
    decreases |ops|
  {
    if ops != [] {
      match ops[0] {
        case Add(p) =>
          AddedRefines(info, p);
          RunsRefineMap(Added(info, p), ops[1..]);
        case Remove(key) =>
          RemovedRefines(info, key);
          RunsRefineMap(Removed(info, key), ops[1..]);
        case Clear =>
          assert Model([]) == map[];
          RunsRefineMap([], ops[1..]);
      }
    }
  }

  // ---- Percent encoding -------------------------------------------------------------------

  const SEMICOLON: Byte := 0x3B
  const EQUALS: Byte := 0x3D
  const PERCENT: Byte := 0x25

  /** Letters, digits, '.', '-' and '_' are kept. */
  predicate Unreserved(b: Byte) {
    0x30 <= b <= 0x39 || 0x41 <= b <= 0x5A || 0x61 <= b <= 0x7A || b == 0x2E || b == 0x2D || b == 0x5F
  }

  function HexDigit(d: int): Byte
    requires 0 <= d < 16
  {
    if d < 10 then 0x30 + d else 0x41 + d - 10
  }

  function HexValue(b: Byte): Option<int> {
    if 0x30 <= b <= 0x39 then Some(b - 0x30)
    else if 0x41 <= b <= 0x46 then Some(b - 0x41 + 10)
    else if 0x61 <= b <= 0x66 then Some(b - 0x61 + 10)
    else None
  }

  /** What "%%%02X" prints of the byte as a signed int, cut to three characters: for a byte from
      0x80 on, the first two of the eight hexadecimal digits of a negative number. */
  function Escape(b: Byte): (r: Text)
    ensures |r| == 3
  {
    if b < 0x80 then [PERCENT, HexDigit(b / 16), HexDigit(b % 16)] else [PERCENT, HexDigit(15), HexDigit(15)]
  }

  function EncodeByte(b: Byte): Text { if Unreserved(b) then [b] else Escape(b) }

  function Encode(t: Text): Text {
    if t == [] then [] else EncodeByte(t[0]) + Encode(t[1..])
  }

  /** Percent decoding (section 2.1 of RFC 3986). */
  function Decode(t: Text): Text
    decreases |t|
  {
    if t == [] then []
    else if t[0] == PERCENT && |t| >= 3 && HexValue(t[1]).Some? && HexValue(t[2]).Some? &&
            HexValue(t[1]).value * 16 + HexValue(t[2]).value > 0 then
      [HexValue(t[1]).value * 16 + HexValue(t[2]).value] + Decode(t[3..])
    else [t[0]] + Decode(t[1..])
  }

  /** The bytes that survive: ASCII, and 0xFF because that is what every other byte becomes. */
  predicate Faithful(t: Text) { forall i | 0 <= i < |t| :: t[i] < 0x80 || t[i] == 0xFF }

  function Garbled(t: Text): Text {
    if t == [] then [] else [if t[0] < 0x80 then t[0] else 0xFF] + Garbled(t[1..])
  }

  /** The text of an encoded byte: itself for letters, digits, '.', '-' and '_', else a percent sign and
      two upper-case digits, which from 0x80 on are always FF. */
  lemma EncodedText(b: Byte)
    ensures var c, hex := b as char, "0123456789ABCDEF";
      EncodeByte(b) ==
      if 'A' <= c <= 'Z' || 'a' <= c <= 'z' || '0' <= c <= '9' || c == '.' || c == '-' || c == '_' then [b]
      else if b >= 0x80 then ['%' as int, 'F' as int, 'F' as int]
      else ['%' as int, hex[b / 16] as int, hex[b % 16] as int]
  {}

  lemma DecodeEscape(b: Byte, rest: Text)
    ensures Decode(Escape(b) + rest) == [if b < 0x80 then b else 0xFF] + Decode(rest)
  {
    var t := Escape(b) + rest;
    assert t[3..] == rest;
    if b < 0x80 {
      assert HexValue(HexDigit(b / 16)) == Some(b / 16) && HexValue(HexDigit(b % 16)) == Some(b % 16);
      assert b / 16 * 16 + b % 16 == b;
    }
  }

  lemma DecodeUnreserved(b: Byte, rest: Text)
    requires Unreserved(b)
    ensures Decode([b] + rest) == [b] + Decode(rest)
  {
    assert ([b] + rest)[1..] == rest;
  }

  /** Decoding what the encoder wrote: bytes from 0x80 on all come back as 0xFF. */
  lemma {:induction false} DecodeEncode(t: Text)
    ensures Decode(Encode(t)) == Garbled(t)
  {
    if t != [] {
      DecodeEncode(t[1..]);
      if Unreserved(t[0]) {
        DecodeUnreserved(t[0], Encode(t[1..]));
      } else {
        DecodeEscape(t[0], Encode(t[1..]));
      }
    }
  }

  lemma {:induction false} GarbledIsIdentity(t: Text)
    ensures |Garbled(t)| == |t| && (Garbled(t) == t <==> Faithful(t))
  {
    if t != [] {
      GarbledIsIdentity(t[1..]);
      var g := Garbled(t);
      assert g[1..] == Garbled(t[1..]);
      assert g == [g[0]] + g[1..] && t == [t[0]] + t[1..];
      assert forall i | 1 <= i < |t| :: t[i] == t[1..][i - 1];
      assert Faithful(t) <==> (t[0] < 0x80 || t[0] == 0xFF) && Faithful(t[1..]);
    }
  }

  /** The round trip holds exactly for ASCII text and the byte 0xFF. */
  lemma EncodingRoundTripExactly(t: Text)
    ensures Decode(Encode(t)) == t <==> Faithful(t)
  {
    DecodeEncode(t);
    GarbledIsIdentity(t);
  }

  lemma {:induction false} EncodeBound(t: Text)
    ensures |Encode(t)| <= 3 * |t|
    ensures forall b | b in Encode(t) :: Unreserved(b) || b == PERCENT
  {
    if t != [] {
      EncodeBound(t[1..]);
      forall b | b in EncodeByte(t[0]) ensures Unreserved(b) || b == PERCENT {}
    }
  }

  // ---- The printed string -----------------------------------------------------------------------

  function PrintPair(p: Pair): Text { Encode(p.key) + [EQUALS] + Encode(p.value) }

  function Join(info: seq<Pair>): Text {
    if info == [] then []
    else if |info| == 1 then PrintPair(info[0])
    else PrintPair(info[0]) + [SEMICOLON] + Join(info[1..])
  }

  function Print(info: seq<Pair>): Option<Text> { if info == [] then None else Some(Join(info)) }

  function ReadPair(t: Text): Option<Pair> {
    var parts := Split(t, EQUALS);
    if |parts| == 2 then Some(Pair(Decode(parts[0]), Decode(parts[1]))) else None
  }

  function Cons(p: Option<Pair>, rest: Option<seq<Pair>>): Option<seq<Pair>> {
    if p.Some? && rest.Some? then Some([p.value] + rest.value) else None
  }

  function ReadPieces(pieces: seq<Text>): Option<seq<Pair>> {
    if pieces == [] then Some([]) else Cons(ReadPair(pieces[0]), ReadPieces(pieces[1..]))
  }

  /** Splits on ';' and '=' and decodes. */
  function ReadInfo(t: Text): Option<seq<Pair>> { ReadPieces(Split(t, SEMICOLON)) }

  lemma SplitSeparated(a: Text, c: Byte, b: Text)
    requires c !in a
    ensures Split(a + [c] + b, c) == [a] + Split(b, c)
  {
    SplitAt(a, c, b);
    SplitWhole(a, c);
  }

  function GarbledPair(p: Pair): Pair { Pair(Garbled(p.key), Garbled(p.value)) }

  lemma NoSeparators(t: Text)
    ensures SEMICOLON !in Encode(t) && EQUALS !in Encode(t)
  {
    EncodeBound(t);
  }

  lemma PairRoundTrip(p: Pair)
    ensures SEMICOLON !in PrintPair(p) && ReadPair(PrintPair(p)) == Some(GarbledPair(p))
  {
    NoSeparators(p.key);
    NoSeparators(p.value);
    var k, v := Encode(p.key), Encode(p.value);
    SplitSeparated(k, EQUALS, v);
    SplitWhole(v, EQUALS);
    assert Split(k + [EQUALS] + v, EQUALS) == [k, v];
    DecodeEncode(p.key);
    DecodeEncode(p.value);
  }

  function GarbledInfo(info: seq<Pair>): seq<Pair> {
    if info == [] then [] else [GarbledPair(info[0])] + GarbledInfo(info[1..])
  }

  lemma {:induction false} GarbledInfoIsIdentity(info: seq<Pair>)
    ensures GarbledInfo(info) == info <==> FaithfulInfo(info)
  {
    if info != [] {
      GarbledIsIdentity(info[0].key);
      GarbledIsIdentity(info[0].value);
      GarbledInfoIsIdentity(info[1..]);
      var g := GarbledInfo(info);
      assert g[1..] == GarbledInfo(info[1..]) && info == [info[0]] + info[1..];
      assert forall i | 1 <= i < |info| :: info[i] == info[1..][i - 1];
    }
  }

  lemma {:induction false} InfoReadsBack(info: seq<Pair>)
    requires info != []
    ensures ReadInfo(Join(info)) == Some(GarbledInfo(info))
    decreases |info|
  {
    var text, rest := PrintPair(info[0]), info[1..];
    PairRoundTrip(info[0]);
    if |info| == 1 {
      SplitWhole(text, SEMICOLON);
      ReadOne(text, []);
    } else {
      InfoReadsBack(rest);
      SplitSeparated(text, SEMICOLON, Join(rest));
      ReadOne(text, Split(Join(rest), SEMICOLON));
    }
  }

  lemma ReadOne(text: Text, pieces: seq<Text>)
    ensures ReadPieces([text] + pieces) == Cons(ReadPair(text), ReadPieces(pieces))
  {
    assert ([text] + pieces)[1..] == pieces;
  }

  predicate FaithfulInfo(info: seq<Pair>) {
    forall i | 0 <= i < |info| :: Faithful(info[i].key) && Faithful(info[i].value)
  }

  /** Splitting and decoding the printed string recovers the stored pairs in order exactly when
      every text is ASCII, up to the byte 0xFF. */
  lemma InfoRoundTripExactly(info: seq<Pair>)
    requires info != []
    ensures Print(info).Some?
    ensures ReadInfo(Print(info).value) == Some(info) <==> FaithfulInfo(info)
  {
    InfoReadsBack(info);
    GarbledInfoIsIdentity(info);
  }

  // ---- In place -----------------------------------------------------------------------------------

  class Context {
    var info: seq<Pair>

    ghost predicate Valid()
      reads this
    {
      UniqueKeys(info)
    }

    constructor ()
      ensures Valid() && info == []
    {
      info := [];
    }

    /** gfal2_get_client_info_value: the index of the key, or -1. */
    method GetValue(key: Text) returns (i: int, value: Option<Text>)
      requires Valid()
      ensures i == IndexOfKey(info, key)
      ensures value == if key in Model(info) then Some(Model(info)[key]) else None
      ensures i >= 0 <==> key in Model(info)
    {
      i := 0;
      while i < |info|
        invariant 0 <= i <= |info|
        invariant var rest := IndexOfKey(info[i..], key);
          IndexOfKey(info, key) == if rest == -1 then -1 else i + rest
      {
        if info[i].key == key {
          assert info[i] in info;
          return i, Some(info[i].value);
        }
        i := i + 1;
      }
      i, value := -1, None;
    }

    method Remove(key: Text) returns (ret: int)
      requires Valid()
      modifies this
      ensures Valid() && info == Removed(old(info), key)
      ensures Model(info) == Model(old(info)) - {key}
      ensures ret == if key in Model(old(info)) then 0 else -1
    {
      RemovedRefines(info, key);
      var i, _ := GetValue(key);
      if i < 0 {
        return i;
      }
      info := info[i := info[|info| - 1]][..|info| - 1];
      ret := 0;
    }

    method Add(key: Text, value: Text)
      requires Valid()
      modifies this
      ensures Valid() && info == Added(old(info), Pair(key, value))
      ensures Model(info) == Model(old(info))[key := value]
    {
      AddedRefines(info, Pair(key, value));
      var _ := Remove(key);
      info := info + [Pair(key, value)];
    }

    method Clear()
      modifies this
      ensures Valid() && info == []
    {
      info := [];
    }

    method ToString() returns (r: Option<Text>)
      ensures r == Print(info)
    {
      if info == [] {
        return None;
      }
      var text := PrintPair(info[|info| - 1]);
      var i := |info| - 1;
      while i > 0
        invariant 0 <= i < |info|
        invariant text == Join(info[i..])
      {
        i := i - 1;
        text := PrintPair(info[i]) + [SEMICOLON] + text;
        assert info[i..][1..] == info[i + 1..];
      }
      assert info[0..] == info;
      r := Some(text);
    }
  }

  /** Writes the encoding of one byte; an escape is followed by a terminator. */
  method EncodeInto(encoded: array<int>, at: nat, b: Byte) returns (len: nat)
    requires at + 3 < encoded.Length
    modifies encoded
    ensures at < len <= at + 3 && encoded[..len] == old(encoded[..at]) + EncodeByte(b)
    ensures forall k | len <= k < encoded.Length :: encoded[k] == old(encoded[k]) || encoded[k] == 0
  {
    if Unreserved(b) {
      encoded[at] := b;
      len := at + 1;
    } else {
      var e := Escape(b);
      encoded[at] := e[0];
      encoded[at + 1] := e[1];
      encoded[at + 2] := e[2];
      encoded[at + 3] := 0;
      len := at + 3;
      assert encoded[at..len] == e;
    }
    assert encoded[..len] == encoded[..at] + encoded[at..len];
  }

  /** gfal2_urlencode: writes into a zeroed buffer of three bytes per input byte and a terminator,
      and never beyond it. */
  method UrlEncode(t: Text) returns (encoded: array<int>, len: nat)
    ensures fresh(encoded) && encoded.Length == 3 * |t| + 1
    ensures len <= 3 * |t| && encoded[..len] == Encode(t) && encoded[len] == 0
  {
    encoded := new int[3 * |t| + 1](_ => 0);
    len := 0;
    ghost var done: Text := [];
    assert done + Encode(t) == Encode(t) && t[0..] == t;
    for ip := 0 to |t|
      invariant len <= 3 * ip
      invariant encoded[..len] == done && done + Encode(t[ip..]) == Encode(t)
      invariant forall k | len <= k < encoded.Length :: encoded[k] == 0
    {
      EncodeNext(done, t, ip);
      len := EncodeInto(encoded, len, t[ip]);
      done := done + EncodeByte(t[ip]);
    }
    assert Encode(t[|t|..]) == [] && done + [] == done;
  }

  lemma EncodeNext(done: Text, t: Text, i: nat)
    requires i < |t| && done + Encode(t[i..]) == Encode(t)
    ensures (done + EncodeByte(t[i])) + Encode(t[i + 1..]) == Encode(t)
  {
    assert t[i..][0] == t[i] && t[i..][1..] == t[i + 1..];
    ConcatAssociates(done, EncodeByte(t[i]), Encode(t[i + 1..]));
  }
}
