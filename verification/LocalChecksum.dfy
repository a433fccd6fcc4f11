/** Checksums of local files: gfal_plugin_file_chk_compute and its Adler-32 wrapper from
    src/plugins/file/gfal_file_plugin_main.c, with the seek that goes through gfal2_lseek,
    gfal_plugin_lseekG and gfal_plugin_file_lseek. */
module LocalChecksum {

  type Byte = b: int | 0 <= b < 256

  const BASE: int := 65521
  const CHUNK: nat := 0x20_0000            // 2 << 20

  // ---- Adler-32, sections 2.2 and 8.2 of RFC 1950 ---------------------------------------

  datatype Adler = Adler(a: int, b: int)

  function Init(): Adler { Adler(1, 0) }

  function Step(s: Adler, d: Byte): Adler {
    var a := (s.a + d) % BASE;
    Adler(a, (s.b + a) % BASE)
  }

  /** The running checksum after more bytes, as zlib's adler32 updates it. */
  function Update(s: Adler, data: seq<Byte>): Adler
    decreases |data|
  {
    if data == [] then s else Update(Step(s, data[0]), data[1..])
  }

  function Value(s: Adler): int { s.b * 65536 + s.a }

  /** The sums of the definition, without running reduction. */
  function ByteSum(data: seq<Byte>): int {
    if data == [] then 0 else data[0] + ByteSum(data[1..])
  }

  function WeightedSum(data: seq<Byte>): int {
    if data == [] then 0 else |data| * data[0] + WeightedSum(data[1..])
  }

  /** The checksum as RFC 1950 defines it: s1 is one plus the sum of all bytes, s2 is the sum of
      all values that s1 takes, both modulo 65521. */
  function Adler32(data: seq<Byte>): int {
    ((|data| + WeightedSum(data)) % BASE) * 65536 + (1 + ByteSum(data)) % BASE
  }

  lemma StepIsSums(s: Adler, x: int, y: int, d: Byte)
    requires s == Adler(x % BASE, y % BASE)
    ensures Step(s, d) == Adler((x + d) % BASE, (y + x + d) % BASE)
  {}

  lemma SumsRearrange(n: int, x: int, y: int, d: int, w: int)
    ensures (y + x + d) + (n - 1) * (x + d) + w == y + n * x + (n * d + w)
  {}

  /** Running reduction does not change the result: after data, the sums are those of the
      definition modulo the base. */
  lemma {:induction false} UpdateIsSums(s: Adler, x: int, y: int, data: seq<Byte>)
    requires s == Adler(x % BASE, y % BASE)
    ensures Update(s, data) == Adler((x + ByteSum(data)) % BASE, (y + |data| * x + WeightedSum(data)) % BASE)
    decreases |data|
  {
    if data == [] {
      assert |data| * x == 0;
    } else {
      var d, rest := data[0], data[1..];
      StepIsSums(s, x, y, d);
      UpdateIsSums(Step(s, d), x + d, y + x + d, rest);
      SumsRearrange(|data|, x, y, d, WeightedSum(rest));
    }
  }

  /** The checksum that the update loop ends with is the one of the definition. */
  lemma UpdateIsAdler32(data: seq<Byte>)
    ensures Value(Update(Init(), data)) == Adler32(data)
  {
    UpdateIsSums(Init(), 1, 0, data);
  }

  /** How the bytes are split over updates does not matter. */
  lemma {:induction false} UpdateConcat(s: Adler, x: seq<Byte>, y: seq<Byte>)
    ensures Update(Update(s, x), y) == Update(s, x + y)
    decreases |x|
  {
    if x == [] {
      assert x + y == y;
    } else {
      assert (x + y)[0] == x[0] && (x + y)[1..] == x[1..] + y;
      UpdateConcat(Step(s, x[0]), x[1..], y);
    }
  }

  // ---- The file and its short reads -----------------------------------------------------------

  function Min(x: int, y: int): int { if x < y then x else y }

  /** What read number k does: an error, or at most this many bytes of the ones asked for. */
  datatype ReadAnswer = ReadFails | ReadUpTo(limit: int)

  /** Each read that does not fail gives at least one byte as long as there is one. */
  type Reads = f: nat -> ReadAnswer | forall k: nat :: f(k).ReadUpTo? ==> f(k).limit > 0
    witness _ => ReadUpTo(1)

  /** The bytes that are asked for: from the offset, length bytes or, when length is 0, all, as far
      as the file goes. */
  function Range(content: seq<Byte>, offset: nat, length: nat): seq<Byte> {
    var from := Min(offset, |content|);
    content[from..if length == 0 then |content| else Min(from + length, |content|)]
  }

  /** An off_t squeezed through an int. */
  function ToInt32(x: int): (r: int)
    ensures -0x8000_0000 <= r < 0x8000_0000 && (r - x) % 0x1_0000_0000 == 0
  {
    var m := x % 0x1_0000_0000;
    if m < 0x8000_0000 then m else m - 0x1_0000_0000
  }

  // ---- The printed result -----------------------------------------------------------------------

  function HexDigit(d: nat): char
    requires d < 16
  {
    "0123456789abcdef"[d]
  }

  function HexValue(c: char): int { if c <= '9' then c as int - '0' as int else c as int - 'a' as int + 10 }

  /** The last n hexadecimal digits of a number. */
  function Hex(v: nat, n: nat): (r: string)
    ensures |r| == n
  {
    if n == 0 then "" else Hex(v / 16, n - 1) + [HexDigit(v % 16)]
  }

  function FromHex(s: string): int {
    if s == "" then 0 else FromHex(s[..|s| - 1]) * 16 + HexValue(s[|s| - 1])
  }

  function Power16(n: nat): nat { if n == 0 then 1 else 16 * Power16(n - 1) }

  /** Printing with enough digits loses nothing. */
  lemma {:induction false} HexRoundTrip(v: nat, n: nat)
    requires v < Power16(n)
    ensures FromHex(Hex(v, n)) == v
  {
    if n > 0 {
      HexRoundTrip(v / 16, n - 1);
      assert Hex(v, n)[..n - 1] == Hex(v / 16, n - 1);
      assert HexValue(HexDigit(v % 16)) == v % 16;
    }
  }

  /** A checksum fits the eight digits that "%08lx" prints of it. */
  lemma AdlerFits(data: seq<Byte>)
    ensures 0 <= Adler32(data) < Power16(8)
  {
    assert Power16(8) == 0x1_0000_0000 by {
      assert Power16(2) == 256 && Power16(4) == 65536 && Power16(6) == 0x100_0000;
    }
  }

  /** What snprintf leaves of a text in a buffer of this size. */
  function Printed(text: string, size: nat): (r: string)
    ensures r <= text && (size > 0 ==> |r| == Min(|text|, size - 1)) && (size == 0 ==> r == "")
  {
    if size == 0 then "" else if |text| < size then text else text[..size - 1]
  }

  datatype Result = Failed | Checksum(text: string)

  class OpenFile {
    const content: seq<Byte>
    const answers: Reads
    var cursor: nat
    var calls: nat

    constructor (content: seq<Byte>, answers: Reads)
      ensures this.content == content && this.answers == answers && cursor == 0 && calls == 0
    {
      this.content, this.answers := content, answers;
      cursor, calls := 0, 0;
    }

    /** lseek with SEEK_SET; its result comes back as an int. */
    method Seek(offset: nat) returns (ret: int)
      modifies this
      ensures cursor == offset && calls == old(calls) && ret == ToInt32(offset)
    {
      cursor := offset;
      ret := ToInt32(offset);
    }

    /** read: -1, or the number of bytes stored, 0 only at the end or for an empty request. */
    method Read(count: nat) returns (ret: int, data: seq<Byte>)
      modifies this
      ensures calls == old(calls) + 1
      ensures ret == -1 <==> answers(old(calls)).ReadFails?
      ensures ret == -1 ==> cursor == old(cursor) && data == []
      ensures ret != -1 ==>
                && 0 <= ret <= count && cursor == old(cursor) + ret
                && (ret == 0 <==> count == 0 || old(cursor) >= |content|)
                && (ret > 0 ==> cursor <= |content|)
                && data == if ret == 0 then [] else content[old(cursor)..cursor]
    {
      var answer := answers(calls);
      calls := calls + 1;
      if answer.ReadFails? {
        return -1, [];
      }
      var left := if cursor < |content| then |content| - cursor else 0;
      ret := Min(Min(count, answer.limit), left);
      data := if ret == 0 then [] else content[cursor..cursor + ret];
      cursor := cursor + ret;
    }
  }

  /** Chksum_interface: an initial state and an update that does not mind how data is split. */
  datatype Algorithm<!S> = Algorithm(init: S, update: (S, seq<Byte>) -> S)

  ghost predicate SplitsAt<S(!new)>(alg: Algorithm<S>, s: S, x: seq<Byte>, y: seq<Byte>) {
    alg.update(alg.update(s, x), y) == alg.update(s, x + y)
  }

  ghost predicate Splits<S(!new)>(alg: Algorithm<S>) {
    alg.update(alg.init, []) == alg.init && forall s, x, y :: SplitsAt(alg, s, x, y)
  }

  /** s is the running checksum of the first seen bytes from a position. */
  ghost predicate Digested<S(!new)>(alg: Algorithm<S>, content: seq<Byte>, from: nat, seen: nat, s: S) {
    from + seen <= |content| && s == alg.update(alg.init, content[from..from + seen])
  }

  lemma DigestMore<S(!new)>(alg: Algorithm<S>, content: seq<Byte>, from: nat, seen: nat, s: S, n: nat)
    requires Splits(alg) && Digested(alg, content, from, seen, s) && from + seen + n <= |content|
    ensures Digested(alg, content, from, seen + n, alg.update(s, content[from + seen..from + seen + n]))
  {
    var x, y := content[from..from + seen], content[from + seen..from + seen + n];
    assert SplitsAt(alg, alg.init, x, y);
    assert x + y == content[from..from + (seen + n)];
  }

  /** When the length is used up, or the end of the file is reached before, the range is done. */
  lemma RangeDone(content: seq<Byte>, start: nat, length: nat, seen: nat)
    requires var from := Min(start, |content|); from + seen <= |content| && (seen > 0 ==> from == start)
    requires length > 0 ==> seen <= length
    requires (length > 0 && seen == length) || start + seen >= |content|
    ensures content[Min(start, |content|)..Min(start, |content|) + seen] == Range(content, start, length)
  {}

  /** The do-while loop of the computation. Unless a read fails, it digests exactly the requested
      range, however the reads split it. */
  method Digest<S(!new)>(file: OpenFile, length: nat, alg: Algorithm<S>) returns (ok: bool, s: S)
    requires length < 0x8000_0000_0000_0000 && Splits(alg)
    modifies file
    ensures ok ==> s == alg.update(alg.init, Range(file.content, old(file.cursor), length))
    ensures (forall k: nat :: file.answers(k).ReadUpTo?) ==> ok
  {
    ghost var start, from, seen := file.cursor, Min(file.cursor, |file.content|), 0;
    var remain: int := if length > 0 then length else CHUNK;
    s := alg.init;
    assert file.content[from..from + 0] == [];
    while true
      invariant 0 <= seen && file.cursor == start + seen && (seen > 0 ==> from == start)
      invariant Digested(alg, file.content, from, seen, s)
      invariant remain == (if length > 0 then length - seen else CHUNK) && remain > 0
      decreases |file.content| - from - seen
    {
      var ret, data := file.Read(Min(CHUNK, remain));
      if length > 0 {
        remain := remain - ret;
      }
      if ret > 0 {
        DigestMore(alg, file.content, from, seen, s, ret);
        s := alg.update(s, data);
        seen := seen + ret;
      }
      if !(ret > 0 && remain > 0) {
        if ret >= 0 {
          RangeDone(file.content, start, length, seen);
        }
        return ret >= 0, s;
      }
    }
  }

  lemma AdlerSplits()
    ensures Splits(Algorithm(Init(), Update))
  {
    var alg := Algorithm(Init(), Update);
    forall s, x: seq<Byte>, y: seq<Byte> ensures SplitsAt(alg, s, x, y) {
      UpdateConcat(s, x, y);
    }
  }

  /** gfal_plugin_file_chk_compute for Adler-32, printing into a buffer of the given size. */
  method Compute(file: OpenFile, offset: nat, length: nat, size: nat) returns (r: Result)
    requires length < 0x8000_0000_0000_0000
    modifies file
    ensures var sum := Adler32(Range(file.content, offset, length));
      r.Checksum? ==> sum >= 0 && r.text == Printed(Hex(sum, 8), size) && (size > 8 ==> FromHex(r.text) == sum)
    ensures (forall k: nat :: file.answers(k).ReadUpTo?) ==>
              (r.Checksum? <==> offset % 0x1_0000_0000 < 0x8000_0000)
  {
    var pos := file.Seek(offset);
    if pos < 0 {
      return Failed;
    }
    AdlerSplits();
    var ok, s := Digest(file, length, Algorithm(Init(), Update));
    ghost var range := Range(file.content, offset, length);
    if !ok {
      return Failed;
    }
    UpdateIsAdler32(range);
    AdlerFits(range);
    HexRoundTrip(Adler32(range), 8);
    r := Checksum(Printed(Hex(Value(s), 8), size));
  }
}
