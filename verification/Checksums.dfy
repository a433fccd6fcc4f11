/** Comparison of checksum strings: gfal_compare_checksums of src/utils/checksums/checksums.c. */
module Checksums {
  import opened CStrings

  function NoZeros(s: string): string {
    if s != "" && s[0] == '0' then NoZeros(s[1..]) else s
  }

  function Take(s: string, n: nat): string { if |s| <= n then s else s[..n] }

  /** Equal up to case and leading zeros, over at most n characters. */
  predicate Same(a: string, b: string, n: nat) {
    Lower(Take(NoZeros(a), n)) == Lower(Take(NoZeros(b), n))
  }

  /** strncasecmp on two buffers: the difference of the first pair of characters that differ in
      lower case among the first n, stopping at a terminator. */
  function Strncasecmp(a: seq<char>, b: seq<char>, n: nat): int
    requires Terminated(a) && Terminated(b)
  {
    if n == 0 then 0
    else if LowerChar(a[0]) != LowerChar(b[0]) then LowerChar(a[0]) as int - LowerChar(b[0]) as int
    else if a[0] == '\0' then 0
    else
      TerminatedTail(a);
      TerminatedTail(b);
      Strncasecmp(a[1..], b[1..], n - 1)
  }

  lemma TerminatedTail(a: seq<char>)
    requires Terminated(a) && a[0] != '\0'
    ensures Terminated(a[1..])
  {
    var k :| 0 <= k < |a| && a[k] == '\0';
    assert a[1..][k - 1] == '\0';
  }

  /** It gives 0 exactly when the strings agree up to case over their first n characters. */
  lemma {:induction false} StrncasecmpIsZero(a: seq<char>, b: seq<char>, n: nat)
    requires Terminated(a) && Terminated(b)
    ensures Strncasecmp(a, b, n) == 0 <==> Lower(Take(Str(a), n)) == Lower(Take(Str(b), n))
    decreases n
  {
    var s, t := Take(Str(a), n), Take(Str(b), n);
    if n > 0 && LowerChar(a[0]) == LowerChar(b[0]) && a[0] != '\0' {
      TerminatedTail(a);
      TerminatedTail(b);
      StrncasecmpIsZero(a[1..], b[1..], n - 1);
      assert s == [a[0]] + Take(Str(a[1..]), n - 1) && s[1..] == Take(Str(a[1..]), n - 1);
      assert t == [b[0]] + Take(Str(b[1..]), n - 1) && t[1..] == Take(Str(b[1..]), n - 1);
      assert Lower(s)[1..] == Lower(s[1..]) && Lower(t)[1..] == Lower(t[1..]);
      assert Lower(s) == [LowerChar(a[0])] + Lower(s)[1..] && Lower(t) == [LowerChar(b[0])] + Lower(t)[1..];
    } else if n > 0 && LowerChar(a[0]) != LowerChar(b[0]) {
      assert a[0] != '\0' ==> Lower(s)[0] == LowerChar(a[0]);
      assert b[0] != '\0' ==> Lower(t)[0] == LowerChar(b[0]);
    }
  }

  /** _no_zeros: the pointer behind the leading zeros. */
  method SkipZeros(a: array<char>) returns (p: nat)
    requires Terminated(a[..])
    ensures p < a.Length && Terminated(a[p..]) && Str(a[p..]) == NoZeros(Str(a[..]))
  {
    p := 0;
    assert a[0..] == a[..];
    while a[p] == '0'
      invariant p < a.Length && Terminated(a[p..]) && NoZeros(Str(a[p..])) == NoZeros(Str(a[..]))
      decreases a.Length - p
    {
      TerminatedTail(a[p..]);
      assert a[p..][1..] == a[p + 1..];
      p := p + 1;
    }
  }

  /** gfal_compare_checksums gives 0 exactly for strings that are the same. */
  method CompareChecksums(a: array<char>, b: array<char>, n: nat) returns (r: int)
    requires Terminated(a[..]) && Terminated(b[..])
    ensures r == 0 <==> Same(Str(a[..]), Str(b[..]), n)
  {
    var p := SkipZeros(a);
    var q := SkipZeros(b);
    StrncasecmpIsZero(a[p..], b[q..], n);
    r := Strncasecmp(a[p..], b[q..], n);
  }

  /** A checksum that differs from the given one in its first significant character. */
  function Other(sum: string): string {
    var s := NoZeros(sum);
    if s != "" && s[0] == '1' then "2" else "1"
  }

  lemma DiffersFrom(sum: string, n: nat)
    requires n > 0
    ensures !Same(sum, Other(sum), n) && !Same(Other(sum), sum, n)
  {
    var a, b := Take(NoZeros(sum), n), Take(NoZeros(Other(sum)), n);
    assert b == Other(sum) && |b| == 1 && |Lower(b)| == 1;
    assert Lower(b)[0] == b[0];
    if a != "" {
      assert Lower(a)[0] == LowerChar(a[0]);
    } else {
      assert |Lower(a)| == 0;
    }
  }

  /** Exactly the leading zeros are dropped. */
  lemma {:induction false} NoZerosSpec(s: string)
    ensures var k := |s| - |NoZeros(s)|;
      && 0 <= k && NoZeros(s) == s[k..] && (forall i | 0 <= i < k :: s[i] == '0')
      && (NoZeros(s) != "" ==> NoZeros(s)[0] != '0')
  {
    if s != "" && s[0] == '0' {
      NoZerosSpec(s[1..]);
      var k := |s[1..]| - |NoZeros(s[1..])|;
      assert forall i | 0 < i < k + 1 :: s[i] == s[1..][i - 1];
    }
  }
}
