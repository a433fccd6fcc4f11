/** C strings in buffers, and splitting of text at a separator. */
module CStrings {

  /** The string up to the first terminator. */
  function Str(a: seq<char>): string {
    if a == [] || a[0] == '\0' then "" else [a[0]] + Str(a[1..])
  }

  predicate Terminated(a: seq<char>) { exists k :: 0 <= k < |a| && a[k] == '\0' }

  predicate EndsAt(a: seq<char>, k: int) {
    0 <= k < |a| && a[k] == '\0' && forall i | 0 <= i < k :: a[i] != '\0'
  }

  lemma {:induction false} StrEndsAt(a: seq<char>, k: nat)
    requires EndsAt(a, k)
    ensures Str(a) == a[..k]
  {
    if k > 0 {
      StrEndsAt(a[1..], k - 1);
    }
  }

  function LowerChar(c: char): char {
    if 'A' <= c <= 'Z' then c - 'A' + 'a' else c
  }

  function Lower(s: string): (r: string)
    ensures |r| == |s|
  {
    if s == "" then "" else [LowerChar(s[0])] + Lower(s[1..])
  }

  lemma {:induction false} LowerAt(s: string, i: nat)
    requires i < |s|
    ensures Lower(s)[i] == LowerChar(s[i])
  {
    if i > 0 {
      LowerAt(s[1..], i - 1);
    }
  }

  /** The pieces of s between the separators c; one piece when there is none. */
  function Split<T(==)>(s: seq<T>, c: T): (r: seq<seq<T>>)
    ensures |r| > 0
  {
    if s == [] then [[]]
    else if s[0] == c then [[]] + Split(s[1..], c)
    else var r := Split(s[1..], c); [[s[0]] + r[0]] + r[1..]
  }

  lemma {:induction false} SplitAt<T>(a: seq<T>, c: T, b: seq<T>)
    ensures Split(a + [c] + b, c) == Split(a, c) + Split(b, c)
  {
    if a == [] {
      assert (a + [c] + b)[1..] == b;
    } else {
      var s := a + [c] + b;
      assert s[0] == a[0] && s[1..] == a[1..] + [c] + b;
      SplitAt(a[1..], c, b);
      if a[0] != c {
        FirstGrows(a[0], Split(a[1..], c), Split(b, c));
      }
    }
  }

  lemma FirstGrows<T>(x: T, r: seq<seq<T>>, q: seq<seq<T>>)
    requires r != []
    ensures [[x] + (r + q)[0]] + (r + q)[1..] == [[x] + r[0]] + r[1..] + q
  {
    assert (r + q)[1..] == r[1..] + q;
  }

  lemma {:induction false} SplitWhole<T>(a: seq<T>, c: T)
    requires c !in a
    ensures Split(a, c) == [a]
  {
    if a != [] {
      SplitWhole(a[1..], c);
      assert a == [a[0]] + a[1..];
    }
  }

  lemma ConcatAssociates<T>(a: seq<T>, b: seq<T>, c: seq<T>)
    ensures a + (b + c) == (a + b) + c
  {}
}
