/** String helpers standing in for `Array.prototype.join` and for counting
    the positional `?` markers of a statement. */
module Strings {

  /** `parts.join(sep)`: the parts in order with `sep` between neighbours. */
  function Join(parts: seq<string>, sep: string): string
  {
    if |parts| == 0 then ""
    else if |parts| == 1 then parts[0]
    else Join(parts[..|parts| - 1], sep) + sep + parts[|parts| - 1]
  }

  /** Number of occurrences of `c` in `s`. */
  function Count(s: string, c: char): (n: nat)
    ensures n <= |s|
    ensures n == 0 <==> c !in s
  {
    if s == [] then 0
    else Count(s[..|s| - 1], c) + (if s[|s| - 1] == c then 1 else 0)
  }

  predicate EndsWith(s: string, suffix: string)
  {
    |suffix| <= |s| && s[|s| - |suffix|..] == suffix
  }

  /** Total number of occurrences of `c` over all parts. */
  function CountAll(parts: seq<string>, c: char): nat
  {
    if parts == [] then 0
    else CountAll(parts[..|parts| - 1], c) + Count(parts[|parts| - 1], c)
  }

  lemma {:induction false} CountConcat(a: string, b: string, c: char)
    ensures Count(a + b, c) == Count(a, c) + Count(b, c)
    decreases |b|
  {
    if b == [] {
      assert a + b == a;
    } else {
      var b' := b[..|b| - 1];
      assert (a + b)[..|a + b| - 1] == a + b';
      CountConcat(a, b', c);
    }
  }

  /** Joining adds the separator's occurrences once between each pair of
      neighbours and nothing else. */
  lemma {:induction false} CountJoin(parts: seq<string>, sep: string, c: char)
    requires |parts| > 0
    ensures Count(Join(parts, sep), c) == CountAll(parts, c) + (|parts| - 1) * Count(sep, c)
    decreases |parts|
  {
    if |parts| == 1 {
      assert parts[..0] == [];
    } else {
      var init := parts[..|parts| - 1];
      var last := parts[|parts| - 1];
      var j := Join(init, sep);
      var k := |init| - 1;
      var s := Count(sep, c);
      CountJoin(init, sep, c);
      assert Count(j, c) == CountAll(init, c) + k * s;
      CountConcat(j, sep, c);
      CountConcat(j + sep, last, c);
      assert Join(parts, sep) == j + sep + last;
      assert CountAll(parts, c) == CountAll(init, c) + Count(last, c);
      assert (k + 1) * s == k * s + s;
    }
  }

  /** Parts free of `c` contribute nothing to the total count. */
  lemma {:induction false} CountAllNone(parts: seq<string>, c: char)
    requires forall i :: 0 <= i < |parts| ==> c !in parts[i]
    ensures CountAll(parts, c) == 0
    decreases |parts|
  {
    if parts != [] {
      CountAllNone(parts[..|parts| - 1], c);
    }
  }

  /** A single `c` between two `c`-free strings is counted once. */
  lemma CountOne(a: string, b: string, c: char)
    requires c !in a && c !in b
    ensures Count(a + [c] + b, c) == 1
  {
    CountConcat(a, [c], c);
    CountConcat(a + [c], b, c);
    assert [c][..0] == [];
  }
}
