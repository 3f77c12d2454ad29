/** The comparison functions the three trees of the program are ordered by are orders of keys, as the
    tree asks: subtraction of pids (`spawns.c`) and of descriptors (`socket_node.c`), and `strcmp`
    on names (`configuration.c`). */
module Comparators {
  import opened Comparison

  /** Pids and descriptors are non-negative 32-bit integers, so their difference does not overflow. */
  const INT_MAX: int := 0x7FFF_FFFF

  function Subtract(a: int, b: int): int { a - b }

  lemma SubtractIsKeyOrder()
    ensures KeyOrder(Subtract) && forall a, b :: Subtract(a, b) < 0 <==> a < b
    ensures forall a, b :: 0 <= a <= INT_MAX && 0 <= b <= INT_MAX ==> -INT_MAX - 1 <= Subtract(a, b) <= INT_MAX
  {}

  /** The same on keys that are natural numbers. */
  function ByNumber(a: nat, b: nat): int { Subtract(a, b) }

  lemma ByNumberIsKeyOrder()
    ensures KeyOrder(ByNumber) && forall a, b :: ByNumber(a, b) < 0 <==> a < b
  {}

  /** `strcmp` on NUL-terminated strings, whose end compares below every byte. */
  function StrCmp(a: string, b: string): int {
    if a == "" then (if b == "" then 0 else -1)
    else if b == "" then 1
    else if a[0] != b[0] then a[0] as int - b[0] as int
    else StrCmp(a[1..], b[1..])
  }

  lemma {:induction false} StrCmpAntisymmetric(a: string, b: string)
    ensures StrCmp(a, b) < 0 <==> StrCmp(b, a) > 0
    decreases |a|
  {
    if a != "" && b != "" && a[0] == b[0] {
      StrCmpAntisymmetric(a[1..], b[1..]);
    }
  }

  lemma {:induction false} StrCmpTransitive(a: string, b: string, c: string)
    ensures StrCmp(a, b) <= 0 && StrCmp(b, c) <= 0 ==> StrCmp(a, c) <= 0
    decreases |a|
  {
    if a != "" && b != "" && c != "" && a[0] == b[0] == c[0] {
      StrCmpTransitive(a[1..], b[1..], c[1..]);
    }
  }

  /** Names compare equal only if they are the same name. */
  lemma {:induction false} StrCmpZero(a: string, b: string)
    ensures StrCmp(a, b) == 0 <==> a == b
    decreases |a|
  {
    if a != "" && b != "" && a[0] == b[0] {
      StrCmpZero(a[1..], b[1..]);
      assert a == [a[0]] + a[1..] && b == [b[0]] + b[1..];
    }
  }

  /** The first `k` bytes are the same, and then one of the strings ends or they differ: the one that
      ends, or has the lesser byte there, is the lesser. */
  lemma {:induction false} StrCmpIsLexicographic(a: string, b: string, k: nat)
    requires k <= |a| && k <= |b| && a[..k] == b[..k] && (k < |a| && k < |b| ==> a[k] != b[k])
    ensures StrCmp(a, b) < 0 <==> k < |b| && (k == |a| || a[k] < b[k])
    decreases k
  {
    if k > 0 {
      assert a[0] == a[..k][0] == b[..k][0] == b[0];
      assert a[1..][..k - 1] == a[..k][1..] && b[1..][..k - 1] == b[..k][1..];
      StrCmpIsLexicographic(a[1..], b[1..], k - 1);
    }
  }

  lemma StrCmpIsKeyOrder()
    ensures KeyOrder(StrCmp)
  {
    forall a, b ensures StrCmp(a, b) < 0 <==> StrCmp(b, a) > 0 {
      StrCmpAntisymmetric(a, b);
    }
    forall a, b, c | StrCmp(a, b) <= 0 && StrCmp(b, c) <= 0 ensures StrCmp(a, c) <= 0 {
      StrCmpTransitive(a, b, c);
    }
    forall a, b | StrCmp(a, b) == 0 ensures a == b {
      StrCmpZero(a, b);
    }
  }
}
