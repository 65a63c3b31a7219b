/** Permutations of subsystem slots, 1-based as `permute_systems` takes them:
    `perm[i] == j` says that output slot `i + 1` is filled by input subsystem `j`. */
module Perms {

  /** Python's `list(range(lo, hi))`: the integers `lo, lo + 1, ..., hi - 1`. */
  function Range(lo: int, hi: int): (r: seq<int>)
    ensures |r| == if lo <= hi then hi - lo else 0
    ensures forall i :: 0 <= i < |r| ==> r[i] == lo + i
    decreases hi - lo
  {
    if hi <= lo then [] else [lo] + Range(lo + 1, hi)
  }

  /** Python's `s[::-1]`: element `i` of the result is element `|s| - 1 - i` of `s`. */
  function Reverse<T>(s: seq<T>): (r: seq<T>)
    ensures |r| == |s|
    ensures forall i :: 0 <= i < |s| ==> r[i] == s[|s| - 1 - i]
  {
    if s == [] then [] else Reverse(s[1..]) + [s[0]]
  }

  /** Reversing twice gives back the original sequence. */
  lemma {:induction false} ReverseReverse<T>(s: seq<T>)
    ensures Reverse(Reverse(s)) == s
  {
    var r := Reverse(Reverse(s));
    assert forall i :: 0 <= i < |s| ==> r[i] == Reverse(s)[|s| - 1 - i] == s[i];
  }

  /** `p` is a bijection from the slots `1..n` onto the subsystems `1..n`. */
  predicate IsPermutation(p: seq<int>, n: nat)
  {
    && |p| == n
    && (forall i :: 0 <= i < n ==> 1 <= p[i] <= n)
    && (forall i, j :: 0 <= i < j < n ==> p[i] != p[j])
  }

  /** Applying `p` twice puts every subsystem back in its own slot. */
  predicate IsInvolution(p: seq<int>, n: nat)
    requires IsPermutation(p, n)
  {
    forall i :: 0 <= i < n ==> p[p[i] - 1] == i + 1
  }

  /** Subsystem `v` is placed in some slot of `p`. */
  predicate Occurs(p: seq<int>, v: int)
  {
    exists i :: 0 <= i < |p| && p[i] == v
  }

  /** Every subsystem `1..n` is placed in some slot of `p`. */
  predicate IsOnto(p: seq<int>, n: nat)
  {
    forall v :: 1 <= v <= n ==> Occurs(p, v)
  }

  /** The permutation `swap` builds, `list(range(1, n + 1))[::-1]`, lists the
      subsystems from `n` down to `1`; it is a bijection onto `1..n` and undoes
      itself. */
  lemma DescendingIsPermutation(n: nat)
    ensures var p := Reverse(Range(1, n + 1));
      && |p| == n
      && (forall i :: 0 <= i < n ==> p[i] == n - i)
      && IsPermutation(p, n)
      && IsOnto(p, n)
      && IsInvolution(p, n)
  {
    var p := Reverse(Range(1, n + 1));
    assert forall i :: 0 <= i < n ==> p[i] == Range(1, n + 1)[n - 1 - i] == n - i;
    forall v | 1 <= v <= n
      ensures Occurs(p, v)
    {
      assert p[n - v] == v;
    }
  }

  /** For two subsystems the descending permutation exchanges them. */
  lemma DescendingOfTwo()
    ensures Reverse(Range(1, 3)) == [2, 1]
  {
    DescendingIsPermutation(2);
  }

  /** The identity on `1..n` with the entries at slots `a` and `b` exchanged:
      the permutation that swaps subsystems `a` and `b` and fixes the rest. */
  function Transposition(n: nat, a: int, b: int): (p: seq<int>)
  {
    seq(n, i => if i + 1 == a then b else if i + 1 == b then a else i + 1)
  }

  /** A transposition of two slots in range is a bijection that exchanges
      exactly those two slots and undoes itself. */
  lemma TranspositionIsPermutation(n: nat, a: int, b: int)
    requires 1 <= a <= n && 1 <= b <= n
    ensures var p := Transposition(n, a, b);
      && IsPermutation(p, n)
      && p[a - 1] == b && p[b - 1] == a
      && (forall i :: 0 <= i < n && i + 1 != a && i + 1 != b ==> p[i] == i + 1)
      && IsOnto(p, n)
      && IsInvolution(p, n)
  {
    var p := Transposition(n, a, b);
    forall v | 1 <= v <= n
      ensures Occurs(p, v)
    {
      var i := if v == a then b - 1 else if v == b then a - 1 else v - 1;
      assert p[i] == v;
    }
  }
}
