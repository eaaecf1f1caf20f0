/** Small facts about numbers, sets and sequences that several components share. */
module Basics {

  datatype Option<+T> = None | Some(value: T)

  /** s without the element at k. */
  function Without<T>(s: seq<T>, k: nat): (r: seq<T>)
    requires k < |s|
    ensures |r| == |s| - 1
    ensures forall i {:trigger r[i]} :: 0 <= i < |r| ==> r[i] == if i < k then s[i] else s[i + 1]
  {
    s[..k] + s[k + 1..]
  }

  function Pow2(k: nat): (p: nat)
    ensures p > k
  {
    if k == 0 then 1 else 2 * Pow2(k - 1)
  }

  lemma {:induction false} Pow2Monotone(j: nat, k: nat)
    requires j <= k
    ensures Pow2(j) <= Pow2(k)
    decreases k
  {
    if j < k {
      Pow2Monotone(j, k - 1);
    }
  }

  lemma MulGrows(m: nat, a: nat, b: nat)
    requires a <= b
    ensures m * a <= m * b
  {
    assert m * b == m * a + m * (b - a);
  }

  /** Quotient and remainder are determined by the division equation. */
  lemma ModIs(k: nat, m: nat, q: nat, r: nat)
    requires m > 0 && k == m * q + r && r < m
    ensures k % m == r && k / m == q
  {
    var e, s := k / m, k % m;
    assert k == m * e + s && s < m;
    if e < q {
      MulGrows(m, e + 1, q);
    } else if q < e {
      MulGrows(m, q + 1, e);
    }
  }

  lemma Divide(k: nat, m: nat) returns (q: nat, r: nat)
    requires m > 0
    ensures k == m * q + r && r < m && k % m == r
  {
    q, r := k / m, k % m;
  }

  /** Adding less than a whole turn to a remainder. */
  lemma AddMod(k: nat, d: nat, m: nat)
    requires d <= m && m > 0
    ensures (k + d) % m == if k % m + d < m then k % m + d else k % m + d - m
  {
    var q, r := Divide(k, m);
    if r + d < m {
      ModIs(k + d, m, q, r + d);
    } else {
      NextTurn(m, q);
      ModIs(k + d, m, q + 1, r + d - m);
    }
  }

  lemma NextTurn(m: nat, q: nat)
    ensures m * (q + 1) == m * q + m
  {
  }

  /** The numbers below n. */
  function Range(n: nat): (s: set<nat>)
    ensures |s| == n
    ensures forall i: nat :: i in s <==> i < n
  {
    if n == 0 then {} else Range(n - 1) + {n - 1}
  }

  lemma SubsetSize<T>(s: set<T>, t: set<T>)
    requires s <= t
    ensures |s| <= |t| && (|s| == |t| ==> s == t)
  {
    assert t == s + (t - s);
  }
}
