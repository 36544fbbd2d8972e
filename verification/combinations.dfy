/**
 * Enumeration of the 4-element groups of the candidate scope. `generateMatchPool`
 * builds them with four nested index loops i < j < k < l; `Choose` is the
 * reference definition (the r-element sub-sequences in lexicographic order of
 * their index tuples) that the loops are proved to produce.
 */
module Combinations {
  import opened Common
  import opened Rows

  /** Binomial coefficient by Pascal's rule. */
  function Binom(n: nat, r: nat): nat
  {
    if r == 0 then 1
    else if n == 0 then 0
    else Binom(n - 1, r - 1) + Binom(n - 1, r)
  }

  /**
   * The groups that extend the partial group `p` by r more elements of s[m..],
   * in lexicographic order of their index tuples: those that pick s[m] first,
   * then those that skip it.
   */
  function Extend<T>(s: seq<T>, p: seq<T>, m: nat, r: nat): seq<seq<T>>
    decreases |s| - m, r
  {
    if r == 0 then [p]
    else if m >= |s| then []
    else Extend(s, p + [s[m]], m + 1, r - 1) + Extend(s, p, m + 1, r)
  }

  /** The r-element sub-sequences of `s`, in lexicographic order of their index tuples. */
  function Choose<T>(s: seq<T>, r: nat): seq<seq<T>>
  {
    Extend(s, [], 0, r)
  }

  /**
   * The loop state: the groups emitted so far, then those the current loop
   * level still has to emit, then those of the enclosing levels, make up `total`.
   */
  ghost predicate Pending<T>(acc: seq<seq<T>>, s: seq<T>, p: seq<T>, m: nat, r: nat, rest: seq<seq<T>>, total: seq<seq<T>>)
  {
    acc + Extend(s, p, m, r) + rest == total
  }

  /** Entering a loop level: the groups still to come from position m split into those picking s[m] and the rest. */
  lemma EnterLevel<T>(acc: seq<seq<T>>, s: seq<T>, p: seq<T>, m: nat, r: nat, rest: seq<seq<T>>, total: seq<seq<T>>)
    requires m < |s| && Pending(acc, s, p, m, r + 1, rest, total)
    ensures Pending(acc, s, p + [s[m]], m + 1, r, Extend(s, p, m + 1, r + 1) + rest, total)
  {
  }

  /** Leaving a loop level: the inner level produced everything it had to. */
  lemma LeaveLevel<T>(acc: seq<seq<T>>, s: seq<T>, q: seq<T>, p: seq<T>, m: nat, r: nat, rest: seq<seq<T>>, total: seq<seq<T>>)
    requires Pending(acc, s, q, |s|, r + 1, Extend(s, p, m, r + 2) + rest, total)
    ensures Pending(acc, s, p, m, r + 2, rest, total)
  {
    assert acc + [] == acc;
  }

  /** A whole inner level appended to `acc` at once. */
  lemma Absorb<T>(acc: seq<seq<T>>, acc': seq<seq<T>>, s: seq<T>, p: seq<T>, m: nat, r: nat,
                  q: seq<T>, m': nat, r': nat, rest: seq<seq<T>>, total: seq<seq<T>>)
    requires Pending(acc, s, p, m, r, Extend(s, q, m', r') + rest, total)
    requires acc' == acc + Extend(s, p, m, r)
    ensures Pending(acc', s, q, m', r', rest, total)
  {
    assert acc' + Extend(s, q, m', r') + rest == acc + Extend(s, p, m, r) + (Extend(s, q, m', r') + rest);
  }

  lemma EmitFourth<T>(acc: seq<seq<T>>, s: seq<T>, i: nat, j: nat, k: nat, l: nat, rest: seq<seq<T>>, total: seq<seq<T>>)
    requires i < j < k < l < |s|
    requires Pending(acc, s, [s[i], s[j], s[k]], l, 1, rest, total)
    ensures Pending(acc + [[s[i], s[j], s[k], s[l]]], s, [s[i], s[j], s[k]], l + 1, 1, rest, total)
  {
    var p, g := [s[i], s[j], s[k]], [s[i], s[j], s[k], s[l]];
    assert p + [s[l]] == g;
    assert Extend(s, p, l, 1) == [g] + Extend(s, p, l + 1, 1);
    assert acc + [g] + Extend(s, p, l + 1, 1) + rest == acc + Extend(s, p, l, 1) + rest;
  }

  /** Nothing is left to emit once every position has been passed. */
  lemma Finished<T>(acc: seq<seq<T>>, s: seq<T>, p: seq<T>, r: nat, total: seq<seq<T>>)
    requires r > 0 && Pending(acc, s, p, |s|, r, [], total)
    ensures acc == total
  {
    assert acc + [] + [] == acc;
  }

  /** Nothing is emitted yet. */
  lemma Started<T>(acc: seq<seq<T>>, s: seq<T>, p: seq<T>, m: nat, r: nat)
    ensures Pending(acc, s, p, m, r, [], acc + Extend(s, p, m, r))
  {
    assert acc + Extend(s, p, m, r) + [] == acc + Extend(s, p, m, r);
  }

  /**
   * The two inner loops of `generateMatchPool`'s enumeration (over k and l) for fixed i < j: appends
   * to `acc` every group [s[i], s[j], s[k], s[l]] with j < k < l, in order.
   */
  method AppendQuadruplesAt<T>(scope: seq<T>, i: nat, j: nat, acc: seq<seq<T>>) returns (combos: seq<seq<T>>)
    requires i < j < |scope|
    ensures combos == acc + Extend(scope, [scope[i], scope[j]], j + 1, 2)
  {
    var n := |scope|;
    ghost var pair := [scope[i], scope[j]];
    ghost var total := acc + Extend(scope, pair, j + 1, 2);
    Started(acc, scope, pair, j + 1, 2);
    combos := acc;
    var k := j + 1;
    while k < n
      invariant j + 1 <= k <= n
      invariant Pending(combos, scope, pair, k, 2, [], total)
    {
      EnterLevel(combos, scope, pair, k, 1, [], total);
      assert pair + [scope[k]] == [scope[i], scope[j], scope[k]];
      ghost var rest := Extend(scope, pair, k + 1, 2) + [];
      var l := k + 1;
      while l < n
        invariant k + 1 <= l <= n
        invariant Pending(combos, scope, [scope[i], scope[j], scope[k]], l, 1, rest, total)
      {
        EmitFourth(combos, scope, i, j, k, l, rest, total);
        combos := combos + [[scope[i], scope[j], scope[k], scope[l]]];
        l := l + 1;
      }
      LeaveLevel(combos, scope, [scope[i], scope[j], scope[k]], pair, k + 1, 0, [], total);
      k := k + 1;
    }
    Finished(combos, scope, pair, 2, total);
  }

  /**
   * The loop over j of `generateMatchPool`'s enumeration for a fixed i, with the two inner loops:
   * appends to `acc` every group [s[i], s[j], s[k], s[l]] with i < j < k < l, in order.
   */
  method AppendQuadruplesFrom<T>(scope: seq<T>, i: nat, acc: seq<seq<T>>) returns (combos: seq<seq<T>>)
    requires i < |scope|
    ensures combos == acc + Extend(scope, [scope[i]], i + 1, 3)
  {
    var n := |scope|;
    ghost var single := [scope[i]];
    ghost var total := acc + Extend(scope, single, i + 1, 3);
    Started(acc, scope, single, i + 1, 3);
    combos := acc;
    var j := i + 1;
    while j < n
      invariant i + 1 <= j <= n
      invariant Pending(combos, scope, single, j, 3, [], total)
    {
      EnterLevel(combos, scope, single, j, 2, [], total);
      assert single + [scope[j]] == [scope[i], scope[j]];
      var next := AppendQuadruplesAt(scope, i, j, combos);
      Absorb(combos, next, scope, [scope[i], scope[j]], j + 1, 2, single, j + 1, 3, [], total);
      combos := next;
      j := j + 1;
    }
    Finished(combos, scope, single, 3, total);
  }

  /**
   * The four nested loops of `generateMatchPool`: every index quadruple i < j < k < l
   * of the scope, in lexicographic order, as the group of its elements. The
   * three inner loops are in AppendQuadruplesFrom and AppendQuadruplesAt.
   */
  method AllQuadruples<T>(scope: seq<T>) returns (combos: seq<seq<T>>)
    ensures combos == Choose(scope, 4)
  {
    var n := |scope|;
    ghost var total := [] + Extend(scope, [], 0, 4);
    Started([], scope, [], 0, 4);
    combos := [];
    var i := 0;
    while i < n
      invariant 0 <= i <= n
      invariant Pending(combos, scope, [], i, 4, [], total)
    {
      EnterLevel(combos, scope, [], i, 3, [], total);
      assert [] + [scope[i]] == [scope[i]];
      var next := AppendQuadruplesFrom(scope, i, combos);
      Absorb(combos, next, scope, [scope[i]], i + 1, 3, [], i + 1, 4, [], total);
      combos := next;
      i := i + 1;
    }
    Finished(combos, scope, [], 4, total);
    assert [] + Extend(scope, [], 0, 4) == Choose(scope, 4);
  }

  lemma Pascal(n: nat, r: nat)
    requires n > 0 && r > 0
    ensures Binom(n, r) == Binom(n - 1, r - 1) + Binom(n - 1, r)
  {
  }

  /** There are C(|s| - m, r) ways to extend a partial group by r elements of s[m..]. */
  lemma {:induction false} ExtendCount<T>(s: seq<T>, p: seq<T>, m: nat, r: nat)
    requires m <= |s|
    ensures |Extend(s, p, m, r)| == Binom(|s| - m, r)
    decreases |s| - m, r
  {
    if r == 0 || m == |s| {
    } else {
      ExtendCount(s, p + [s[m]], m + 1, r - 1);
      ExtendCount(s, p, m + 1, r);
      assert Extend(s, p, m, r) == Extend(s, p + [s[m]], m + 1, r - 1) + Extend(s, p, m + 1, r);
      assert |s| - (m + 1) == (|s| - m) - 1;
      Pascal(|s| - m, r);
    }
  }

  /** Every extension of p by r elements has exactly |p| + r elements, and starts with p. */
  lemma {:induction false} ExtendShape<T>(s: seq<T>, p: seq<T>, m: nat, r: nat)
    ensures forall c :: c in Extend(s, p, m, r) ==> |c| == |p| + r && c[..|p|] == p
    decreases |s| - m, r
  {
    if r == 0 || m >= |s| {
    } else {
      ExtendShape(s, p + [s[m]], m + 1, r - 1);
      ExtendShape(s, p, m + 1, r);
      forall c | c in Extend(s, p + [s[m]], m + 1, r - 1)
        ensures c[..|p|] == p
      {
        assert c[..|p|] == c[..|p| + 1][..|p|];
      }
    }
  }

  /** The number of groups of the scope is C(n, 4), and each has 4 members. */
  lemma {:induction false} QuadrupleCount<T>(scope: seq<T>)
    ensures |Choose(scope, 4)| == Binom(|scope|, 4)
    ensures forall c :: c in Choose(scope, 4) ==> |c| == 4
  {
    ExtendCount(scope, [], 0, 4);
    ExtendShape(scope, [], 0, 4);
  }

  /** C(n, 4) for the scope sizes that pass the guards: 1, 5, 15, 35, 70. */
  lemma {:induction false} SmallBinomials()
    ensures Binom(4, 4) == 1 && Binom(5, 4) == 5 && Binom(6, 4) == 15
    ensures Binom(7, 4) == 35 && Binom(8, 4) == 70
  {
    // row by row of Pascal's triangle, as far as column 4
    assert Binom(1, 1) == 1;
    assert Binom(1, 2) == 0;
    assert Binom(1, 3) == 0;
    assert Binom(1, 4) == 0;
    assert Binom(2, 1) == 2;
    assert Binom(2, 2) == 1;
    assert Binom(2, 3) == 0;
    assert Binom(2, 4) == 0;
    assert Binom(3, 1) == 3;
    assert Binom(3, 2) == 3;
    assert Binom(3, 3) == 1;
    assert Binom(3, 4) == 0;
    assert Binom(4, 1) == 4;
    assert Binom(4, 2) == 6;
    assert Binom(4, 3) == 4;
    assert Binom(4, 4) == 1;
    assert Binom(5, 1) == 5;
    assert Binom(5, 2) == 10;
    assert Binom(5, 3) == 10;
    assert Binom(5, 4) == 5;
    assert Binom(6, 1) == 6;
    assert Binom(6, 2) == 15;
    assert Binom(6, 3) == 20;
    assert Binom(6, 4) == 15;
    assert Binom(7, 1) == 7;
    assert Binom(7, 2) == 21;
    assert Binom(7, 3) == 35;
    assert Binom(7, 4) == 35;
    assert Binom(8, 4) == 70;
  }

  /** A scope of 4 to 8 candidates has between 1 and 70 groups. */
  lemma ScopeQuadrupleBounds<T>(scope: seq<T>)
    requires 4 <= |scope| <= 8
    ensures 1 <= |Choose(scope, 4)| <= 70
  {
    QuadrupleCount(scope);
    SmallBinomials();
    var n := |scope|;
    assert n == 4 || n == 5 || n == 6 || n == 7 || n == 8;
  }

  /**
   * Every extension of an ordered partial group by elements of s[m..] keeps
   * the order of s, and takes its elements from the partial group and s[m..].
   */
  lemma {:induction false} ExtendKeepsOrder<T>(s: seq<T>, idOf: T -> Id, p: seq<T>, m: nat, r: nat)
    requires IncreasingIds(s, idOf) && IncreasingIds(p, idOf)
    requires forall i, j :: 0 <= i < |p| && m <= j < |s| ==> idOf(p[i]) < idOf(s[j])
    ensures forall c :: c in Extend(s, p, m, r) ==> IncreasingIds(c, idOf) && forall x :: x in c ==> x in p || x in s[m..]
    decreases |s| - m, r
  {
    if r != 0 && m < |s| {
      var q := p + [s[m]];
      ExtendKeepsOrder(s, idOf, q, m + 1, r - 1);
      ExtendKeepsOrder(s, idOf, p, m + 1, r);
      forall x | x in q || x in s[m + 1..] ensures x in p || x in s[m..] {
        if x in s[m + 1..] {
          var k :| 0 <= k < |s[m + 1..]| && s[m + 1..][k] == x;
          assert s[m..][k + 1] == x;
        } else if x !in p {
          assert s[m..][0] == x;
        }
      }
    }
  }

  /** A group of an ordered sequence lists its elements in the sequence's order, and only elements of it. */
  lemma ChooseKeepsOrder<T>(s: seq<T>, idOf: T -> Id, r: nat)
    requires IncreasingIds(s, idOf)
    ensures forall c :: c in Choose(s, r) ==> IncreasingIds(c, idOf) && forall x :: x in c ==> x in s
  {
    ExtendKeepsOrder(s, idOf, [], 0, r);
    assert s[0..] == s;
  }
}
