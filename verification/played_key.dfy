/**
 * The identity key of a group of players: its member ids sorted ascending
 * (`generateMatchPool` sorts the id strings and joins them with "-"). A match that was
 * already played in the session has its key in the session's played set.
 */
module PlayedKey {
  import opened Common

  ghost predicate Sorted(s: seq<Id>)
  {
    forall i, j :: 0 <= i < j < |s| ==> s[i] <= s[j]
  }

  function Insert(x: Id, s: seq<Id>): (r: seq<Id>)
    requires Sorted(s)
    ensures Sorted(r)
    ensures multiset(r) == multiset(s) + multiset{x}
  {
    if s == [] then [x]
    else if x <= s[0] then [x] + s
    else
      SortedTail(s);
      var t := Insert(x, s[1..]);
      assert s == [s[0]] + s[1..];
      BoundedByElements(s[0], t, s[1..], x);
      SortedCons(s[0], t);
      [s[0]] + t
  }

  /** A lower bound of x and of every element of t bounds every element of a permutation of t + [x]. */
  lemma BoundedByElements(low: Id, r: seq<Id>, t: seq<Id>, x: Id)
    requires multiset(r) == multiset(t) + multiset{x}
    requires low <= x && forall i :: 0 <= i < |t| ==> low <= t[i]
    ensures forall i :: 0 <= i < |r| ==> low <= r[i]
  {
    forall i | 0 <= i < |r| ensures low <= r[i] {
      assert r[i] in multiset(r);
      if r[i] != x {
        assert r[i] in multiset(t);
        var k :| 0 <= k < |t| && t[k] == r[i];
      }
    }
  }

  /** The ids in ascending order (the `sort()` on the id list in `generateMatchPool`). */
  function Key(ids: seq<Id>): (r: seq<Id>)
    ensures Sorted(r)
    ensures multiset(r) == multiset(ids)
  {
    if ids == [] then []
    else
      assert ids == [ids[0]] + ids[1..];
      Insert(ids[0], Key(ids[1..]))
  }

  /** The first element of a non-empty sorted sequence is at most any element of it. */
  lemma FirstIsLeast(a: seq<Id>, x: Id)
    requires Sorted(a) && x in multiset(a)
    ensures a != [] && a[0] <= x
  {
    var k :| 0 <= k < |a| && a[k] == x;
    if k > 0 {
      assert a[0] <= a[k];
    }
  }

  /** A sorted sequence stays sorted behind a lower bound of all its elements. */
  lemma SortedCons(x: Id, t: seq<Id>)
    requires Sorted(t) && forall i :: 0 <= i < |t| ==> x <= t[i]
    ensures Sorted([x] + t)
  {
    forall i, j | 0 <= i < j < |t| + 1 ensures ([x] + t)[i] <= ([x] + t)[j] {
      assert ([x] + t)[j] == t[j - 1];
      if i > 0 {
        assert ([x] + t)[i] == t[i - 1];
      }
    }
  }

  /** The tail of a sorted sequence is sorted. */
  lemma SortedTail(a: seq<Id>)
    requires Sorted(a) && a != []
    ensures Sorted(a[1..])
  {
    forall i, j | 0 <= i < j < |a| - 1 ensures a[1..][i] <= a[1..][j] {
      assert a[1..][i] == a[i + 1] && a[1..][j] == a[j + 1];
    }
  }

  /** Dropping the same first element from two sequences with the same elements leaves the same elements. */
  lemma SameTails(a: seq<Id>, b: seq<Id>)
    requires a != [] && b != [] && a[0] == b[0] && multiset(a) == multiset(b)
    ensures multiset(a[1..]) == multiset(b[1..])
  {
    assert a == [a[0]] + a[1..];
    assert b == [b[0]] + b[1..];
    calc {
      multiset(a[1..]);
      multiset(a) - multiset{a[0]};
      multiset(b) - multiset{b[0]};
      multiset(b[1..]);
    }
  }

  /** Two sorted sequences with the same elements are equal. */
  lemma {:induction false} SortedUnique(a: seq<Id>, b: seq<Id>)
    requires Sorted(a) && Sorted(b)
    requires multiset(a) == multiset(b)
    ensures a == b
    decreases |a|
  {
    assert |a| == |multiset(a)| == |multiset(b)| == |b|;
    if a != [] {
      assert a[0] in multiset(a);
      assert b[0] in multiset(b);
      FirstIsLeast(b, a[0]);
      FirstIsLeast(a, b[0]);
      SameTails(a, b);
      SortedTail(a);
      SortedTail(b);
      SortedUnique(a[1..], b[1..]);
      assert a == [a[0]] + a[1..];
      assert b == [b[0]] + b[1..];
    }
  }

  /**
   * Two groups have the same key exactly when they hold the same member ids
   * (counted with repetition), whatever the order of the group.
   */
  lemma KeyIdentifiesMembers(a: seq<Id>, b: seq<Id>)
    ensures Key(a) == Key(b) <==> multiset(a) == multiset(b)
  {
    if multiset(a) == multiset(b) {
      SortedUnique(Key(a), Key(b));
    }
  }
}
