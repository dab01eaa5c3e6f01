/** The order in which timers are kept: by expiry, ties by the order in which they were added. */
module TimerOrder {
  import opened RbShape
  import opened RbEraseShape

  /** `x` comes before `y`. */
  ghost predicate Precedes<T>(x: T, y: T, expiry: map<T, int>, stamp: map<T, nat>) {
    && x in expiry && y in expiry && x in stamp && y in stamp
    && (expiry[x] < expiry[y] || (expiry[x] == expiry[y] && stamp[x] < stamp[y]))
  }

  /** `q` is in order, apart from the elements in `skip`. */
  ghost predicate OrderedBut<T>(q: seq<T>, skip: set<T>, expiry: map<T, int>, stamp: map<T, nat>) {
    && (forall i :: 0 <= i < |q| ==> q[i] in expiry && q[i] in stamp)
    && (forall i, j :: 0 <= i < j < |q| && q[i] !in skip && q[j] !in skip ==> Precedes(q[i], q[j], expiry, stamp))
  }

  ghost predicate Ordered<T>(q: seq<T>, expiry: map<T, int>, stamp: map<T, nat>) {
    OrderedBut(q, {}, expiry, stamp)
  }

  /** Everything before index `k` expires no later than `at`, everything from there on later. */
  ghost predicate IsSlot<T>(q: seq<T>, k: int, at: int, expiry: map<T, int>) {
    && 0 <= k <= |q|
    && (forall i :: 0 <= i < k ==> q[i] in expiry && expiry[q[i]] <= at)
    && (forall i :: k <= i < |q| ==> q[i] in expiry && at < expiry[q[i]])
  }

  /** `q'` is `q` with `t` put behind everything that expires no later and before everything else. */
  ghost predicate InsertedByExpiry<T>(q: seq<T>, t: T, q': seq<T>, expiry: map<T, int>) {
    t in expiry && exists k :: IsSlot(q, k, expiry[t], expiry) && q' == q[..k] + [t] + q[k..]
  }

  /** Adding as the newest behind all ties keeps the order. */
  lemma InsertKeepsOrder<T>(q: seq<T>, t: T, q': seq<T>, expiry: map<T, int>, stamp: map<T, nat>, now: nat)
    requires Ordered(q, expiry, stamp) && InsertedByExpiry(q, t, q', expiry) && t !in q
    requires forall x :: x in q ==> stamp[x] < now
    ensures Ordered(q', expiry, stamp[t := now])
  {
    var k :| IsSlot(q, k, expiry[t], expiry) && q' == q[..k] + [t] + q[k..];
    forall i | 0 <= i < |q'| ensures q'[i] == if i < k then q[i] else if i == k then t else q[i - 1] {
    }
    forall i, j | 0 <= i < j < |q'| ensures Precedes(q'[i], q'[j], expiry, stamp[t := now]) {
      var i', j' := if i < k then i else i - 1, if j < k then j else j - 1;
      if i != k && j != k {
        assert Precedes(q[i'], q[j'], expiry, stamp);
        assert q[i'] in q && q[j'] in q;
      } else if j == k {
        assert q[i'] in q;
      }
    }
  }

  lemma RemoveKeepsOrder<T>(q: seq<T>, t: T, q': seq<T>, expiry: map<T, int>, stamp: map<T, nat>)
    requires Removed(q, t, q') && OrderedBut(q, {t}, expiry, stamp) && NoDup(q)
    ensures Ordered(q', expiry, stamp) && t !in q' && NoDup(q')
  {
    var k :| 0 <= k < |q| && q[k] == t && q' == q[..k] + q[k + 1..];
    forall i | 0 <= i < |q'| ensures q'[i] == q[if i < k then i else i + 1] && q'[i] != t {
    }
    forall i, j | 0 <= i < j < |q'| ensures Precedes(q'[i], q'[j], expiry, stamp) {
      var i', j' := if i < k then i else i + 1, if j < k then j else j + 1;
      assert Precedes(q[i'], q[j'], expiry, stamp);
    }
  }

  lemma SkipAbsent<T>(q: seq<T>, t: T, expiry: map<T, int>, stamp: map<T, nat>)
    requires OrderedBut(q, {t}, expiry, stamp) && t !in q
    ensures Ordered(q, expiry, stamp)
  {
  }

  // ---------------------------------------------------------------- the eviction list

  /** `llist_del_init`: the list without the entry `x`. */
  function Without<T(==)>(s: seq<T>, x: T): (r: seq<T>)
    ensures forall y <- r :: y in s && y != x
    ensures forall y <- s :: y != x ==> y in r
    ensures x !in s ==> r == s
    ensures x in s ==> |r| < |s|
  {
    if s == [] then []
    else if s[0] == x then Without(s[1..], x)
    else [s[0]] + Without(s[1..], x)
  }

  lemma {:induction false} WithoutNoDup<T>(s: seq<T>, x: T)
    requires NoDup(s)
    ensures NoDup(Without(s, x))
  {
    if s != [] {
      var r := Without(s[1..], x);
      WithoutNoDup(s[1..], x);
      forall i | 0 <= i < |r| ensures r[i] != s[0] {
        assert r[i] in s[1..];
      }
    }
  }

  /** What a list looks like after its elements were put to the head one by one. */
  ghost function Reversed<T>(s: seq<T>): (r: seq<T>)
    ensures |r| == |s|
  {
    if s == [] then [] else [s[|s| - 1]] + Reversed(s[..|s| - 1])
  }

  lemma ReversedNext<T>(s: seq<T>, k: nat)
    requires k < |s|
    ensures Reversed(s[..k + 1]) == [s[k]] + Reversed(s[..k])
  {
    assert s[..k + 1][..k] == s[..k];
  }

  lemma {:induction false} ReversedFacts<T>(s: seq<T>)
    ensures forall i :: 0 <= i < |s| ==> Reversed(s)[i] == s[|s| - 1 - i]
    ensures NoDup(s) ==> NoDup(Reversed(s))
    ensures forall x <- Reversed(s) :: x in s
  {
    if s != [] {
      var p := s[..|s| - 1];
      ReversedFacts(p);
      forall i | 0 <= i < |s| ensures Reversed(s)[i] == s[|s| - 1 - i] {
        if i > 0 { assert Reversed(s)[i] == Reversed(p)[i - 1]; }
      }
    }
  }

  /** In an ordered queue everything behind a timer that is not due is not due either. */
  lemma LaterStillLater<T>(q: seq<T>, k: int, now: int, expiry: map<T, int>, stamp: map<T, nat>)
    requires Ordered(q, expiry, stamp) && 0 <= k <= |q|
    requires forall i :: 0 <= i < k ==> expiry[q[i]] <= now
    requires k < |q| ==> now < expiry[q[k]]
    ensures IsSlot(q, k, now, expiry)
  {
    forall i | k <= i < |q| ensures now < expiry[q[i]] {
      if i > k { assert Precedes(q[k], q[i], expiry, stamp); }
    }
  }

  /** The first `k` timers are due, and `list` has them, the last one first. */
  ghost predicate DueSoFar<T>(q: seq<T>, k: nat, list: seq<T>, now: int, expiry: map<T, int>) {
    && k <= |q| && list == Reversed(q[..k])
    && (forall i :: 0 <= i < k ==> q[i] in expiry && expiry[q[i]] <= now)
  }

  lemma OneMoreDue<T>(q: seq<T>, k: nat, list: seq<T>, now: int, expiry: map<T, int>)
    requires DueSoFar(q, k, list, now, expiry) && k < |q| && q[k] in expiry && expiry[q[k]] <= now
    ensures DueSoFar(q, k + 1, [q[k]] + list, now, expiry)
  {
    ReversedNext(q, k);
  }

  /** `list` has exactly the timers that are due, in reverse firing order. */
  ghost predicate DueList<T>(q: seq<T>, list: seq<T>, now: int, expiry: map<T, int>) {
    exists k :: IsSlot(q, k, now, expiry) && list == Reversed(q[..k])
  }

  lemma DueListFacts<T>(q: seq<T>, list: seq<T>, now: int, expiry: map<T, int>)
    requires DueList(q, list, now, expiry) && NoDup(q)
    ensures NoDup(list) && forall x <- list :: x in q
  {
    var k :| IsSlot(q, k, now, expiry) && list == Reversed(q[..k]);
    ReversedFacts(q[..k]);
  }

  // ---------------------------------------------------------------- searching down the tree

  /** Everything before the position expires no later than `at`, everything after it later. */
  ghost predicate Surrounds<T>(c: Ctx<T>, at: int, expiry: map<T, int>) {
    && (forall i :: 0 <= i < |Before(c)| ==> Before(c)[i] in expiry && expiry[Before(c)[i]] <= at)
    && (forall i :: 0 <= i < |After(c)| ==> After(c)[i] in expiry && at < expiry[After(c)[i]])
  }

  lemma SortedAround<T>(q: seq<T>, b: seq<T>, x: T, a: seq<T>, expiry: map<T, int>, stamp: map<T, nat>)
    requires q == b + [x] + a && Ordered(q, expiry, stamp)
    ensures x in expiry
    ensures forall i :: 0 <= i < |b| ==> b[i] in expiry && expiry[b[i]] <= expiry[x]
    ensures forall i :: 0 <= i < |a| ==> a[i] in expiry && expiry[x] <= expiry[a[i]]
  {
    var k := |b|;
    assert q[k] == x;
    forall i | 0 <= i < k ensures b[i] in expiry && expiry[b[i]] <= expiry[x] {
      assert q[i] == b[i] && Precedes(q[i], q[k], expiry, stamp);
    }
    forall i | 0 <= i < |a| ensures a[i] in expiry && expiry[x] <= expiry[a[i]] {
      assert q[k + 1 + i] == a[i] && Precedes(q[k], q[k + 1 + i], expiry, stamp);
    }
  }

  /** Turning left below a later timer, right otherwise, stays on the way to the slot. */
  lemma SearchStep<T>(q: seq<T>, c: Ctx<T>, sub: Tree<T>, at: int, expiry: map<T, int>, stamp: map<T, nat>)
    requires sub.Node? && q == Whole(c, sub) && Ordered(q, expiry, stamp) && Surrounds(c, at, expiry)
    ensures sub.item in expiry
    ensures at < expiry[sub.item] ==> Surrounds(InLeft(c, sub.item, sub.red, sub.right), at, expiry)
    ensures at >= expiry[sub.item] ==> Surrounds(InRight(c, sub.item, sub.red, sub.left), at, expiry)
  {
    var b, l, x, r, a := Before(c), Inorder(sub.left), sub.item, Inorder(sub.right), After(c);
    SplitAt(c, sub);
    SortedAround(q, b + l, x, r + a, expiry, stamp);
    assert [x] + r + a == [x] + (r + a);
    forall i | 0 <= i < |r| ensures r[i] in expiry && expiry[x] <= expiry[r[i]] { assert r[i] == (r + a)[i]; }
    forall i | 0 <= i < |l| ensures l[i] in expiry && expiry[l[i]] <= expiry[x] { assert l[i] == (b + l)[|b| + i]; }
  }

  lemma SlotFound<T>(c: Ctx<T>, t: T, expiry: map<T, int>)
    requires t in expiry && Surrounds(c, expiry[t], expiry)
    ensures InsertedByExpiry(Whole(c, Leaf), t, Whole(c, Node(Leaf, t, true, Leaf)), expiry)
  {
    var b, a, q := Before(c), After(c), Whole(c, Leaf);
    assert q == b + a && Whole(c, Node(Leaf, t, true, Leaf)) == b + [t] + a;
    assert IsSlot(q, |b|, expiry[t], expiry) && q[..|b|] == b && q[|b|..] == a;
  }

  lemma FirstIsLeast<T>(q: seq<T>, expiry: map<T, int>, stamp: map<T, nat>)
    requires Ordered(q, expiry, stamp) && |q| > 0
    ensures forall x <- q :: expiry[q[0]] <= expiry[x]
  {
  }
}
