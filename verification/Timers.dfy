/** firmware/libosmocore/source/timer.c: timers in a red-black tree ordered by expiry. */
module Timers {
  import opened RbShape
  import opened RbEraseShape
  import opened RbTree
  import opened TimerOrder
  import opened TimerRuns

  type Timer = RbNode

  const LONG_MAX := 0x7fff_ffff

  lemma NextAt(q: seq<Timer>, i: nat, next: RbNode?)
    requires i < |q| && IsNext(q, q[i], next)
    ensures next == if i + 1 < |q| then q[i + 1] else null
  {
  }

  class TimerQueue {
    const root: RbRoot
    /** `timer_eviction_list`, first entry first; a timer's `list` is empty iff it is not in here. */
    var evict: seq<Timer>

    /** All timers there are, with their `timeout` fields. */
    ghost var pool: set<Timer>
    ghost var expiry: map<Timer, int>
    /** The number of calls so far, and which of them added each timer last. */
    ghost var clock: nat
    ghost var stamp: map<Timer, nat>

    constructor (ghost timers: set<Timer>)
      requires forall t <- timers :: !t.active
      ensures Valid() && pool == timers && Queue() == [] && fresh(root)
    {
      root := new RbRoot();
      evict, pool, expiry, stamp, clock := [], timers, map t <- timers :: t.timeout, map[], 0;
    }

    /** The pending timers in firing order. */
    ghost function Queue(): seq<Timer>
      reads root`tree
    {
      Inorder(root.tree)
    }

    /** Timers are pending iff they are in the tree, which is in order; `skip` is being worked on. */
    ghost predicate ValidBut(skip: set<Timer>)
      reads this, root, pool
    {
      && Items(root.tree) <= pool && root.Valid()
      && (forall t <- pool :: t in expiry && expiry[t] == t.timeout)
      && (forall t <- pool :: t !in skip ==> (t.active <==> t in Items(root.tree)))
      && OrderedBut(Queue(), skip, expiry, stamp)
      && (forall t <- stamp :: stamp[t] < clock)
      && NoDup(evict) && (forall t <- evict :: t in Items(root.tree))
    }

    ghost predicate Valid()
      reads this, root, pool
    {
      ValidBut({})
    }

    // ---------------------------------------------------------------- adding

    /** The descent of `__add_timer` to the link where the new timer goes. */
    method FindSlot(t: Timer) returns (parent: RbNode?, asLeft: bool, ghost c: Ctx<Timer>)
      requires root.Valid() && Ordered(Queue(), expiry, stamp)
      requires forall x <- Items(root.tree) + {t} :: x in expiry && expiry[x] == x.timeout
      ensures At(c, Leaf, root.node) && Fits(c, Leaf, 0) && parent == Over(c) && CtxItems(c) == Items(root.tree)
      ensures (c.InLeft? ==> asLeft) && (c.InRight? ==> !asLeft)
      ensures Whole(c, Leaf) == Queue() && Surrounds(c, expiry[t], expiry)
    {
      var n := root.node;
      parent, asLeft := null, false;
      ghost var q, sub, h: int := Queue(), root.tree, BlackHeight(root.tree);
      c := Top;
      assert Whole(c, sub) == q;
      while n != null
        invariant At(c, sub, root.node) && Fits(c, sub, h) && n == Ptr(sub) && parent == Over(c)
        invariant (c.InLeft? ==> asLeft) && (c.InRight? ==> !asLeft)
        invariant Whole(c, sub) == q && AllItems(c, sub) == Items(root.tree) && Surrounds(c, expiry[t], expiry)
        decreases sub
      {
        SearchStep(q, c, sub, expiry[t], expiry, stamp);
        parent := n;
        asLeft := t.timeout < n.timeout;
        c, sub, h := root.StepDown(c, sub, h, asLeft);
        if asLeft { n := n.left; } else { n := n.right; }
      }
    }

    /** `__add_timer`: what it does to the tree. */
    method LinkInOrder(t: Timer)
      requires root.Valid() && Ordered(Queue(), expiry, stamp) && t !in Items(root.tree)
      requires forall x <- Items(root.tree) + {t} :: x in expiry && expiry[x] == x.timeout
      requires forall x <- stamp :: stamp[x] < clock
      modifies root`node, root`tree, Items(root.tree)`parent, Items(root.tree)`left, Items(root.tree)`right
      modifies Items(root.tree)`red
      modifies t`parent, t`left, t`right, t`red
      ensures root.Valid() && Items(root.tree) == old(Items(root.tree)) + {t}
      ensures InsertedByExpiry(old(Queue()), t, Queue(), expiry) && Ordered(Queue(), expiry, stamp[t := clock])
    {
      var parent, asLeft;
      ghost var c;
      parent, asLeft, c := FindSlot(t);
      SlotFound(c, t, expiry);
      InorderItems(root.tree);
      InsertKeepsOrder(Queue(), t, Whole(c, Node(Leaf, t, true, Leaf)), expiry, stamp, clock);
      root.Insert(t, parent, asLeft, c);
    }

    /** `__add_timer` */
    method InsertTimer(t: Timer)
      requires ValidBut({t}) && Ordered(Queue(), expiry, stamp) && t in pool && t.active && t !in Items(root.tree)
      modifies `stamp, `clock, root`node, root`tree, pool`parent, pool`left, pool`right, pool`red
      ensures Valid() && clock == old(clock) + 1 && stamp == old(stamp)[t := old(clock)]
      ensures InsertedByExpiry(old(Queue()), t, Queue(), expiry) && Items(root.tree) == old(Items(root.tree)) + {t}
    {
      LinkInOrder(t);
      stamp, clock := stamp[t := clock], clock + 1;
    }

    // ---------------------------------------------------------------- the interface

    /** `rb_erase` leaves the queue in order even if the key of `t` was overwritten before. */
    method UnlinkInOrder(t: Timer)
      requires root.Valid() && OrderedBut(Queue(), {t}, expiry, stamp) && t in Items(root.tree)
      modifies root`node, root`tree, Items(root.tree)`parent, Items(root.tree)`left, Items(root.tree)`right
      modifies Items(root.tree)`red
      ensures root.Valid() && Items(root.tree) == old(Items(root.tree)) - {t}
      ensures Removed(old(Queue()), t, Queue()) && Ordered(Queue(), expiry, stamp)
    {
      ghost var q := Queue();
      DistinctNoDup(root.tree);
      root.Erase(t);
      RemoveKeepsOrder(q, t, Queue(), expiry, stamp);
    }

    /** `osmo_timer_del`.  The key of `t` may already have been overwritten. */
    method Del(t: Timer)
      requires ValidBut({t}) && t in pool && (t.active <==> t in Items(root.tree))
      modifies `evict, root`node, root`tree, t`active, pool`parent, pool`left, pool`right, pool`red
      ensures Valid() && !t.active
      ensures if old(t.active) then Removed(old(Queue()), t, Queue()) else Queue() == old(Queue())
      ensures Items(root.tree) == old(Items(root.tree)) - {t} && evict == Without(old(evict), t)
    {
      WithoutNoDup(evict, t);
      if t.active {
        DelActive(t);
      } else {
        InorderItems(root.tree);
        SkipAbsent(Queue(), t, expiry, stamp);
      }
    }

    method DelActive(t: Timer)
      requires ValidBut({t}) && t in pool && t in Items(root.tree)
      modifies `evict, root`node, root`tree, t`active, pool`parent, pool`left, pool`right, pool`red
      ensures Valid() && !t.active && Removed(old(Queue()), t, Queue())
      ensures Items(root.tree) == old(Items(root.tree)) - {t} && evict == Without(old(evict), t)
    {
      WithoutNoDup(evict, t);
      t.active := false;
      UnlinkInOrder(t);
      if t in evict {
        evict := Without(evict, t);
      }
    }

    /** `osmo_timer_add` */
    method Add(t: Timer)
      requires ValidBut({t}) && t in pool && (t.active <==> t in Items(root.tree))
      modifies `evict, `stamp, `clock, root`node, root`tree, t`active, pool`parent, pool`left, pool`right, pool`red
      ensures Valid() && t.active
      ensures Items(root.tree) == old(Items(root.tree)) + {t} && evict == Without(old(evict), t)
      ensures clock == old(clock) + 1 && stamp == old(stamp)[t := old(clock)]
    {
      Del(t);
      t.active := true;
      InsertTimer(t);
    }

    /** `osmo_timer_schedule`: the key changes while the timer may still be in the tree. */
    method Schedule(t: Timer, seconds: int, microseconds: int, now: int)
      requires Valid() && t in pool
      modifies `evict, `expiry, `stamp, `clock, root`node, root`tree, t`active, t`timeout
      modifies pool`parent, pool`left, pool`right, pool`red
      ensures Valid() && t.active && t.timeout == Expiry(seconds, microseconds, now)
      ensures WholeMs(seconds, microseconds, t.timeout - now)
      ensures Items(root.tree) == old(Items(root.tree)) + {t} && evict == Without(old(evict), t)
      ensures clock == old(clock) + 1 && stamp == old(stamp)[t := old(clock)]
      ensures expiry == old(expiry)[t := t.timeout]
    {
      t.timeout := seconds * 1000 + TruncDiv(microseconds, 1000);
      t.timeout := t.timeout + now;
      ExpiryIs(seconds, microseconds, now);
      expiry := expiry[t := t.timeout];
      Add(t);
    }

    // ---------------------------------------------------------------- runs

    ghost function Books(): Book<Timer>
      reads this, root`tree
    {
      Book(Items(root.tree), expiry, stamp, clock)
    }

    /** One call. */
    method Call(op: TimerOp<Timer>)
      requires Valid() && op.timer in pool
      modifies `evict, `expiry, `stamp, `clock, root`node, root`tree
      modifies pool`active, pool`timeout, pool`parent, pool`left, pool`right, pool`red
      ensures Valid() && Books() == Step(old(Books()), op) && evict == Without(old(evict), op.timer)
    {
      match op
      case AddOp(t) => Add(t);
      case DelOp(t) => Del(t);
      case ScheduleOp(t, sec, usec, now) => Schedule(t, sec, usec, now);
    }

    /** Any sequence of calls. */
    method Calls(ops: seq<TimerOp<Timer>>)
      requires Valid() && forall op <- ops :: op.timer in pool
      modifies `evict, `expiry, `stamp, `clock, root`node, root`tree
      modifies pool`active, pool`timeout, pool`parent, pool`left, pool`right, pool`red
      ensures Valid() && Books() == Steps(old(Books()), ops) && evict == Untouched(old(evict), ops)
    {
      for i := 0 to |ops|
        invariant Valid() && Books() == Steps(old(Books()), ops[..i]) && evict == Untouched(old(evict), ops[..i])
      {
        assert ops[..i + 1][..i] == ops[..i];
        Call(ops[i]);
      }
      assert ops[..|ops|] == ops;
    }

    // ---------------------------------------------------------------- osmo_timers_check, osmo_timers_prepare

    /** `rb_next` from the `i`-th pending timer. */
    method NextInQueue(node: Timer, ghost i: nat) returns (next: RbNode?)
      requires Valid() && i < |Queue()| && node == Queue()[i]
      ensures next == if i + 1 < |Queue()| then Queue()[i + 1] else null
    {
      ghost var q := Queue();
      DistinctNoDup(root.tree);
      InorderItems(root.tree);
      assert q[i] in Items(root.tree);
      next := root.Next(node);
      NextAt(q, i, next);
    }

    /** `osmo_timers_check`: the traversal meets every pending timer once, in firing order. */
    method Check() returns (i: nat, ghost visited: seq<Timer>)
      requires Valid()
      ensures visited == Queue() && i == |Queue()|
    {
      ghost var q := Queue();
      i, visited := 0, [];
      DistinctNoDup(root.tree);
      InorderItems(root.tree);
      var node := root.First();
      while node != null
        invariant i <= |q| && visited == q[..i] && node == if i < |q| then q[i] else null
        decreases |q| - i
      {
        assert q[i] in Items(root.tree);
        visited := visited + [node];
        node := NextInQueue(node, i);
        i := i + 1;
      }
    }

    /** `osmo_timers_prepare`: the time until the next timer is due, 0 iff one is due already; -1 if there is nothing
        to wait for. */
    method Prepare(now: int) returns (nearest: int)
      requires Valid()
      ensures Items(root.tree) == {} ==> nearest == -1
      ensures Items(root.tree) != {} ==>
        exists t :: t in Items(root.tree) && (forall x <- Items(root.tree) :: expiry[t] <= expiry[x])
          && nearest == if expiry[t] == 0x7fff_ffff then -1 else if expiry[t] > now then expiry[t] - now else 0
      ensures now < 0x7fff_ffff ==> (nearest == 0 <==> exists x :: x in Items(root.tree) && expiry[x] <= now)
    {
      ghost var q := Queue();
      InorderItems(root.tree);
      var node := root.First();
      nearest := -1;
      if node != null {
        assert q[0] == node && node in Items(root.tree) && expiry[node] == node.timeout;
        FirstIsLeast(q, expiry, stamp);
        forall x | x in Items(root.tree) ensures expiry[node] <= expiry[x] {
        }
        if node.timeout != LONG_MAX {
          nearest := if node.timeout > now then node.timeout - now else 0;
        }
      }
    }

    // ---------------------------------------------------------------- osmo_timers_update

    /** The `i`-th pending timer is not due yet. */
    method After(node: Timer, now: int, ghost i: nat) returns (later: bool)
      requires Valid() && i < |Queue()| && node == Queue()[i]
      ensures Queue()[i] in expiry && (later <==> expiry[Queue()[i]] > now)
    {
      InorderItems(root.tree);
      assert node in Items(root.tree);
      later := node.timeout > now;
    }

    /** The first loop of `osmo_timers_update`: due timers go to the head of the eviction list. */
    method ScanDue(now: int) returns (list: seq<Timer>)
      requires Valid()
      ensures DueList(Queue(), list, now, expiry)
    {
      ghost var q, k: nat := Queue(), 0;
      list := [];
      var node := root.First();
      while node != null
        invariant DueSoFar(q, k, list, now, expiry) && node == if k < |q| then q[k] else null
        decreases |q| - k
      {
        var later := After(node, now, k);
        if later {
          break;
        }
        OneMoreDue(q, k, list, now, expiry);
        list := [node] + list;
        node := NextInQueue(node, k);
        k := k + 1;
      }
      LaterStillLater(q, k, now, expiry, stamp);
    }

    /** One round of the restart loop: the head is deleted, its callback makes the calls `ops`. */
    method FireHead(ops: seq<TimerOp<Timer>>) returns (head: Timer)
      requires Valid() && evict != [] && forall op <- ops :: op.timer in pool
      modifies `evict, `expiry, `stamp, `clock, root`node, root`tree
      modifies pool`active, pool`timeout, pool`parent, pool`left, pool`right, pool`red
      ensures Valid() && head == old(evict[0]) && evict == Untouched(Without(old(evict), head), ops)
      ensures Books() == Steps(old(Books()), [DelOp(head)] + ops)
    {
      ghost var b := Books();
      head := evict[0];
      Del(head);
      StepsConcat(b, [DelOp(head)], ops);
      assert Steps(b, [DelOp(head)]) == Step(b, DelOp(head));
      Calls(ops);
    }

    /** The restart loop of `osmo_timers_update`. */
    method DrainList(script: seq<seq<TimerOp<Timer>>>) returns (work: bool, ghost fired: seq<Timer>)
      requires Valid() && forall ops <- script, op <- ops :: op.timer in pool
      modifies `evict, `expiry, `stamp, `clock, root`node, root`tree
      modifies pool`active, pool`timeout, pool`parent, pool`left, pool`right, pool`red
      ensures Valid() && evict == [] && (work <==> fired != [])
      ensures (fired, Books()) == Outcome(old(Books()), old(evict), script, 0, [])
    {
      fired, work := [], false;
      var k := 0;
      while evict != []
        invariant Valid() && (work <==> fired != [])
        invariant Outcome(Books(), evict, script, k, fired) == Outcome(old(Books()), old(evict), script, 0, [])
        decreases |evict|
      {
        OutcomeRound(Books(), evict, script, k, fired);
        var head := FireHead(if k < |script| then script[k] else []);
        work := true;
        fired := fired + [head];
        k := k + 1;
      }
      OutcomeEnd(Books(), script, k, fired);
    }

    /** `osmo_timers_update`; the callback of the k-th timer that fires makes the calls `script[k]`, a timer
        without a callback makes none. */
    method Update(now: int, script: seq<seq<TimerOp<Timer>>>)
      returns (work: bool, ghost fired: seq<Timer>, ghost due: seq<Timer>)
      requires Valid() && evict == []
      requires forall ops <- script, op <- ops :: op.timer in pool
      modifies `evict, `expiry, `stamp, `clock, root`node, root`tree
      modifies pool`active, pool`timeout, pool`parent, pool`left, pool`right, pool`red
      ensures Valid() && evict == []
      ensures DueList(old(Queue()), due, now, old(expiry))
      ensures fired == Drain(due, script, 0) && (work <==> fired != [])
      ensures Books() == Steps(old(Books()), DrainOps(due, script, 0))
    {
      var list := ScanDue(now);
      due := list;
      DistinctNoDup(root.tree);
      InorderItems(root.tree);
      DueListFacts(Queue(), list, now, expiry);
      evict := list;
      work, fired := DrainList(script);
      assert [] + Drain(due, script, 0) == Drain(due, script, 0);
    }
  }
}
