/** Whole runs of the timer management: sequences of calls, and the draining of the eviction list while
    callbacks make further calls. */
module TimerRuns {
  import opened RbShape
  import opened TimerOrder

  /** A call of `osmo_timer_add`, `osmo_timer_schedule` at the time `now`, or `osmo_timer_del`. */
  datatype TimerOp<T> =
    | AddOp(timer: T)
    | ScheduleOp(timer: T, seconds: int, microseconds: int, now: int)
    | DelOp(timer: T)

  // C division truncates towards zero
  function TruncDiv(a: int, b: int): int
    requires b > 0
  {
    if a >= 0 then a / b else -(-a / b)
  }

  function Expiry(seconds: int, microseconds: int, now: int): int {
    seconds * 1000 + TruncDiv(microseconds, 1000) + now
  }

  /** `ms` is the delay in whole milliseconds: the rest, if any, has the sign of the microseconds and is cut off. */
  predicate WholeMs(seconds: int, microseconds: int, ms: int) {
    var rest := 1_000_000 * seconds + microseconds - 1000 * ms;
    if microseconds >= 0 then 0 <= rest < 1000 else -1000 < rest <= 0
  }

  lemma ExpiryIs(seconds: int, microseconds: int, now: int)
    ensures WholeMs(seconds, microseconds, Expiry(seconds, microseconds, now) - now)
  {
  }

  /** Which timers are pending, when they expire, and when they were added. */
  datatype Book<!T> = Book(active: set<T>, expiry: map<T, int>, stamp: map<T, nat>, clock: nat)

  ghost function Step<T>(b: Book<T>, op: TimerOp<T>): Book<T> {
    match op
    case DelOp(t) => b.(active := b.active - {t})
    case AddOp(t) => b.(active := b.active + {t}, stamp := b.stamp[t := b.clock], clock := b.clock + 1)
    case ScheduleOp(t, sec, usec, now) =>
      Book(b.active + {t}, b.expiry[t := Expiry(sec, usec, now)], b.stamp[t := b.clock], b.clock + 1)
  }

  ghost function Steps<T>(b: Book<T>, ops: seq<TimerOp<T>>): Book<T> {
    if ops == [] then b else Step(Steps(b, ops[..|ops| - 1]), ops[|ops| - 1])
  }

  lemma {:induction false} StepsConcat<T>(b: Book<T>, x: seq<TimerOp<T>>, y: seq<TimerOp<T>>)
    ensures Steps(b, x + y) == Steps(Steps(b, x), y)
  {
    if y == [] {
      assert x + y == x;
    } else {
      var y' := y[..|y| - 1];
      assert (x + y)[..|x + y| - 1] == x + y' && (x + y)[|x + y| - 1] == y[|y| - 1];
      StepsConcat(b, x, y');
    }
  }

  ghost predicate Adds<T>(op: TimerOp<T>, t: T) {
    !op.DelOp? && op.timer == t
  }

  /** The stamp of a timer is the count of calls that added anything before its own last addition. */
  lemma {:induction false} StampOfLastAdd<T>(b: Book<T>, ops: seq<TimerOp<T>>, i: int)
    requires 0 <= i < |ops| && !ops[i].DelOp?
    requires forall j :: i < j < |ops| ==> !Adds(ops[j], ops[i].timer)
    ensures ops[i].timer in Steps(b, ops).stamp
    ensures Steps(b, ops).stamp[ops[i].timer] == Steps(b, ops[..i]).clock < Steps(b, ops).clock
  {
    var n := |ops| - 1;
    ClockGrows(b, ops[..n]);
    if i == n {
      assert ops[..i] == ops[..n];
    } else {
      assert forall j :: 0 <= j < n ==> ops[..n][j] == ops[j];
      assert ops[..n][..i] == ops[..i];
      StampOfLastAdd(b, ops[..n], i);
      assert !Adds(ops[n], ops[i].timer);
    }
  }

  lemma {:induction false} ClockGrows<T>(b: Book<T>, ops: seq<TimerOp<T>>)
    ensures b.clock <= Steps(b, ops).clock
  {
    if ops != [] { ClockGrows(b, ops[..|ops| - 1]); }
  }

  /** Ties are broken by insertion order: of two timers, the one whose last addition came first has the
      smaller stamp. */
  lemma EarlierAddSmallerStamp<T>(b: Book<T>, ops: seq<TimerOp<T>>, i: int, j: int)
    requires 0 <= i < j < |ops| && !ops[i].DelOp? && !ops[j].DelOp?
    requires forall k :: i < k < |ops| ==> !Adds(ops[k], ops[i].timer)
    requires forall k :: j < k < |ops| ==> !Adds(ops[k], ops[j].timer)
    ensures ops[i].timer in Steps(b, ops).stamp && ops[j].timer in Steps(b, ops).stamp
    ensures Steps(b, ops).stamp[ops[i].timer] < Steps(b, ops).stamp[ops[j].timer]
  {
    StampOfLastAdd(b, ops, i);
    StampOfLastAdd(b, ops, j);
    assert ops[..j][..i] == ops[..i] && ops[..j][i] == ops[i];
    assert forall k :: i < k < j ==> ops[..j][k] == ops[k];
    StampOfLastAdd(b, ops[..j], i);
  }

  lemma {:induction false} StepsLeave<T>(b: Book<T>, ops: seq<TimerOp<T>>, t: T)
    requires !Touches(ops, t) && t in b.active && t in b.expiry
    ensures var b1 := Steps(b, ops); t in b1.active && t in b1.expiry && b1.expiry[t] == b.expiry[t]
    decreases |ops|
  {
    if ops != [] {
      var n := |ops| - 1;
      assert !Touches(ops[..n], t) by {
        assert forall i :: 0 <= i < n ==> ops[..n][i] == ops[i];
      }
      StepsLeave(b, ops[..n], t);
      assert ops[n].timer != t;
    }
  }

  lemma {:induction false} StepsLeaveOut<T>(b: Book<T>, ops: seq<TimerOp<T>>, t: T)
    requires !Touches(ops, t)
    ensures t in Steps(b, ops).active <==> t in b.active
    decreases |ops|
  {
    if ops != [] {
      var n := |ops| - 1;
      assert !Touches(ops[..n], t) by {
        assert forall i :: 0 <= i < n ==> ops[..n][i] == ops[i];
      }
      StepsLeaveOut(b, ops[..n], t);
      assert ops[n].timer != t;
    }
  }

  /** The last call on a timer decides: after a deletion it is not pending, after any other call it is, and after
      scheduling at the time of the call plus the whole milliseconds of the delay. */
  lemma LastCallDecides<T>(b: Book<T>, ops: seq<TimerOp<T>>, i: nat)
    requires i < |ops| && forall j :: i < j < |ops| ==> ops[j].timer != ops[i].timer
    ensures var b1, t := Steps(b, ops), ops[i].timer;
      && (t in b1.active <==> !ops[i].DelOp?)
      && (ops[i].ScheduleOp? ==>
            t in b1.expiry && WholeMs(ops[i].seconds, ops[i].microseconds, b1.expiry[t] - ops[i].now))
  {
    var t, b0 := ops[i].timer, Steps(b, ops[..i]);
    var rest := ops[i + 1..];
    assert ops[..i + 1] + rest == ops && ops[..i + 1][..i] == ops[..i];
    StepsConcat(b, ops[..i + 1], rest);
    assert Steps(b, ops[..i + 1]) == Step(b0, ops[i]);
    assert !Touches(rest, t) by {
      assert forall j :: 0 <= j < |rest| ==> rest[j] == ops[i + 1 + j];
    }
    StepsLeaveOut(Step(b0, ops[i]), rest, t);
    if ops[i].ScheduleOp? {
      StepsLeave(Step(b0, ops[i]), rest, t);
      ExpiryIs(ops[i].seconds, ops[i].microseconds, ops[i].now);
    }
  }

  /** A timer that was scheduled and not touched since is among the due ones of an update iff its delay, in whole
      milliseconds, has passed. */
  lemma ScheduledDue<T>(b: Book<T>, t: T, seconds: int, microseconds: int, now: int, ops: seq<TimerOp<T>>,
                        q: seq<T>, due: seq<T>, later: int, ms: int)
    requires !Touches(ops, t) && WholeMs(seconds, microseconds, ms)
    requires var b1 := Steps(Step(b, ScheduleOp(t, seconds, microseconds, now)), ops);
      (forall x <- b1.active :: x in q) && NoDup(q) && DueList(q, due, later, b1.expiry)
    ensures t in due <==> later - now >= ms
  {
    var b0 := Step(b, ScheduleOp(t, seconds, microseconds, now));
    var b1 := Steps(b0, ops);
    ExpiryIs(seconds, microseconds, now);
    StepsLeave(b0, ops, t);
    assert b1.expiry[t] == now + ms;
    DueIff(q, due, later, b1.expiry, t);
  }

  lemma DueIff<T>(q: seq<T>, due: seq<T>, now: int, expiry: map<T, int>, t: T)
    requires DueList(q, due, now, expiry) && t in q && t in expiry
    ensures t in due <==> expiry[t] <= now
  {
    var k :| IsSlot(q, k, now, expiry) && due == Reversed(q[..k]);
    var i :| 0 <= i < |q| && q[i] == t;
    ReversedFacts(q[..k]);
    if i < k {
      assert q[..k][i] == t && Reversed(q[..k])[k - 1 - i] == t;
    }
  }

  // ---------------------------------------------------------------- draining the eviction list

  ghost predicate Touches<T>(ops: seq<TimerOp<T>>, t: T) {
    exists i :: 0 <= i < |ops| && ops[i].timer == t
  }

  /** Every call on a timer takes it off the eviction list. */
  ghost function Untouched<T>(list: seq<T>, ops: seq<TimerOp<T>>): (r: seq<T>)
    ensures |r| <= |list|
  {
    if ops == [] then list else Without(Untouched(list, ops[..|ops| - 1]), ops[|ops| - 1].timer)
  }

  ghost function OpsAt<T>(script: seq<seq<TimerOp<T>>>, k: nat): seq<TimerOp<T>> {
    if k < |script| then script[k] else []
  }

  ghost function RestAfter<T>(list: seq<T>, script: seq<seq<TimerOp<T>>>, k: nat): (r: seq<T>)
    requires list != []
    ensures |r| < |list|
  {
    Untouched(Without(list, list[0]), OpsAt(script, k))
  }

  /** The timers that fire, in order; the callback of the k-th makes the calls `script[k]`. */
  ghost function Drain<T>(list: seq<T>, script: seq<seq<TimerOp<T>>>, k: nat): seq<T>
    decreases |list|
  {
    if list == [] then [] else [list[0]] + Drain(RestAfter(list, script, k), script, k + 1)
  }

  /** All calls made meanwhile, including the update's own deletions. */
  ghost function DrainOps<T>(list: seq<T>, script: seq<seq<TimerOp<T>>>, k: nat): seq<TimerOp<T>>
    decreases |list|
  {
    if list == [] then []
    else [DelOp(list[0])] + OpsAt(script, k) + DrainOps(RestAfter(list, script, k), script, k + 1)
  }

  /** What will have fired, and what the books will be, once `rest` is drained. */
  ghost function Outcome<T>(b: Book<T>, rest: seq<T>, script: seq<seq<TimerOp<T>>>, k: nat, fired: seq<T>)
    : (seq<T>, Book<T>)
  {
    (fired + Drain(rest, script, k), Steps(b, DrainOps(rest, script, k)))
  }

  lemma OutcomeEnd<T>(b: Book<T>, script: seq<seq<TimerOp<T>>>, k: nat, fired: seq<T>)
    ensures Outcome(b, [], script, k, fired) == (fired, b)
  {
    assert fired + Drain([], script, k) == fired && DrainOps([], script, k) == [];
  }

  lemma OutcomeRound<T>(b: Book<T>, rest: seq<T>, script: seq<seq<TimerOp<T>>>, k: nat, fired: seq<T>)
    requires rest != []
    ensures Outcome(b, rest, script, k, fired) ==
            Outcome(Steps(b, [DelOp(rest[0])] + OpsAt(script, k)), RestAfter(rest, script, k), script, k + 1,
                    fired + [rest[0]])
  {
    var r := RestAfter(rest, script, k);
    StepsConcat(b, [DelOp(rest[0])] + OpsAt(script, k), DrainOps(r, script, k + 1));
    assert fired + ([rest[0]] + Drain(r, script, k + 1)) == (fired + [rest[0]]) + Drain(r, script, k + 1);
  }

  /** `d` arises from `s` by leaving out elements. */
  ghost predicate Subsequence<T>(d: seq<T>, s: seq<T>) {
    if d == [] then true
    else if s == [] then false
    else if d[0] == s[0] then Subsequence(d[1..], s[1..]) || Subsequence(d, s[1..])
    else Subsequence(d, s[1..])
  }

  lemma {:induction false} SubsequenceSelf<T>(s: seq<T>)
    ensures Subsequence(s, s)
  {
    if s != [] { SubsequenceSelf(s[1..]); }
  }

  lemma {:induction false} SubsequenceTail<T>(d: seq<T>, s: seq<T>)
    requires d != [] && Subsequence(d, s)
    ensures Subsequence(d[1..], s)
    decreases |s|
  {
    if Subsequence(d, s[1..]) {
      SubsequenceTail(d, s[1..]);
      SubsequenceWiden(d[1..], s);
    } else {
      SubsequenceWiden(d[1..], s);
    }
  }

  lemma SubsequenceWiden<T>(d: seq<T>, s: seq<T>)
    requires s != [] && Subsequence(d, s[1..])
    ensures Subsequence(d, s)
  {
  }

  lemma {:induction false} SubsequenceTrans<T>(d: seq<T>, e: seq<T>, s: seq<T>)
    requires Subsequence(d, e) && Subsequence(e, s)
    ensures Subsequence(d, s)
    decreases |s|, |e|
  {
    if d == [] || e == [] {
    } else if Subsequence(e, s[1..]) {
      SubsequenceTrans(d, e, s[1..]);
      SubsequenceWiden(d, s);
    } else if d[0] == e[0] && Subsequence(d[1..], e[1..]) {
      SubsequenceTrans(d[1..], e[1..], s[1..]);
    } else {
      SubsequenceTrans(d, e[1..], s[1..]);
      SubsequenceWiden(d, s);
    }
  }

  lemma {:induction false} WithoutIsSubsequence<T>(s: seq<T>, x: T)
    ensures Subsequence(Without(s, x), s)
  {
    if s != [] { WithoutIsSubsequence(s[1..], x); }
  }

  lemma {:induction false} UntouchedFacts<T>(list: seq<T>, ops: seq<TimerOp<T>>)
    ensures Subsequence(Untouched(list, ops), list)
    ensures forall x :: x in Untouched(list, ops) <==> x in list && !Touches(ops, x)
    ensures NoDup(list) ==> NoDup(Untouched(list, ops))
  {
    if ops == [] {
      SubsequenceSelf(list);
    } else {
      var n := |ops| - 1;
      var u := Untouched(list, ops[..n]);
      UntouchedFacts(list, ops[..n]);
      WithoutIsSubsequence(u, ops[n].timer);
      SubsequenceTrans(Untouched(list, ops), u, list);
      if NoDup(list) { WithoutNoDup(u, ops[n].timer); }
      forall x ensures Touches(ops, x) <==> Touches(ops[..n], x) || x == ops[n].timer {
        if Touches(ops[..n], x) {
          var i :| 0 <= i < n && ops[..n][i].timer == x;
          assert ops[i].timer == x;
        }
        if Touches(ops, x) && x != ops[n].timer {
          var i :| 0 <= i < |ops| && ops[i].timer == x;
          assert ops[..n][i].timer == x;
        }
      }
    }
  }

  /** Timers fire in the order of the list, each at most once, and nothing else fires. */
  lemma {:induction false} DrainOrder<T>(list: seq<T>, script: seq<seq<TimerOp<T>>>, k: nat)
    requires NoDup(list)
    ensures Subsequence(Drain(list, script, k), list) && NoDup(Drain(list, script, k))
    ensures forall x :: x in Drain(list, script, k) ==> x in list
    decreases |list|
  {
    if list != [] {
      var w, r := Without(list, list[0]), RestAfter(list, script, k);
      var d := Drain(r, script, k + 1);
      WithoutNoDup(list, list[0]);
      FirstRemoved(list);
      UntouchedFacts(w, OpsAt(script, k));
      DrainOrder(r, script, k + 1);
      SubsequenceTrans(d, r, list[1..]);
      forall j | 0 <= j < |d| ensures d[j] != list[0] {
        assert d[j] in d;
      }
    }
  }

  lemma FirstRemoved<T>(list: seq<T>)
    requires list != [] && NoDup(list)
    ensures Without(list, list[0]) == list[1..]
  {
  }

  /** `x` does not fire only because an earlier callback touched it; and if it fires, no earlier one did. */
  ghost predicate FiresUnlessTouched<T>(d: seq<T>, script: seq<seq<TimerOp<T>>>, k: nat, x: T) {
    && (x !in d ==> exists m :: k <= m < k + |d| && Touches(OpsAt(script, m), x))
    && (forall p, m :: 0 <= p < |d| && d[p] == x && k <= m < k + p ==> !Touches(OpsAt(script, m), x))
  }

  lemma FiresLater<T>(head: T, d: seq<T>, script: seq<seq<TimerOp<T>>>, k: nat, x: T)
    requires FiresUnlessTouched(d, script, k + 1, x) && x != head && !Touches(OpsAt(script, k), x)
    ensures FiresUnlessTouched([head] + d, script, k, x)
  {
    var d' := [head] + d;
    forall p, m | 0 <= p < |d'| && d'[p] == x && k <= m < k + p ensures !Touches(OpsAt(script, m), x) {
      assert d[p - 1] == x;
    }
    assert forall i :: 0 <= i < |d| ==> d'[i + 1] == d[i] && d[i] in d';
  }

  /** A listed timer fires exactly once, unless the callback of an earlier one deleted, added or
      rescheduled it: then it does not fire. */
  lemma {:induction false} DrainFires<T>(list: seq<T>, script: seq<seq<TimerOp<T>>>, k: nat, x: T)
    requires NoDup(list) && x in list
    ensures FiresUnlessTouched(Drain(list, script, k), script, k, x)
    decreases |list|
  {
    var w, r := Without(list, list[0]), RestAfter(list, script, k);
    var d, d' := Drain(list, script, k), Drain(r, script, k + 1);
    assert d == [list[0]] + d';
    WithoutNoDup(list, list[0]);
    UntouchedFacts(w, OpsAt(script, k));
    DrainOrder(r, script, k + 1);
    if x == list[0] {
      forall p | 0 < p < |d| ensures d[p] != x { assert d'[p - 1] in d'; }
    } else if x in r {
      DrainFires(r, script, k + 1, x);
      FiresLater(list[0], d', script, k, x);
    } else {
      assert Touches(OpsAt(script, k), x);
      forall p | 0 <= p < |d| ensures d[p] != x { if p > 0 { assert d'[p - 1] in d'; } }
    }
  }

  // ---------------------------------------------------------------- what is pending after an update

  lemma TouchesJoined<T>(x: seq<TimerOp<T>>, y: seq<TimerOp<T>>, t: T)
    ensures Touches(x + y, t) <==> Touches(x, t) || Touches(y, t)
  {
    if Touches(x, t) {
      var i :| 0 <= i < |x| && x[i].timer == t;
      assert (x + y)[i].timer == t;
    }
    if Touches(y, t) {
      var i :| 0 <= i < |y| && y[i].timer == t;
      assert (x + y)[|x| + i].timer == t;
    }
  }

  /** No callback makes a call on the timer. */
  ghost predicate LeftAlone<T>(script: seq<seq<TimerOp<T>>>, t: T) {
    forall k: nat :: !Touches(OpsAt(script, k), t)
  }

  lemma {:induction false} DrainLeaves<T>(list: seq<T>, script: seq<seq<TimerOp<T>>>, k: nat, t: T)
    requires t !in list && LeftAlone(script, t)
    ensures !Touches(DrainOps(list, script, k), t)
    decreases |list|
  {
    if list != [] {
      var r := RestAfter(list, script, k);
      UntouchedFacts(Without(list, list[0]), OpsAt(script, k));
      DrainLeaves(r, script, k + 1, t);
      TouchesJoined([DelOp(list[0])], OpsAt(script, k), t);
      TouchesJoined([DelOp(list[0])] + OpsAt(script, k), DrainOps(r, script, k + 1), t);
    }
  }

  lemma {:induction false} DrainDeletes<T>(b: Book<T>, list: seq<T>, script: seq<seq<TimerOp<T>>>, k: nat, t: T)
    requires NoDup(list) && t in list && LeftAlone(script, t)
    ensures t !in Steps(b, DrainOps(list, script, k)).active
    decreases |list|
  {
    var r, ops := RestAfter(list, script, k), [DelOp(list[0])] + OpsAt(script, k);
    WithoutNoDup(list, list[0]);
    UntouchedFacts(Without(list, list[0]), OpsAt(script, k));
    StepsConcat(b, ops, DrainOps(r, script, k + 1));
    if t == list[0] {
      StepsConcat(b, [DelOp(t)], OpsAt(script, k));
      assert Steps(b, [DelOp(t)]) == Step(b, DelOp(t));
      StepsLeaveOut(Step(b, DelOp(t)), OpsAt(script, k), t);
      DrainLeaves(r, script, k + 1, t);
      StepsLeaveOut(Steps(b, ops), DrainOps(r, script, k + 1), t);
    } else {
      DrainDeletes(Steps(b, ops), r, script, k + 1, t);
    }
  }

  /** A timer that no callback touches is pending after an update iff it was before and was not due. */
  lemma PendingAfterUpdate<T>(b: Book<T>, due: seq<T>, script: seq<seq<TimerOp<T>>>, t: T)
    requires NoDup(due) && LeftAlone(script, t)
    ensures t in Steps(b, DrainOps(due, script, 0)).active <==> t in b.active && t !in due
  {
    if t in due {
      DrainDeletes(b, due, script, 0, t);
    } else {
      DrainLeaves(due, script, 0, t);
      StepsLeaveOut(b, DrainOps(due, script, 0), t);
    }
  }
}
