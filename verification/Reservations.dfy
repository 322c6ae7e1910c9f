/** Sector reservations against a budget: one after the other, and as interleaved atomic
    steps of many threads sharing the counter. */
module Reservations {
  import opened Wrappers
  import opened Numbers

  datatype Flags = NoFlags | Nofail | Partial

  function Minus(a: nat, b: nat): nat { if a < b then 0 else a - b }

  // ---- one after the other ----

  class DiskReservation {
    var sectors: nat

    constructor (sectors: nat)
      ensures this.sectors == sectors
    {
      this.sectors := sectors;
    }
  }

  class ReservationTracker {
    var totalReserved: nat
    const maxReserved: nat

    constructor (totalSectors: nat, margin: nat)
      ensures totalReserved == 0 && maxReserved == Minus(totalSectors, margin)
    {
      totalReserved, maxReserved := 0, Minus(totalSectors, margin);
    }

    /** Adds to a reservation: whatever the counter gains, the reservation gains. Only the
        flag that must not fail can take the counter past the budget. */
    method Add(res: DiskReservation, sectors: nat, flags: Flags) returns (ok: bool)
      modifies this, res
      ensures totalReserved - old(totalReserved) == res.sectors - old(res.sectors)
      ensures res.sectors - old(res.sectors) ==
              if old(totalReserved) + sectors <= maxReserved || flags.Nofail? then sectors
              else if flags.Partial? then Minus(maxReserved, old(totalReserved)) else 0
      ensures ok <==> sectors == 0 || res.sectors > old(res.sectors)
      ensures !flags.Nofail? && old(totalReserved) <= maxReserved ==> totalReserved <= maxReserved
    {
      if sectors == 0 { return true; }
      var current := totalReserved;
      totalReserved := totalReserved + sectors;
      if current + sectors > maxReserved {
        match flags {
          case Nofail =>
            res.sectors := res.sectors + sectors;
            return true;
          case Partial =>
            var available := Minus(maxReserved, current);
            if available == 0 {
              totalReserved := totalReserved - sectors;
              return false;
            }
            totalReserved := totalReserved - sectors;
            totalReserved := totalReserved + available;
            res.sectors := res.sectors + available;
            return true;
          case NoFlags =>
            totalReserved := totalReserved - sectors;
            return false;
        }
      }
      res.sectors := res.sectors + sectors;
      ok := true;
    }

    /** A new reservation for all replicas, refused exactly if nothing of it can be had: for
        all of it unless the flag says otherwise, for any part of it if that will do. */
    method Get(sectors: nat, replicas: nat, flags: Flags) returns (o: Option<DiskReservation>)
      modifies this
      ensures var need := sectors * replicas;
              o.Some? <==>
                || need == 0 || old(totalReserved) + need <= maxReserved || flags.Nofail?
                || (flags.Partial? && old(totalReserved) < maxReserved)
      ensures o.Some? ==> fresh(o.value) && totalReserved == old(totalReserved) + o.value.sectors
      ensures o.Some? ==>
                var need := sectors * replicas;
                o.value.sectors ==
                if need == 0 || old(totalReserved) + need <= maxReserved || flags.Nofail? then need
                else maxReserved - old(totalReserved)
      ensures o.None? ==> totalReserved == old(totalReserved)
      ensures !flags.Nofail? && old(totalReserved) <= maxReserved ==> totalReserved <= maxReserved
    {
      var res := new DiskReservation(0);
      var ok := Add(res, sectors * replicas, flags);
      o := if ok then Some(res) else None;
    }

    /** Uses up part of a reservation. */
    method Commit(res: DiskReservation, used: nat)
      requires res.sectors <= totalReserved
      modifies this, res
      ensures res.sectors == Minus(old(res.sectors), used)
      ensures totalReserved - old(totalReserved) == res.sectors - old(res.sectors)
    {
      if used == 0 || res.sectors == 0 { return; }
      var actual := Min(used, res.sectors);
      totalReserved := totalReserved - actual;
      res.sectors := res.sectors - actual;
    }

    /** Gives back what is left of a reservation. */
    method Put(res: DiskReservation)
      requires res.sectors <= totalReserved
      modifies this, res
      ensures res.sectors == 0 && totalReserved == old(totalReserved) - old(res.sectors)
    {
      var remaining := res.sectors;
      res.sectors := 0;
      if remaining == 0 { return; }
      totalReserved := totalReserved - remaining;
    }
  }

  // ---- interleaved ----

  /** Where a thread stands between two atomic operations on the counter. */
  datatype Pc =
    | Idle
    /** the counter was raised, and was current before */
    | Raised(sectors: nat, current: nat, flags: Flags)
    /** a partial reservation was taken back and will be raised by what was available */
    | Refilling(available: nat)
    | Refilled(available: nat)
    /** the counter was lowered by a commit, the reservation not yet */
    | Committed(actual: nat)
    /** the reservation was emptied, the counter not yet lowered */
    | Releasing(remaining: nat)

  /** A thread with its reservation. */
  datatype Thread = Thread(pc: Pc, held: nat)

  datatype State = State(total: nat, threads: seq<Thread>)

  /** What the counter holds on behalf of a thread. */
  function Share(t: Thread): int {
    match t.pc
    case Idle => t.held
    case Raised(s, _, _) => t.held + s
    case Refilling(_) => t.held
    case Refilled(a) => t.held + a
    case Committed(a) => t.held - a
    case Releasing(r) => t.held + r
  }

  /** What of it is granted for good: held, on its way to being held, or being given back. */
  function Granted(t: Thread, max: nat): int {
    match t.pc
    case Raised(s, c, _) => t.held + if c + s <= max then s else 0
    case _ => Share(t)
  }

  function Sum(f: Thread -> int, ts: seq<Thread>): int {
    if ts == [] then 0 else Sum(f, ts[..|ts| - 1]) + f(ts[|ts| - 1])
  }

  lemma {:induction false} SumUpdate(f: Thread -> int, ts: seq<Thread>, i: nat, t: Thread)
    requires i < |ts|
    ensures Sum(f, ts[i := t]) == Sum(f, ts) - f(ts[i]) + f(t)
  {
    if i < |ts| - 1 {
      SumUpdate(f, ts[..|ts| - 1], i, t);
      assert ts[i := t][..|ts| - 1] == ts[..|ts| - 1][i := t];
    } else {
      assert ts[i := t][..|ts| - 1] == ts[..|ts| - 1];
    }
  }

  lemma {:induction false} SumBound(f: Thread -> int, g: Thread -> int, ts: seq<Thread>)
    requires forall i :: 0 <= i < |ts| ==> f(ts[i]) <= g(ts[i])
    ensures Sum(f, ts) <= Sum(g, ts)
  {
    if ts != [] { SumBound(f, g, ts[..|ts| - 1]); }
  }

  /** What a thread may do next to the counter and to itself. */
  datatype Action = Add(sectors: nat, flags: Flags) | Commit(used: nat) | Put | Continue

  /** One atomic operation of a thread; None if it cannot do that now. */
  function Act(total: int, max: nat, t: Thread, a: Action): Option<(int, Thread)> {
    match (a, t.pc)
    case (Add(s, f), Idle) => if s == 0 then Some((total, t)) else if total < 0 then None
                              else Some((total + s, t.(pc := Raised(s, total, f))))
    case (Commit(u), Idle) =>
      if u == 0 || t.held == 0 then Some((total, t))
      else Some((total - Min(u, t.held), t.(pc := Committed(Min(u, t.held)))))
    case (Put, Idle) => if t.held == 0 then Some((total, t)) else Some((total, Thread(Releasing(t.held), 0)))
    case (Continue, Raised(s, c, f)) =>
      if c + s <= max || f.Nofail? then Some((total, Thread(Idle, t.held + s)))
      else if f.Partial? && Minus(max, c) > 0 then Some((total - s, t.(pc := Refilling(Minus(max, c)))))
      else Some((total - s, t.(pc := Idle)))
    case (Continue, Refilling(v)) => Some((total + v, t.(pc := Refilled(v))))
    case (Continue, Refilled(v)) => Some((total, Thread(Idle, t.held + v)))
    case (Continue, Committed(v)) => if v <= t.held then Some((total, Thread(Idle, t.held - v))) else None
    case (Continue, Releasing(r)) => Some((total - r, t.(pc := Idle)))
    case _ => None
  }

  /** Some thread does one atomic operation. */
  ghost predicate Step(s: State, s': State, max: nat, i: nat, a: Action) {
    && i < |s.threads|
    && var o := Act(s.total, max, s.threads[i], a);
       o.Some? && s'.total == o.value.0 && s'.threads == s.threads[i := o.value.1]
  }

  /** A commit takes no more from the counter than the reservation holds. */
  predicate ThreadOk(t: Thread) { t.pc.Committed? ==> t.pc.actual <= t.held }

  /** The counter is the sum of what it holds on behalf of the threads. */
  ghost predicate Conserved(s: State) {
    && s.total == Sum(Share, s.threads)
    && forall i :: 0 <= i < |s.threads| ==> ThreadOk(s.threads[i])
  }

  lemma {:induction false} SumAtLeast(ts: seq<Thread>, i: nat)
    requires i < |ts| && forall j :: 0 <= j < |ts| ==> Share(ts[j]) >= 0
    ensures Sum(Share, ts) >= Share(ts[i])
  {
    if i < |ts| - 1 {
      SumAtLeast(ts[..|ts| - 1], i);
    } else {
      SumNonNegative(ts[..|ts| - 1]);
    }
  }

  lemma {:induction false} SumNonNegative(ts: seq<Thread>)
    requires forall j :: 0 <= j < |ts| ==> Share(ts[j]) >= 0
    ensures Sum(Share, ts) >= 0
  {
    if ts != [] { SumNonNegative(ts[..|ts| - 1]); }
  }

  /** No subtraction takes the counter below zero, and a thread that has begun an operation
      can always go on with it. */
  lemma NeverBelowZero(s: State, max: nat, i: nat, a: Action)
    requires Conserved(s) && i < |s.threads|
    ensures Act(s.total, max, s.threads[i], a).Some? ==> Act(s.total, max, s.threads[i], a).value.0 >= 0
    ensures !s.threads[i].pc.Idle? ==> Act(s.total, max, s.threads[i], Continue).Some?
  {
    SumAtLeast(s.threads, i);
  }

  /** Any atomic operation, of any thread with any flag, keeps conservation. */
  lemma StepConserves(s: State, s': State, max: nat, i: nat, a: Action)
    requires Conserved(s) && Step(s, s', max, i, a)
    ensures Conserved(s')
  {
    SumUpdate(Share, s.threads, i, s'.threads[i]);
  }

  /** All that is granted. */
  function Claims(s: State, max: nat): int { Sum(t => Granted(t, max), s.threads) }

  /** The threads ask with no flags only, and what is granted stays within the budget. */
  ghost predicate WithinBudget(s: State, max: nat) {
    && (forall i :: 0 <= i < |s.threads| ==> Plain(s.threads[i]))
    && Claims(s, max) <= max
  }

  predicate Plain(t: Thread) {
    !t.pc.Refilling? && !t.pc.Refilled? && (t.pc.Raised? ==> t.pc.flags.NoFlags?)
  }

  lemma StepWithinBudget(s: State, s': State, max: nat, i: nat, a: Action)
    requires Conserved(s) && WithinBudget(s, max) && Step(s, s', max, i, a)
    requires a.Add? ==> a.flags.NoFlags?
    ensures WithinBudget(s', max)
  {
    var g := t => Granted(t, max);
    SumUpdate(g, s.threads, i, s'.threads[i]);
    SumBound(g, Share, s.threads);
  }

  /** A run: each state follows from the one before by one operation of one thread. */
  ghost predicate Run(states: seq<State>, who: seq<nat>, what: seq<Action>, max: nat) {
    && |states| == |who| + 1 == |what| + 1
    && forall k {:trigger StepAt(states, who, what, max, k)} :: 0 <= k < |who| ==> StepAt(states, who, what, max, k)
  }

  ghost predicate StepAt(states: seq<State>, who: seq<nat>, what: seq<Action>, max: nat, k: nat)
    requires |states| == |who| + 1 == |what| + 1 && k < |who|
  {
    Step(states[k], states[k + 1], max, who[k], what[k])
  }

  function Initial(n: nat): State { State(0, seq(n, _ => Thread(Idle, 0))) }

  lemma {:induction false} InitialSum(f: Thread -> int, ts: seq<Thread>)
    requires forall i :: 0 <= i < |ts| ==> f(ts[i]) == 0
    ensures Sum(f, ts) == 0
  {
    if ts != [] { InitialSum(f, ts[..|ts| - 1]); }
  }

  /** In every run, of any threads with any flags, the counter is always exactly what the
      reservations hold plus what is in flight. */
  lemma {:induction false} RunConserves(states: seq<State>, who: seq<nat>, what: seq<Action>, max: nat, n: nat, k: nat)
    requires Run(states, who, what, max) && states[0] == Initial(n) && k < |states|
    ensures Conserved(states[k])
    decreases k
  {
    if k == 0 {
      InitialSum(Share, states[0].threads);
    } else {
      RunConserves(states, who, what, max, n, k - 1);
      assert StepAt(states, who, what, max, k - 1);
      StepConserves(states[k - 1], states[k], max, who[k - 1], what[k - 1]);
    }
  }

  /** In every run without flags what is granted never exceeds the budget. */
  lemma {:induction false} RunWithinBudget(states: seq<State>, who: seq<nat>, what: seq<Action>, max: nat, n: nat,
                                           k: nat)
    requires Run(states, who, what, max) && states[0] == Initial(n) && k < |states|
    requires forall j :: 0 <= j < |what| ==> what[j].Add? ==> what[j].flags.NoFlags?
    ensures WithinBudget(states[k], max)
    decreases k
  {
    if k == 0 {
      InitialSum(t => Granted(t, max), states[0].threads);
    } else {
      RunWithinBudget(states, who, what, max, n, k - 1);
      RunConserves(states, who, what, max, n, k - 1);
      assert StepAt(states, who, what, max, k - 1);
      StepWithinBudget(states[k - 1], states[k], max, who[k - 1], what[k - 1]);
    }
  }

  function Held(t: Thread): int { t.held }

  /** What a reservation holds, less what a commit has already taken from the counter. */
  function Owned(t: Thread): int { t.held - if t.pc.Committed? then t.pc.actual else 0 }

  /** What the reservations own never exceeds the budget; what they hold does not either
      unless a commit is between its two writes. */
  lemma HeldWithinBudget(s: State, max: nat)
    requires Claims(s, max) <= max
    ensures Sum(Owned, s.threads) <= max
    ensures (forall i :: 0 <= i < |s.threads| ==> !s.threads[i].pc.Committed?) ==> Sum(Held, s.threads) <= max
  {
    SumBound(Owned, t => Granted(t, max), s.threads);
    if forall i :: 0 <= i < |s.threads| ==> !s.threads[i].pc.Committed? {
      SumBound(Held, t => Granted(t, max), s.threads);
    }
  }

  lemma SumTwo(f: Thread -> int, a: Thread, b: Thread)
    ensures Sum(f, [a, b]) == f(a) + f(b)
  {
    assert [a, b][..1] == [a] && [a][..0] == [];
    assert Sum(f, [a]) == f(a);
  }

  /** Then it can, up to twice the budget: the counter is lowered first, another thread takes
      what became free, and the reservation is lowered last. */
  lemma CommitOverruns(max: nat) returns (states: seq<State>, who: seq<nat>, what: seq<Action>)
    requires max > 0
    ensures Run(states, who, what, max) && states[0] == Initial(2)
    ensures forall j :: 0 <= j < |what| ==> what[j].Add? ==> what[j].flags.NoFlags?
    ensures Sum(Held, states[|states| - 1].threads) == 2 * max
  {
    var idle, h, c := Thread(Idle, 0), Thread(Idle, max), Thread(Committed(max), max);
    var r := Thread(Raised(max, 0, NoFlags), 0);
    states := [State(0, [idle, idle]), State(max, [r, idle]), State(max, [h, idle]), State(0, [c, idle]),
               State(max, [c, r]), State(max, [c, h])];
    who := [0, 0, 0, 1, 1];
    what := [Add(max, NoFlags), Continue, Commit(max), Add(max, NoFlags), Continue];
    assert states[0] == Initial(2);
    forall k | 0 <= k < |who| ensures StepAt(states, who, what, max, k) {}
    SumTwo(Held, c, h);
  }

  /** With partial reservations two threads can go past the budget: both see the same room
      and both take all of it. */
  lemma PartialOverruns(max: nat) returns (states: seq<State>, who: seq<nat>, what: seq<Action>)
    requires max > 0
    ensures Run(states, who, what, max) && states[0] == Initial(2)
    ensures forall j :: 0 <= j < |what| ==> what[j].Add? ==> what[j].flags.Partial?
    ensures Sum(Held, states[|states| - 1].threads) == 2 * max
  {
    var m := max + 1;
    var idle, r, f, d :=
      Thread(Idle, 0), Thread(Raised(m, 0, Partial), 0), Thread(Refilling(max), 0), Thread(Refilled(max), 0);
    var h := Thread(Idle, max);
    states := [State(0, [idle, idle]), State(m, [r, idle]), State(0, [f, idle]), State(m, [f, r]), State(0, [f, f]),
               State(max, [d, f]), State(2 * max, [d, d]), State(2 * max, [h, d]), State(2 * max, [h, h])];
    who := [0, 0, 1, 1, 0, 1, 0, 1];
    what := [Add(m, Partial), Continue, Add(m, Partial), Continue, Continue, Continue, Continue, Continue];
    assert states[0] == Initial(2);
    forall k | 0 <= k < |who| ensures StepAt(states, who, what, max, k) {}
    SumTwo(Held, h, h);
  }

  // ---- partial reservations that do not meet ----

  /** A partial add that found too little room and has not yet taken what there was. */
  predicate Short(t: Thread, max: nat) {
    || t.pc.Refilling?
    || (t.pc.Raised? && t.pc.flags.Partial? && t.pc.current < max < t.pc.current + t.pc.sectors)
  }

  /** The room a thread that came up short has seen. */
  function Seen(t: Thread, max: nat): int
    requires Short(t, max)
  {
    if t.pc.Refilling? then max - t.pc.available else t.pc.current
  }

  /** What is granted stays within the budget, at most one thread is short, and since it
      looked nothing more was granted than it saw. */
  ghost predicate Orderly(s: State, max: nat) {
    && Claims(s, max) <= max
    && (forall i :: 0 <= i < |s.threads| ==> !(s.threads[i].pc.Raised? && s.threads[i].pc.flags.Nofail?))
    && (forall i, j :: 0 <= i < |s.threads| && 0 <= j < |s.threads| ==>
          Short(s.threads[i], max) && Short(s.threads[j], max) ==> i == j)
    && (forall i :: 0 <= i < |s.threads| && Short(s.threads[i], max) ==> Claims(s, max) <= Seen(s.threads[i], max))
  }

  /** The operation begins no add while some partial add of another thread is short. */
  ghost predicate Waits(s: State, max: nat, a: Action) {
    a.Add? && a.sectors > 0 ==> !a.flags.Nofail? && forall i :: 0 <= i < |s.threads| ==> !Short(s.threads[i], max)
  }

  /** Only the thread that acts changes what is granted, and that never exceeds the counter. */
  lemma StepClaims(s: State, s': State, max: nat, i: nat, a: Action)
    requires Conserved(s) && Step(s, s', max, i, a)
    ensures Claims(s', max) == Claims(s, max) - Granted(s.threads[i], max) + Granted(s'.threads[i], max)
    ensures Claims(s, max) <= s.total
  {
    hide Act;
    var g := t => Granted(t, max);
    SumUpdate(g, s.threads, i, s'.threads[i]);
    SumBound(g, Share, s.threads);
  }

  /** Without Nofail a single operation exceeds the budget exactly if it takes, for a partial
      add, the room seen before while more was granted since. */
  lemma OverrunIff(s: State, s': State, max: nat, i: nat, a: Action)
    requires Conserved(s) && Claims(s, max) <= max && Step(s, s', max, i, a)
    requires !(a.Add? && a.flags.Nofail?) && !(s.threads[i].pc.Raised? && s.threads[i].pc.flags.Nofail?)
    ensures Claims(s', max) <= max <==>
            (s.threads[i].pc.Refilling? ==> Claims(s, max) <= Seen(s.threads[i], max))
  {
    hide Sum, Claims;
    StepClaims(s, s', max, i, a);
  }

  lemma StepOrderly(s: State, s': State, max: nat, i: nat, a: Action)
    requires Conserved(s) && Orderly(s, max) && Step(s, s', max, i, a) && Waits(s, max, a)
    ensures Orderly(s', max)
  {
    hide Sum, Claims, Conserved;
    StepClaims(s, s', max, i, a);
  }

  /** Partial reservations too stay within the budget in every run in which no add begins
      while a partial one is short. */
  lemma {:induction false} RunOrderly(states: seq<State>, who: seq<nat>, what: seq<Action>, max: nat, n: nat, k: nat)
    requires Run(states, who, what, max) && states[0] == Initial(n) && k < |states|
    requires forall j :: 0 <= j < |what| ==> Waits(states[j], max, what[j])
    ensures Orderly(states[k], max) && Sum(Owned, states[k].threads) <= max
    decreases k
  {
    if k == 0 {
      InitialSum(t => Granted(t, max), states[0].threads);
    } else {
      RunOrderly(states, who, what, max, n, k - 1);
      RunConserves(states, who, what, max, n, k - 1);
      assert StepAt(states, who, what, max, k - 1);
      StepOrderly(states[k - 1], states[k], max, who[k - 1], what[k - 1]);
    }
    HeldWithinBudget(states[k], max);
  }
}
