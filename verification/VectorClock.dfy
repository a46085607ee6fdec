/** Vector clocks: the causal comparison, and the clock that a PN counter proxy observes, which many threads
    update through a compare-and-set loop. */
module VectorClock {

  type Uuid = nat
  type Clock = map<Uuid, int>

  // ----- The order -----

  /** a has every replica of b, with at least b's timestamp. */
  ghost predicate Covers(a: Clock, b: Clock) {
    forall k :: k in b ==> k in a && a[k] >= b[k]
  }

  /** a is causally strictly after b. */
  ghost predicate After(a: Clock, b: Clock) {
    Covers(a, b) && a != b
  }

  ghost predicate Comparable(a: Clock, b: Clock) {
    a == b || After(a, b) || After(b, a)
  }

  lemma CoversOrder(a: Clock, b: Clock, c: Clock)
    ensures Covers(a, a)
    ensures Covers(a, b) && Covers(b, c) ==> Covers(a, c)
    ensures Covers(a, b) && Covers(b, a) ==> a == b
  {
    if Covers(a, b) && Covers(b, a) {
      assert a.Keys == b.Keys;
    }
  }

  /** A strict partial order. */
  lemma AfterOrder(a: Clock, b: Clock, c: Clock)
    ensures !After(a, a)
    ensures After(a, b) ==> !After(b, a)
    ensures After(a, b) && After(b, c) ==> After(a, c)
  {
    CoversOrder(a, b, c);
    CoversOrder(a, b, a);
  }

  /** Along a chain of clocks, each after the one before, no replica disappears and no timestamp decreases. */
  lemma {:induction false} ChainMonotone(chain: seq<Clock>, i: nat, j: nat)
    requires forall n :: 0 < n < |chain| ==> After(chain[n], chain[n - 1])
    requires i <= j < |chain|
    ensures Covers(chain[j], chain[i])
    decreases j - i
  {
    if i < j {
      ChainMonotone(chain, i, j - 1);
      CoversOrder(chain[j], chain[j - 1], chain[i]);
    }
  }

  // ----- The class -----

  /** Entry i is the last one of its replica. */
  predicate IsLast(entries: seq<(Uuid, int)>, i: nat)
    requires i < |entries|
  {
    forall j :: i < j < |entries| ==> entries[j].0 != entries[i].0
  }

  /** The clock has the replicas of the entries, each with the timestamp of its last entry. */
  ghost predicate Reflects(clock: Clock, entries: seq<(Uuid, int)>) {
    && (forall k :: k in clock <==> exists i :: 0 <= i < |entries| && entries[i].0 == k)
    && (forall i :: 0 <= i < |entries| && IsLast(entries, i) ==>
          entries[i].0 in clock && clock[entries[i].0] == entries[i].1)
  }

  lemma ReflectsMeans(clock: Clock, entries: seq<(Uuid, int)>)
    requires Reflects(clock, entries)
    ensures forall k :: k in clock <==> exists i :: 0 <= i < |entries| && entries[i].0 == k
    ensures forall i :: 0 <= i < |entries| && (forall j :: i < j < |entries| ==> entries[j].0 != entries[i].0) ==>
              entries[i].0 in clock && clock[entries[i].0] == entries[i].1
  {
    assert forall i :: 0 <= i < |entries| && (forall j :: i < j < |entries| ==> entries[j].0 != entries[i].0) ==>
             IsLast(entries, i);
  }

  lemma ReflectsNothing()
    ensures Reflects(map[], [])
  {}

  lemma ReflectsNext(clock: Clock, entries: seq<(Uuid, int)>, e: (Uuid, int))
    requires Reflects(clock, entries)
    ensures Reflects(clock[e.0 := e.1], entries + [e])
  {
    var n, es := |entries|, entries + [e];
    var c := clock[e.0 := e.1];
    assert es[n].0 == e.0;
    forall k
      ensures k in c <==> exists i :: 0 <= i < |es| && es[i].0 == k
    {
      if k in clock {
        var i :| 0 <= i < n && entries[i].0 == k;
        assert es[i].0 == k;
      }
    }
    forall i | 0 <= i < |es| && IsLast(es, i)
      ensures es[i].0 in c && c[es[i].0] == es[i].1
    {
      if i < n {
        assert es[n].0 != es[i].0;
        assert forall j :: i < j < n ==> es[j] == entries[j];
        assert IsLast(entries, i);
      }
    }
  }

  class VectorClock {
    const entries: seq<(Uuid, int)>
    var timestamps: Clock

    constructor (replicaLogicalTimestamps: seq<(Uuid, int)>)
      ensures entries == replicaLogicalTimestamps
      ensures forall k :: k in timestamps <==>
                exists i :: 0 <= i < |replicaLogicalTimestamps| && replicaLogicalTimestamps[i].0 == k
      ensures var es := replicaLogicalTimestamps;
              forall i :: 0 <= i < |es| && (forall j :: i < j < |es| ==> es[j].0 != es[i].0) ==>
                es[i].0 in timestamps && timestamps[es[i].0] == es[i].1
    {
      entries := replicaLogicalTimestamps;
      timestamps := map[];
      new;
      hide Reflects, IsLast;
      ReflectsNothing();
      assert replicaLogicalTimestamps[..0] == [];
      var n := 0;
      while n < |replicaLogicalTimestamps|
        invariant 0 <= n <= |replicaLogicalTimestamps|
        invariant Reflects(timestamps, replicaLogicalTimestamps[..n])
      {
        ReflectsNext(timestamps, replicaLogicalTimestamps[..n], replicaLogicalTimestamps[n]);
        assert replicaLogicalTimestamps[..n + 1] == replicaLogicalTimestamps[..n] + [replicaLogicalTimestamps[n]];
        timestamps := timestamps[replicaLogicalTimestamps[n].0 := replicaLogicalTimestamps[n].1];
        n := n + 1;
      }
      assert replicaLogicalTimestamps[..n] == replicaLogicalTimestamps;
      ReflectsMeans(timestamps, replicaLogicalTimestamps);
    }

    method GetTimestampForReplica(replicaId: Uuid) returns (found: bool, timestamp: int)
      ensures found <==> replicaId in timestamps
      ensures timestamp == if found then timestamps[replicaId] else -1
    {
      if replicaId !in timestamps {
        return false, -1;
      }
      return true, timestamps[replicaId];
    }

    /** Causally after, whatever the order in which the other clock's replicas are visited. */
    method IsAfter(other: VectorClock) returns (r: bool)
      ensures r <==> After(timestamps, other.timestamps)
    {
      var a, b := timestamps, other.timestamps;
      var anyTimestampGreater := false;
      var remaining := b.Keys;
      while remaining != {}
        invariant remaining <= b.Keys
        invariant forall k :: k in b && k !in remaining ==> k in a && a[k] >= b[k]
        invariant anyTimestampGreater <==> exists k :: k in b && k !in remaining && a[k] > b[k]
        decreases remaining
      {
        var replicaId :| replicaId in remaining;
        var found, timestamp := GetTimestampForReplica(replicaId);
        if !found || timestamp < b[replicaId] {
          return false;
        } else if timestamp > b[replicaId] {
          anyTimestampGreater := true;
        }
        remaining := remaining - {replicaId};
      }
      SizeDecides(a, b);
      return anyTimestampGreater || |b| < |a|;
    }
  }

  lemma SizeDecides(a: Clock, b: Clock)
    requires Covers(a, b)
    ensures a != b <==> (exists k :: k in b && a[k] > b[k]) || |b| < |a|
  {
    assert a.Keys == b.Keys + (a.Keys - b.Keys);
    assert |a.Keys| == |b.Keys| + |a.Keys - b.Keys|;
    if a.Keys == b.Keys {
      if forall k :: k in b ==> a[k] <= b[k] {
        assert a == b;
      }
    } else {
      var k :| k in a && k !in b;
      assert k in a.Keys - b.Keys;
    }
  }

  // ----- The observed clock of a PN counter -----

  /** Threads are numbered in order of arrival; each brings one received clock. */
  datatype Thread = Start | Trying(seen: Source) | Finished

  /** Which object the observed clock is: the one set initially, or the one that a thread installed. */
  datatype Source = Initial | By(thread: nat)

  datatype State = State(initial: Clock, received: seq<Clock>, threads: seq<Thread>, observed: Source)

  datatype Event =
    | Arrive(received: Clock)   // a response delivers a clock; its thread enters the loop
    | Load(t: nat)              // read the observed clock and compare
    | CompareAndSet(t: nat)

  ghost predicate Valid(s: State) {
    && |s.threads| == |s.received|
    && (s.observed.By? ==> s.observed.thread < |s.received|)
    && (forall t :: 0 <= t < |s.threads| && s.threads[t].Trying? && s.threads[t].seen.By? ==>
          s.threads[t].seen.thread < |s.received|)
  }

  ghost function ClockOf(s: State, src: Source): Clock
    requires src.By? ==> src.thread < |s.received|
  {
    if src.Initial? then s.initial else s.received[src.thread]
  }

  ghost function Observed(s: State): Clock
    requires Valid(s)
  {
    ClockOf(s, s.observed)
  }

  ghost function Step(s: State, e: Event): State
    requires Valid(s)
  {
    match e
    case Arrive(r) => s.(received := s.received + [r], threads := s.threads + [Start])
    case Load(t) =>
      if t >= |s.threads| || !s.threads[t].Start? then s
      else if After(Observed(s), s.received[t]) then s.(threads := s.threads[t := Finished])
      else s.(threads := s.threads[t := Trying(s.observed)])
    case CompareAndSet(t) =>
      if t >= |s.threads| || !s.threads[t].Trying? then s
      else if s.threads[t].seen == s.observed then s.(threads := s.threads[t := Finished], observed := By(t))
      else s.(threads := s.threads[t := Start])
  }

  lemma StepValid(s: State, e: Event)
    requires Valid(s)
    ensures Valid(Step(s, e)) && Step(s, e).initial == s.initial && s.received <= Step(s, e).received
  {}

  ghost function Run(s: State, es: seq<Event>): (t: State)
    requires Valid(s)
    ensures Valid(t)
    decreases |es|
  {
    StepValid(s, if es == [] then Arrive(map[]) else es[0]);
    if es == [] then s else Run(Step(s, es[0]), es[1..])
  }

  /** A thread that is about to write has seen a clock that is not after its own. */
  ghost predicate Justified(s: State)
    requires Valid(s)
  {
    forall t :: 0 <= t < |s.threads| && s.threads[t].Trying? ==> !After(ClockOf(s, s.threads[t].seen), s.received[t])
  }

  lemma JustifiedStep(s: State, e: Event)
    requires Valid(s) && Justified(s)
    ensures Valid(Step(s, e)) && Justified(Step(s, e))
    ensures Observed(Step(s, e)) != Observed(s) ==> !After(Observed(s), Observed(Step(s, e)))
  {
    hide After;
    StepValid(s, e);
    var s' := Step(s, e);
    forall t | 0 <= t < |s'.threads| && s'.threads[t].Trying?
      ensures !After(ClockOf(s', s'.threads[t].seen), s'.received[t])
    {
      assert t < |s.threads| && s'.received[t] == s.received[t];
    }
  }

  /** The observed clock is never replaced by one it is after. Replacing it keeps every replica's timestamp
      if and only if the two clocks are comparable: a concurrent clock makes the proxy forget. */
  lemma ReplacementKeepsTimestamps(s: State, e: Event)
    requires Valid(s) && Justified(s)
    ensures Valid(Step(s, e))
    ensures Covers(Observed(Step(s, e)), Observed(s)) <==> Comparable(Observed(s), Observed(Step(s, e)))
  {
    JustifiedStep(s, e);
    var o, n := Observed(s), Observed(Step(s, e));
    CoversOrder(o, n, o);
    AfterOrder(o, n, o);
  }

  /** Exactly when it forgets: two responses, one after the other, leave the first one's clock covered if and only
      if the two clocks are comparable. */
  lemma ConcurrentClockForgets(c: Clock, d: Clock) returns (es: seq<Event>)
    ensures var s := Run(State(map[], [], [], Initial), es);
            && s.received == [c, d] && s.threads == [Finished, Finished]
            && (Covers(Observed(s), c) <==> Comparable(c, d))
  {
    var s0 := State(map[], [], [], Initial);
    var es1, es2, s1, s2;
    assert !After(map[], c) by { CoversOrder(map[], c, c); }
    es1, s1 := OneThread(s0, c, 0);
    es2, s2 := OneThread(s1, d, 1);
    es := es1 + es2;
    RunAppend(s0, es1, es2);
    CoversOrder(c, d, c);
    CoversOrder(d, c, d);
  }

  /** A thread that runs alone installs its clock unless the observed one is after it. */
  lemma OneThread(s: State, c: Clock, t: nat) returns (es: seq<Event>, s': State)
    requires Valid(s) && t == |s.threads|
    ensures s' == State(s.initial, s.received + [c], s.threads + [Finished],
                        if After(Observed(s), c) then s.observed else By(t))
    ensures Valid(s') && s' == Run(s, es)
  {
    hide After;
    var s1 := Step(s, Arrive(c));
    StepValid(s, Arrive(c));
    assert Observed(s1) == Observed(s);
    var s2 := Step(s1, Load(t));
    StepValid(s1, Load(t));
    es := [Arrive(c), Load(t)];
    s' := s2;
    RunTwo(s, Arrive(c), Load(t));
    if !After(Observed(s), c) {
      s' := Step(s2, CompareAndSet(t));
      StepValid(s2, CompareAndSet(t));
      RunAppend(s, es, [CompareAndSet(t)]);
      assert [CompareAndSet(t)][1..] == [];
      assert Run(s2, [CompareAndSet(t)]) == Run(s', []);
      es := es + [CompareAndSet(t)];
    }
    assert s'.threads == s.threads + [Finished];
  }

  lemma RunTwo(s: State, e: Event, f: Event)
    requires Valid(s)
    ensures Valid(Step(s, e)) && Run(s, [e, f]) == Step(Step(s, e), f)
  {
    hide Step;
    StepValid(s, e);
    StepValid(Step(s, e), f);
    assert [e, f][1..] == [f] && [f][1..] == [];
    assert Run(Step(s, e), [f]) == Run(Step(Step(s, e), f), []);
  }

  lemma {:induction false} RunAppend(s: State, es: seq<Event>, fs: seq<Event>)
    requires Valid(s)
    ensures Run(s, es + fs) == Run(Run(s, es), fs)
    decreases |es|
  {
    if es == [] {
      assert es + fs == fs;
    } else {
      assert (es + fs)[1..] == es[1..] + fs;
      StepValid(s, es[0]);
      RunAppend(Step(s, es[0]), es[1..], fs);
    }
  }

  ghost predicate Chain(s: State) {
    && (forall c, d :: c in s.received && d in s.received ==> Comparable(c, d))
    && (forall c :: c in s.received ==> Comparable(s.initial, c))
  }

  /** Every thread that has finished is reflected in the observed clock. */
  ghost predicate Reflected(s: State)
    requires Valid(s)
  {
    forall t :: 0 <= t < |s.threads| && s.threads[t].Finished? ==> Covers(Observed(s), s.received[t])
  }

  lemma ChainEarlier(s: State, e: Event)
    requires Valid(s) && Chain(Step(s, e))
    ensures Chain(s)
  {
    StepValid(s, e);
    assert forall c :: c in s.received ==> c in Step(s, e).received;
  }

  lemma ChainObserved(s: State, src: Source, src': Source)
    requires Chain(s) && (src.By? ==> src.thread < |s.received|) && (src'.By? ==> src'.thread < |s.received|)
    ensures Comparable(ClockOf(s, src), ClockOf(s, src'))
  {
    assert src.By? ==> s.received[src.thread] in s.received;
    assert src'.By? ==> s.received[src'.thread] in s.received;
  }

  lemma MonotoneStep(s: State, e: Event)
    requires Valid(s) && Justified(s) && Reflected(s) && Chain(Step(s, e))
    ensures Valid(Step(s, e)) && Covers(Observed(Step(s, e)), Observed(s)) && Reflected(Step(s, e))
  {
    hide Comparable, After, Covers, Reflected, Chain, Justified;
    var s' := Step(s, e);
    JustifiedStep(s, e);
    ReplacementKeepsTimestamps(s, e);
    assert Observed(s) == ClockOf(s', s.observed);
    ChainObserved(s', s.observed, s'.observed);
    ReflectedStep(s, e);
  }

  lemma ReflectedStep(s: State, e: Event)
    requires Valid(s) && Reflected(s) && Valid(Step(s, e)) && Covers(Observed(Step(s, e)), Observed(s))
    ensures Reflected(Step(s, e))
  {
    hide Covers;
    var s' := Step(s, e);
    forall t | 0 <= t < |s'.threads| && s'.threads[t].Finished?
      ensures Covers(Observed(s'), s'.received[t])
    {
      CoversOrder(Observed(s'), Observed(s), s'.received[t]);
    }
  }

  /** If the received clocks are pairwise comparable, then over every interleaving of the threads no replica's
      observed timestamp decreases, and every finished update is covered by the observed clock. */
  lemma {:induction false} ObservedMonotone(s: State, es: seq<Event>)
    requires Valid(s) && Justified(s) && Reflected(s) && Chain(Run(s, es))
    ensures Covers(Observed(Run(s, es)), Observed(s)) && Reflected(Run(s, es)) && Chain(s)
    decreases |es|
  {
    if es == [] {
      CoversOrder(Observed(s), Observed(s), Observed(s));
    } else {
      var s' := Step(s, es[0]);
      JustifiedStep(s, es[0]);
      ChainBack(s', es[1..]);
      ChainEarlier(s, es[0]);
      MonotoneStep(s, es[0]);
      ObservedMonotone(s', es[1..]);
      CoversOrder(Observed(Run(s, es)), Observed(s'), Observed(s));
    }
  }

  lemma {:induction false} ChainBack(s: State, es: seq<Event>)
    requires Valid(s) && Chain(Run(s, es))
    ensures Chain(s)
    decreases |es|
  {
    if es != [] {
      StepValid(s, es[0]);
      ChainBack(Step(s, es[0]), es[1..]);
      ChainEarlier(s, es[0]);
    }
  }
}
