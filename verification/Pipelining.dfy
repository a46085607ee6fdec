/** Pipelining: a bound on the number of unfinished requests, by waiting before each add. Time only moves forward;
    every look at a future happens at some later time than the one before, so futures may finish at any point,
    also between the two scans. */
module Pipelining {

  /** A request's result and the time at which it is there. */
  datatype Future<E> = Future(value: E, doneAt: nat) {
    predicate IsReady(t: nat) { doneAt <= t }
  }

  ghost function Unfinished<E>(fs: seq<Future<E>>, t: nat): nat {
    if fs == [] then 0
    else Unfinished(fs[..|fs| - 1], t) + if fs[|fs| - 1].IsReady(t) then 0 else 1
  }

  lemma {:induction false} UnfinishedShrinks<E>(fs: seq<Future<E>>, t: nat, u: nat)
    requires t <= u
    ensures Unfinished(fs, u) <= Unfinished(fs, t) <= |fs|
    ensures (exists i :: 0 <= i < |fs| && !fs[i].IsReady(t) && fs[i].IsReady(u)) ==>
              Unfinished(fs, u) < Unfinished(fs, t)
    ensures (forall i :: 0 <= i < |fs| ==> fs[i].IsReady(t)) ==> Unfinished(fs, t) == 0
  {
    if fs != [] {
      var n := |fs| - 1;
      UnfinishedShrinks(fs[..n], t, u);
      if i :| 0 <= i < |fs| && !fs[i].IsReady(t) && fs[i].IsReady(u) {
        if i < n {
          assert fs[..n][i] == fs[i];
        }
      }
    }
  }

  lemma UnfinishedWith<E>(fs: seq<Future<E>>, f: Future<E>, t: nat)
    ensures Unfinished(fs + [f], t) == Unfinished(fs, t) + if f.IsReady(t) then 0 else 1
  {
    assert (fs + [f])[..|fs|] == fs;
  }

  class Pipelining<E(0)> {
    const permits: int
    /** How much time passes between one look at a future and the next. */
    const delay: nat -> nat
    var futures: seq<Future<E>>
    var now: nat
    var looks: nat

    /** No more than `permits` added futures are unfinished, now or at any later time. */
    ghost predicate Valid()
      reads this
    {
      permits >= 1 && forall t: nat :: t >= now ==> Unfinished(futures, t) <= permits
    }

    /** No time passes between one look and the next; only waiting takes time. */
    ghost predicate Instant() { forall i :: delay(i) == 0 }

    constructor (depth: int, delay: nat -> nat)
      requires depth >= 1
      ensures Valid() && permits == depth && this.delay == delay && futures == [] && now == 0
    {
      permits := depth;
      this.delay := delay;
      looks := 0;
      futures := [];
      now := 0;
    }

    /** Null stands for the exception on a depth below 1. */
    static method Create(depth: int, delay: nat -> nat) returns (p: Pipelining?<E>)
      ensures p != null <==> depth >= 1
      ensures p != null ==> fresh(p) && p.Valid() && p.permits == depth && p.delay == delay
                            && p.futures == [] && p.now == 0
    {
      if depth < 1 {
        return null;
      }
      p := new Pipelining<E>(depth, delay);
    }

    /** Time passes. */
    method Tick()
      modifies this`now, this`looks
      ensures now >= old(now) && (Instant() ==> now == old(now))
    {
      now := now + delay(looks);
      looks := looks + 1;
    }

    /** Waits until at least one of the futures is ready. */
    method WhenAny(fs: seq<Future<E>>)
      requires fs != []
      modifies this`now, this`looks
      ensures now >= old(now) && exists i :: 0 <= i < |fs| && fs[i].IsReady(now)
    {
      var i: nat :| i < |fs|;
      if now < fs[i].doneAt {
        now := fs[i].doneAt;
      }
      Tick();
      assert fs[i].IsReady(now);
    }

    method WhenAll(fs: seq<Future<E>>)
      modifies this`now, this`looks
      ensures now >= old(now) && forall i :: 0 <= i < |fs| ==> fs[i].IsReady(now)
    {
      var i := 0;
      while i < |fs|
        invariant 0 <= i <= |fs| && now >= old(now)
        invariant forall j :: 0 <= j < i ==> fs[j].IsReady(now)
      {
        if now < fs[i].doneAt {
          now := fs[i].doneAt;
        }
        i := i + 1;
      }
      Tick();
    }

    /** Counts the unfinished futures, one look at a time. */
    method CountUsed() returns (usedPermits: int)
      modifies this`now, this`looks
      ensures now >= old(now) && (Instant() ==> now == old(now))
      ensures Unfinished(futures, now) <= usedPermits <= Unfinished(futures, old(now))
    {
      usedPermits := 0;
      var i := 0;
      while i < |futures|
        invariant 0 <= i <= |futures| && now >= old(now) && (Instant() ==> now == old(now))
        invariant Unfinished(futures[..i], now) <= usedPermits <= Unfinished(futures[..i], old(now))
      {
        ghost var before := now;
        Tick();
        UnfinishedShrinks(futures[..i], before, now);
        assert futures[..i + 1][..i] == futures[..i];
        if !futures[i].IsReady(now) {
          usedPermits := usedPermits + 1;
        }
        i := i + 1;
      }
      assert futures[..i] == futures;
    }

    /** Collects the futures that look unfinished, one look at a time. */
    method Outstanding() returns (outstanding: seq<Future<E>>)
      modifies this`now, this`looks
      ensures now >= old(now)
      ensures forall f :: f in outstanding ==> f in futures && !f.IsReady(old(now))
      ensures outstanding == [] ==> forall i :: 0 <= i < |futures| ==> futures[i].IsReady(now)
    {
      outstanding := [];
      var i := 0;
      while i < |futures|
        invariant 0 <= i <= |futures| && now >= old(now)
        invariant forall f :: f in outstanding ==> f in futures && !f.IsReady(old(now))
        invariant outstanding == [] ==> forall j :: 0 <= j < i ==> futures[j].IsReady(now)
      {
        Tick();
        if !futures[i].IsReady(now) {
          outstanding := outstanding + [futures[i]];
        }
        i := i + 1;
      }
    }

    /** Waits until there is room for one more. */
    method Down()
      requires Valid()
      modifies this`now, this`looks
      ensures Valid() && now >= old(now) && Unfinished(futures, now) < permits
      ensures Instant() && Unfinished(futures, old(now)) < permits ==> now == old(now)
    {
      ghost var start := now;
      var usedPermits := CountUsed();
      if usedPermits >= permits {
        ghost var middle := now;
        var outstanding := Outstanding();
        if outstanding != [] {
          WhenAny(outstanding);
          ghost var i :| 0 <= i < |outstanding| && outstanding[i].IsReady(now);
          assert outstanding[i] in outstanding;
          ghost var j :| 0 <= j < |futures| && futures[j] == outstanding[i];
          UnfinishedShrinks(futures, middle, now);
        } else {
          UnfinishedShrinks(futures, now, now);
        }
      }
    }

    /** Adds a future once there is room. The request behind it is under way already: at all times from the call
        on, the wait included, at most one more than the depth are unfinished, and that many exactly while the
        depth is used up by the others and the newcomer is unfinished too, which is over when the call returns. */
    method Add(future: Future<E>)
      requires Valid()
      modifies this
      ensures Valid() && futures == old(futures) + [future] && now >= old(now)
      ensures forall t: nat :: t >= old(now) ==>
                && Unfinished(futures, t) <= permits + 1
                && (Unfinished(futures, t) == permits + 1 <==> Unfinished(old(futures), t) == permits && !future.IsReady(t))
                && (Unfinished(futures, t) == permits + 1 ==> t < now)
      ensures Instant() && Unfinished(old(futures), old(now)) < permits ==> now == old(now)
    {
      ghost var before := futures;
      Down();
      futures := futures + [future];
      forall t: nat | t >= old(now)
        ensures Unfinished(before, t) <= permits && (t >= now ==> Unfinished(before, t) < permits)
        ensures Unfinished(futures, t) == Unfinished(before, t) + if future.IsReady(t) then 0 else 1
      {
        UnfinishedWith(before, future, t);
        if t >= now {
          UnfinishedShrinks(before, now, t);
        }
      }
    }

    /** The results of all futures, in the order in which they were added. */
    method Results() returns (result: seq<E>)
      requires Valid()
      modifies this`now, this`looks
      ensures |result| == |futures| && forall i :: 0 <= i < |futures| ==> result[i] == futures[i].value
      ensures Unfinished(futures, now) == 0 && now >= old(now)
    {
      WhenAll(futures);
      UnfinishedShrinks(futures, now, now);
      result := [];
      var i := 0;
      while i < |futures|
        invariant 0 <= i <= |futures| == |old(futures)| && |result| == i
        invariant forall j :: 0 <= j < i ==> result[j] == futures[j].value
      {
        result := result + [futures[i].value];
        i := i + 1;
      }
    }
  }

  /** For every depth the excess is reached: after as many adds as the depth admits, none of them finished, one
      more request makes one too many while its add waits. */
  method Overshoot<E(0)>(depth: int, value: E) returns (p: Pipelining<E>, newcomer: Future<E>)
    requires depth >= 1
    ensures fresh(p) && p.Valid() && p.permits == depth
    ensures |p.futures| == depth && Unfinished(p.futures + [newcomer], p.now) == depth + 1
  {
    p := new Pipelining<E>(depth, _ => 0);
    newcomer := Future(value, 1);
    var i := 0;
    while i < depth
      invariant fresh(p) && p.Valid() && p.permits == depth && p.Instant() && p.now == 0
      invariant 0 <= i <= depth && |p.futures| == i && Unfinished(p.futures, 0) == i
    {
      ghost var before := p.futures;
      p.Add(newcomer);
      UnfinishedWith(before, newcomer, 0);
      i := i + 1;
    }
    UnfinishedWith(p.futures, newcomer, 0);
  }
}
