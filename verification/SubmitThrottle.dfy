/** The executor service's rule for making a submit synchronous: of rapid submits, every hundredth. The counter is
    a wrapping 32-bit integer. */
module SubmitThrottle {
  import Bytes

  const MIN_TIME_RESOLUTION_OF_CONSECUTIVE_SUBMITS: int := 10
  const MAX_CONSECUTIVE_SUBMITS: int := 100

  type int32 = x: int | -0x8000_0000 <= x <= 0x7FFF_FFFF

  function Wrap32(x: int): (r: int32)
    ensures -0x8000_0000 <= x <= 0x7FFF_FFFF ==> r == x
  {
    var u := x % 0x1_0000_0000;
    if u < 0x8000_0000 then u else u - 0x1_0000_0000
  }

  /** The remainder with the sign of the dividend. */
  function Remainder(x: int, d: int): (r: int)
    requires d > 0
    ensures x >= 0 ==> 0 <= r < d
    ensures x <= 0 ==> -d < r <= 0
  {
    if x >= 0 then x % d else -((-x) % d)
  }

  datatype State = State(submits: int32, last: int)

  datatype Call = Call(now: int, preventSync: bool)

  predicate Slow(s: State, c: Call) { s.last + MIN_TIME_RESOLUTION_OF_CONSECUTIVE_SUBMITS < c.now }

  function Next(s: State, c: Call): State {
    State(if Slow(s, c) then 0 else if c.preventSync then s.submits else Wrap32(s.submits + 1), c.now)
  }

  predicate IsSync(s: State, c: Call) {
    !Slow(s, c) && !c.preventSync && Remainder(s.submits, MAX_CONSECUTIVE_SUBMITS) == 0
  }

  class Submitter {
    var consecutiveSubmits: int32
    var lastSubmitTime: int

    constructor ()
      ensures consecutiveSubmits == 0 && lastSubmitTime == 0
    {
      consecutiveSubmits, lastSubmitTime := 0, 0;
    }

    method IsSyncComputation(now: int, preventSync: bool) returns (sync: bool)
      modifies this
      ensures var s := old(State(consecutiveSubmits, lastSubmitTime));
              && State(consecutiveSubmits, lastSubmitTime) == Next(s, Call(now, preventSync))
              && sync == IsSync(s, Call(now, preventSync))
      ensures sync <==> now <= old(lastSubmitTime) + 10 && !preventSync && old(consecutiveSubmits) % 100 == 0
      ensures lastSubmitTime == now
      ensures consecutiveSubmits ==
                if now > old(lastSubmitTime) + 10 then 0
                else if preventSync then old(consecutiveSubmits)
                else if old(consecutiveSubmits) == 0x7FFF_FFFF then -0x8000_0000
                else old(consecutiveSubmits) + 1
    {
      RemainderZero(consecutiveSubmits);
      WrapsOnce(consecutiveSubmits);
      hide Wrap32, Remainder;
      var last := lastSubmitTime;
      lastSubmitTime := now;
      if last + MIN_TIME_RESOLUTION_OF_CONSECUTIVE_SUBMITS < now {
        consecutiveSubmits := 0;
        return false;
      }
      if preventSync {
        return false;
      }
      sync := Remainder(consecutiveSubmits, MAX_CONSECUTIVE_SUBMITS) == 0;
      consecutiveSubmits := Wrap32(consecutiveSubmits as int + 1);
    }
  }

  // ----- Runs -----

  function After(s: State, cs: seq<Call>): State
    decreases |cs|
  {
    if cs == [] then s else After(Next(s, cs[0]), cs[1..])
  }

  /** Whether call i of a run is made synchronous. */
  predicate SyncAt(s: State, cs: seq<Call>, i: nat)
    requires i < |cs|
  {
    IsSync(After(s, cs[..i]), cs[i])
  }

  /** No call of the run comes more than ten milliseconds after the one before it. */
  predicate Rapid(s: State, cs: seq<Call>)
    decreases |cs|
  {
    cs != [] ==> !Slow(s, cs[0]) && Rapid(Next(s, cs[0]), cs[1..])
  }

  function Allowed(cs: seq<Call>): nat {
    if cs == [] then 0 else (if cs[0].preventSync then 0 else 1) + Allowed(cs[1..])
  }

  /** How many allowed rapid calls pass before one is synchronous. Across the wrap from 2147483647 to -2147483648
      the multiples of 100 are 96 apart instead of 100. */
  function Distance(c: int32): (d: nat)
    ensures d <= 99
    ensures d == 0 <==> c % 100 == 0
  {
    if c % 100 == 0 then 0
    else if c <= 2147483600 then 100 - c % 100
    else 2147483648 - c + 48
  }

  lemma RemainderZero(c: int32)
    ensures Remainder(c, 100) == 0 <==> Distance(c) == 0
  {
    if c < 0 {
      var q, r := c / 100, c % 100;
      if r == 0 {
        Bytes.DivModUnique(-(c as int), 100, -q, 0);
      } else {
        Bytes.DivModUnique(-(c as int), 100, -q - 1, 100 - r);
      }
    }
  }

  lemma NextResidue(c: int)
    ensures (c + 1) % 100 == if c % 100 == 99 then 0 else c % 100 + 1
  {
    var q, r := c / 100, c % 100;
    if r == 99 {
      Bytes.DivModUnique(c + 1, 100, q + 1, 0);
    } else {
      Bytes.DivModUnique(c + 1, 100, q, r + 1);
    }
  }

  /** The residues around the wrap. */
  lemma WrapResidues(c: int)
    ensures 2147483600 <= c <= 2147483647 ==> c % 100 == c - 2147483600
    ensures -0x8000_0000 % 100 == 52
  {
    if 2147483600 <= c <= 2147483647 {
      Bytes.DivModUnique(c, 100, 21474836, c - 2147483600);
    }
    Bytes.DivModUnique(-0x8000_0000, 100, -21474837, 52);
  }

  lemma WrapsOnce(c: int32)
    ensures Wrap32(c + 1) == if c == 0x7FFF_FFFF then -0x8000_0000 else c + 1
  {}

  lemma DistanceShrinks(c: int32)
    requires Distance(c) > 0
    ensures Distance(Wrap32(c + 1)) == Distance(c) - 1
  {
    hide Wrap32;
    NextResidue(c);
    WrapResidues(c);
    WrapResidues(c + 1);
    WrapsOnce(c);
  }

  /** Any run of rapid calls in which a hundred are allowed to be synchronous contains a synchronous one, wherever
      the counter stands, across its wrap, and however many prevented calls are mixed in. */
  lemma {:induction false} SyncAmongHundred(s: State, cs: seq<Call>)
    requires Rapid(s, cs) && Allowed(cs) > Distance(s.submits)
    ensures exists i :: 0 <= i < |cs| && SyncAt(s, cs, i)
    decreases |cs|
  {
    RemainderZero(s.submits);
    if IsSync(s, cs[0]) {
      assert cs[..0] == [];
      assert SyncAt(s, cs, 0);
    } else {
      var s1 := Next(s, cs[0]);
      if !cs[0].preventSync {
        DistanceShrinks(s.submits);
      }
      SyncAmongHundred(s1, cs[1..]);
      var i :| 0 <= i < |cs[1..]| && SyncAt(s1, cs[1..], i);
      assert cs[..i + 1][1..] == cs[1..][..i];
      assert SyncAt(s, cs, i + 1);
    }
  }

  /** Exactly which calls of a rapid run are synchronous: the allowed ones at which the counter, started anywhere
      and wrapping, is a multiple of 100. */
  lemma {:induction false} SyncExactly(s: State, cs: seq<Call>, i: nat)
    requires Rapid(s, cs) && i < |cs|
    ensures SyncAt(s, cs, i) <==> !cs[i].preventSync && Distance(Wrap32(s.submits + Allowed(cs[..i]))) == 0
    decreases i
  {
    hide Distance, Wrap32, Remainder;
    if i == 0 {
      assert cs[..0] == [];
      RemainderZero(s.submits);
    } else {
      var s1, rest := Next(s, cs[0]), cs[1..];
      assert cs[..i][1..] == rest[..i - 1];
      SyncExactly(s1, rest, i - 1);
      WrapAgain(s.submits, if cs[0].preventSync then 0 else 1, Allowed(rest[..i - 1]));
    }
  }

  lemma WrapAgain(c: int, a: int, b: int)
    ensures Wrap32(Wrap32(c + a) + b) == Wrap32(c + (a + b))
  {
    var x := c + a;
    var k := if x % 0x1_0000_0000 < 0x8000_0000 then x / 0x1_0000_0000 else x / 0x1_0000_0000 + 1;
    assert Wrap32(x) == x - k * 0x1_0000_0000;
    WholeTurns(x + b, k);
  }

  lemma WholeTurns(y: int, k: int)
    ensures (y - k * 0x1_0000_0000) % 0x1_0000_0000 == y % 0x1_0000_0000
  {}

  // ----- Runs with slow calls -----

  /** When the call before call i was made. */
  function TimeBefore(s: State, cs: seq<Call>, i: nat): int
    requires i < |cs|
  {
    if i == 0 then s.last else cs[i - 1].now
  }

  predicate SlowAt(s: State, cs: seq<Call>, i: nat)
    requires i < |cs|
  {
    cs[i].now > TimeBefore(s, cs, i) + 10
  }

  lemma {:induction false} AfterAppend(s: State, cs: seq<Call>, c: Call)
    ensures After(s, cs + [c]) == Next(After(s, cs), c)
    decreases |cs|
  {
    hide Next;
    if cs == [] {
      assert cs + [c] == [c] && [c][1..] == [];
    } else {
      assert (cs + [c])[1..] == cs[1..] + [c];
      AfterAppend(Next(s, cs[0]), cs[1..], c);
    }
  }

  lemma {:induction false} AllowedAppend(cs: seq<Call>, c: Call)
    ensures Allowed(cs + [c]) == Allowed(cs) + if c.preventSync then 0 else 1
  {
    if cs == [] {
      assert cs + [c] == [c] && [c][1..] == [];
    } else {
      assert (cs + [c])[1..] == cs[1..] + [c];
      AllowedAppend(cs[1..], c);
    }
  }

  /** One call further. */
  lemma AfterNext(s: State, cs: seq<Call>, i: nat)
    requires i < |cs|
    ensures After(s, cs[..i + 1]) == Next(After(s, cs[..i]), cs[i])
    ensures After(s, cs[..i]).last == TimeBefore(s, cs, i)
  {
    assert cs[..i + 1] == cs[..i] + [cs[i]];
    AfterAppend(s, cs[..i], cs[i]);
    if i > 0 {
      assert cs[..i] == cs[..i - 1] + [cs[i - 1]];
      AfterAppend(s, cs[..i - 1], cs[i - 1]);
    } else {
      assert cs[..0] == [];
    }
  }

  /** The counter counts the allowed calls since the last slow one, and wraps. */
  lemma {:induction false} CounterSinceSlow(s: State, cs: seq<Call>, j: nat, i: nat)
    requires j < i <= |cs| && SlowAt(s, cs, j) && forall k :: j < k < i ==> !SlowAt(s, cs, k)
    ensures After(s, cs[..i]).submits == Wrap32(Allowed(cs[j + 1..i]))
    decreases i
  {
    hide Wrap32, After, Allowed;
    AfterNext(s, cs, i - 1);
    if i == j + 1 {
      assert cs[j + 1..i] == [];
      NoneAllowed();
    } else {
      CounterSinceSlow(s, cs, j, i - 1);
      assert !SlowAt(s, cs, i - 1);
      var n := Allowed(cs[j + 1..i - 1]);
      assert cs[j + 1..i] == cs[j + 1..i - 1] + [cs[i - 1]];
      AllowedAppend(cs[j + 1..i - 1], cs[i - 1]);
      WrapAgain(n, 0, 1);
    }
  }

  lemma NoneAllowed()
    ensures Allowed([]) == 0 && Wrap32(0) == 0
  {}

  /** Exactly which calls are synchronous in a run with slow calls: those that are allowed, come at most 10 ms after
      the call before, and at which the number of allowed calls since the last slow one, as a wrapping 32-bit
      integer, is a multiple of 100. */
  lemma SyncSinceSlow(s: State, cs: seq<Call>, j: nat, i: nat)
    requires j < i < |cs| && SlowAt(s, cs, j) && forall k :: j < k < i ==> !SlowAt(s, cs, k)
    ensures var n := Allowed(cs[j + 1..i]);
            && (SyncAt(s, cs, i) <==>
                  !cs[i].preventSync && cs[i].now <= cs[i - 1].now + 10 && Wrap32(n) % 100 == 0)
            && (n < 0x8000_0000 ==> Wrap32(n) == n)
  {
    hide Wrap32, After, Allowed, Distance, Remainder;
    var n := Allowed(cs[j + 1..i]);
    CounterSinceSlow(s, cs, j, i);
    AfterNext(s, cs, i);
    RemainderZero(Wrap32(n));
  }

  /** In particular, the first allowed call after a slow one is synchronous, unless it is slow itself. */
  lemma FirstAfterSlow(s: State, cs: seq<Call>, j: nat, i: nat)
    requires j < i < |cs| && SlowAt(s, cs, j) && forall k :: j < k <= i ==> !SlowAt(s, cs, k)
    requires !cs[i].preventSync && forall k :: j < k < i ==> cs[k].preventSync
    ensures SyncAt(s, cs, i)
  {
    hide Wrap32, After, SyncAt;
    SyncSinceSlow(s, cs, j, i);
    AllPrevented(cs[j + 1..i]);
    NoneAllowed();
    assert !SlowAt(s, cs, i);
  }

  lemma {:induction false} AllPrevented(cs: seq<Call>)
    requires forall k :: 0 <= k < |cs| ==> cs[k].preventSync
    ensures Allowed(cs) == 0
  {
    if cs != [] {
      AllPrevented(cs[1..]);
    }
  }

  /** A slow call is never synchronous. */
  lemma SlowNeverSync(s: State, cs: seq<Call>, i: nat)
    requires i < |cs| && SlowAt(s, cs, i)
    ensures !SyncAt(s, cs, i)
  {
    AfterNext(s, cs, i);
    hide After;
  }
}
