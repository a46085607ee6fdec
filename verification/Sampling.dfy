/** Lazy sampling of a hash map's entries: from a random start, round and round, until enough samples have been
    returned. The map is the sequence of its entries in iteration order, and does not change meanwhile. */
module Sampling {
  import opened Bytes

  /** A key with its value, which may be null. */
  type Entry<K, V> = (K, Option<V>)

  predicate HasValue<K, V>(e: Entry<K, V>) { e.1.Some? }

  /** The entry at an index, or nothing past the end. */
  function GetEntry<K, V>(entries: seq<Entry<K, V>>, index: nat): Option<Entry<K, V>> {
    if index < |entries| then Some(entries[index]) else None
  }

  function NextIndex(i: nat, n: nat): nat
    requires i < n
  {
    if i + 1 < n then i + 1 else 0
  }

  /** No two neighbouring entries, round the end, both have null values. */
  ghost predicate NoAdjacentNulls<K, V>(entries: seq<Entry<K, V>>) {
    forall i :: 0 <= i < |entries| ==> HasValue(entries[i]) || HasValue(entries[NextIndex(i, |entries|)])
  }

  ghost function Position(start: nat, k: nat, n: nat): (p: nat)
    requires n > 0
    ensures p < n
  {
    (start + k) % n
  }

  /** The entry returned as sample k: the one in turn, or its neighbour if the value is null. */
  ghost function SampleIndex<K, V>(entries: seq<Entry<K, V>>, start: nat, k: nat): (i: nat)
    requires entries != []
    ensures i < |entries|
  {
    var c := Position(start, k, |entries|);
    if HasValue(entries[c]) then c else NextIndex(c, |entries|)
  }

  /** x is the key and value of sample k. */
  ghost predicate IsSample<K, V>(entries: seq<Entry<K, V>>, start: nat, k: nat, x: (K, V))
    requires entries != []
  {
    entries[SampleIndex(entries, start, k)] == (x.0, Some(x.1))
  }

  /** The entry in turn is number (start + k) modulo the size; a null value gives way to the entry after it. */
  lemma SampleInTurn<K, V>(entries: seq<Entry<K, V>>, start: nat, k: nat)
    requires entries != []
    ensures var n := |entries|;
            SampleIndex(entries, start, k) ==
              if entries[(start + k) % n].1.Some? then (start + k) % n
              else if (start + k) % n == n - 1 then 0 else (start + k) % n + 1
  {}

  lemma StepPosition(start: nat, k: nat, n: nat)
    requires n > 0
    ensures start < n ==> Position(start, 0, n) == start
    ensures Position(start, k + 1, n) == NextIndex(Position(start, k, n), n)
  {
    var q, r := (start + k) / n, (start + k) % n;
    DivModUnique(start + k, n, q, r);
    if r + 1 < n {
      DivModUnique(start + k + 1, n, q, r + 1);
    } else {
      assert (q + 1) * n == q * n + n;
      DivModUnique(start + k + 1, n, q + 1, 0);
    }
    if start < n {
      DivModUnique(start, n, 0, start);
    }
  }

  /** After a full round the positions repeat; within one they do not. */
  lemma PositionRound(start: nat, i: nat, j: nat, n: nat)
    requires n > 0 && i < j
    ensures j == i + n ==> Position(start, i, n) == Position(start, j, n)
    ensures j < i + n ==> Position(start, i, n) != Position(start, j, n)
  {
    var q, r := (start + i) / n, (start + i) % n;
    if j == i + n {
      assert (q + 1) * n == q * n + n;
      DivModUnique(start + j, n, q + 1, r);
    } else if j < i + n && r == (start + j) % n {
      var p := (start + j) / n;
      assert (p - q) * n == j - i;
      MulMagnitude(p - q, n);
    }
  }

  ghost predicate NoNulls<K, V>(entries: seq<Entry<K, V>>) {
    forall i :: 0 <= i < |entries| ==> HasValue(entries[i])
  }

  /** The first round of samples are all different entries. */
  ghost predicate FirstRoundDistinct<K, V>(entries: seq<Entry<K, V>>, start: nat)
    requires entries != []
  {
    forall i, j :: 0 <= i < j < |entries| ==> SampleIndex(entries, start, i) != SampleIndex(entries, start, j)
  }

  /** Where null values are present at all, an entry comes twice in the first round. */
  lemma DistinctIffNoNulls<K, V>(entries: seq<Entry<K, V>>, start: nat)
    requires entries != [] && start < |entries| && NoAdjacentNulls(entries)
    ensures FirstRoundDistinct(entries, start) <==> NoNulls(entries)
  {
    var n := |entries|;
    if NoNulls(entries) {
      forall i, j | 0 <= i < j < n
        ensures SampleIndex(entries, start, i) != SampleIndex(entries, start, j)
      {
        PositionRound(start, i, j, n);
      }
    } else {
      var c :| 0 <= c < n && !HasValue(entries[c]);
      var k := TurnOf(start, c, n);
      NullTwice(entries, start, k);
    }
  }

  /** When the entry at position c has its turn. */
  lemma TurnOf(start: nat, c: nat, n: nat) returns (k: nat)
    requires start < n && c < n
    ensures k < n && Position(start, k, n) == c
  {
    if c >= start {
      k := c - start;
      DivModUnique(start + k, n, 0, c);
    } else {
      k := c + n - start;
      DivModUnique(start + k, n, 1, c);
    }
  }

  lemma NullTwice<K, V>(entries: seq<Entry<K, V>>, start: nat, k: nat)
    requires entries != [] && start < |entries| && NoAdjacentNulls(entries) && k < |entries|
    requires !HasValue(entries[Position(start, k, |entries|)])
    ensures !FirstRoundDistinct(entries, start)
  {
    var n := |entries|;
    var c := Position(start, k, n);
    StepPosition(start, k, n);
    assert HasValue(entries[NextIndex(c, n)]);
    if k + 1 < n {
      assert SampleIndex(entries, start, k) == SampleIndex(entries, start, k + 1);
    } else {
      PositionRound(start, 0, n, n);
      assert SampleIndex(entries, start, k) == SampleIndex(entries, start, 0);
      assert k > 0;
    }
  }

  /** Asking for more samples than there are entries returns the same ones again. */
  lemma SamplesRepeat<K, V>(entries: seq<Entry<K, V>>, start: nat, k: nat)
    requires entries != []
    ensures SampleIndex(entries, start, k + |entries|) == SampleIndex(entries, start, k)
  {
    PositionRound(start, k, k + |entries|, |entries|);
  }

  /** The inner loop holds an entry, or has run off the end of the map, or has returned. */
  datatype Inner<K, V> = Holding(entry: Entry<K, V>) | OffTheEnd | Returned(entry: Entry<K, V>)

  function Hold<K, V>(e: Option<Entry<K, V>>): Inner<K, V> {
    if e.Some? then Holding(e.value) else OffTheEnd
  }

  /** One turn: take the entry at the index, which the loop does not move, and return the held one if it has a value. */
  function InnerTurn<K, V>(entries: seq<Entry<K, V>>, index: nat, x: Inner<K, V>): Inner<K, V> {
    match x
    case Holding(e) => if HasValue(e) then Returned(e) else Hold(GetEntry(entries, index))
    case _ => x
  }

  ghost function InnerTurns<K, V>(entries: seq<Entry<K, V>>, index: nat, x: Inner<K, V>, k: nat): Inner<K, V> {
    if k == 0 then x else InnerTurn(entries, index, InnerTurns(entries, index, x, k - 1))
  }

  /** The loop that starts at entry c, with the index already advanced, is still going after any number of turns if
      and only if that entry and its neighbour both have null values. */
  lemma AdjacentNullsNeverEnd<K, V>(entries: seq<Entry<K, V>>, c: nat)
    requires c < |entries|
    ensures var index := NextIndex(c, |entries|);
            (forall k: nat :: InnerTurns(entries, index, Holding(entries[c]), k).Holding?)
            <==> !HasValue(entries[c]) && !HasValue(entries[index])
  {
    var index := NextIndex(c, |entries|);
    var x := Holding(entries[c]);
    if !HasValue(entries[c]) && !HasValue(entries[index]) {
      forall k: nat
        ensures InnerTurns(entries, index, x, k).Holding?
      {
        NullsHeld(entries, c, k);
      }
    } else {
      ValueFound(entries, c);
    }
  }

  /** With a value at one of the two, the loop has returned after two turns. */
  lemma ValueFound<K, V>(entries: seq<Entry<K, V>>, c: nat)
    requires c < |entries| && (HasValue(entries[c]) || HasValue(entries[NextIndex(c, |entries|)]))
    ensures !InnerTurns(entries, NextIndex(c, |entries|), Holding(entries[c]), 2).Holding?
  {
    var index := NextIndex(c, |entries|);
    var x := Holding(entries[c]);
    assert InnerTurns(entries, index, x, 0) == x;
    assert InnerTurns(entries, index, x, 1) == InnerTurn(entries, index, x);
    assert InnerTurns(entries, index, x, 2) == InnerTurn(entries, index, InnerTurn(entries, index, x));
  }

  lemma {:induction false} NullsHeld<K, V>(entries: seq<Entry<K, V>>, c: nat, k: nat)
    requires c < |entries| && !HasValue(entries[c]) && !HasValue(entries[NextIndex(c, |entries|)])
    ensures var index := NextIndex(c, |entries|);
            InnerTurns(entries, index, Holding(entries[c]), k) == Holding(if k == 0 then entries[c] else entries[index])
  {
    if k > 0 {
      NullsHeld(entries, c, k - 1);
    }
  }

  class LazySamplingIterator<K, V> {
    const entries: seq<Entry<K, V>>
    const maxEntryCount: int
    const startIndex: nat
    var currentEntry: Option<Entry<K, V>>
    var returnedEntryCount: nat
    var currentIndex: int
    var reachedToEnd: bool
    var currentSample: Option<(K, V)>

    ghost predicate Valid()
      reads this
    {
      && entries != [] && startIndex < |entries| && !reachedToEnd
      && (returnedEntryCount > 0 ==> currentIndex == Position(startIndex, returnedEntryCount, |entries|))
      && (returnedEntryCount == 0 ==> currentIndex == -1)
    }

    constructor (maxCount: int, entries: seq<Entry<K, V>>, randomNumber: nat)
      requires entries != []
      ensures Valid() && this.entries == entries && maxEntryCount == maxCount && returnedEntryCount == 0
      ensures startIndex == randomNumber % |entries|
    {
      maxEntryCount := maxCount;
      returnedEntryCount := 0;
      currentIndex := -1;
      reachedToEnd := false;
      currentEntry := None;
      currentSample := None;
      this.entries := entries;
      startIndex := randomNumber % |entries|;
    }

    /** Moves to the next sample. The loops end, at the latest with the neighbouring entry; on an unchanged map
        the search never runs off the end. */
    method Iterate()
      requires Valid() && NoAdjacentNulls(entries)
      modifies this
      ensures Valid()
      ensures old(returnedEntryCount) >= maxEntryCount ==> currentSample == None && returnedEntryCount == old(returnedEntryCount)
      ensures old(returnedEntryCount) < maxEntryCount ==>
                && returnedEntryCount == old(returnedEntryCount) + 1 && currentSample.Some?
                && IsSample(entries, startIndex, old(returnedEntryCount), currentSample.value)
    {
      if returnedEntryCount >= maxEntryCount || reachedToEnd {
        currentSample := None;
        return;
      }
      StepPosition(startIndex, returnedEntryCount, |entries|);
      if currentIndex == -1 {
        currentIndex := startIndex;
      }
      ghost var c := currentIndex;
      if currentEntry.None? {
        currentEntry := GetEntry(entries, currentIndex);
      }
      currentEntry := GetEntry(entries, currentIndex);
      currentIndex := currentIndex + 1;
      if currentIndex >= |entries| {
        currentIndex := 0;
      }
      ghost var first := true;
      while currentEntry.Some?
        invariant currentIndex == NextIndex(c, |entries|)
        invariant currentEntry == Some(if first then entries[c] else entries[NextIndex(c, |entries|)])
        invariant !first ==> !HasValue(entries[c])
        invariant returnedEntryCount == old(returnedEntryCount) && !reachedToEnd
        decreases first
      {
        var key, value := currentEntry.value.0, currentEntry.value.1;
        currentEntry := GetEntry(entries, currentIndex);
        if value.Some? {
          currentSample := Some((key, value.value));
          returnedEntryCount := returnedEntryCount + 1;
          return;
        }
        first := false;
      }
      assert false;
    }

    method HasNext() returns (b: bool)
      requires Valid() && NoAdjacentNulls(entries)
      modifies this
      ensures Valid() && b == (old(returnedEntryCount) < maxEntryCount) && b == currentSample.Some?
      ensures returnedEntryCount == old(returnedEntryCount) + if b then 1 else 0
      ensures b ==> IsSample(entries, startIndex, old(returnedEntryCount), currentSample.value)
    {
      Iterate();
      b := currentSample.Some?;
    }

    /** None stands for the exception when there is no current sample. */
    method Next() returns (r: Option<(K, V)>)
      ensures r == currentSample
    {
      r := currentSample;
    }
  }

  datatype Samples<K, V> = IllegalArgument | NoSamples | Samples(source: LazySamplingIterator<K, V>)

  /** Negative counts are refused; nothing asked or nothing there gives nothing. */
  method GetRandomSamples<K, V>(entries: seq<Entry<K, V>>, sampleCount: int, randomNumber: nat)
    returns (r: Samples<K, V>)
    ensures r.IllegalArgument? <==> sampleCount < 0
    ensures r.Samples? <==> sampleCount > 0 && entries != []
    ensures r.Samples? ==> fresh(r.source) && r.source.Valid() && r.source.entries == entries
                           && r.source.maxEntryCount == sampleCount && r.source.returnedEntryCount == 0
                           && r.source.startIndex == randomNumber % |entries|
  {
    if sampleCount < 0 {
      return IllegalArgument;
    }
    if sampleCount == 0 || entries == [] {
      return NoSamples;
    }
    var it := new LazySamplingIterator(sampleCount, entries, randomNumber);
    return Samples.Samples(it);
  }

  /** Reading the iterator to its end gives exactly the number of samples asked for, sample k being the entry whose
      turn it is, also beyond one round. */
  method Drain<K, V>(entries: seq<Entry<K, V>>, sampleCount: int, randomNumber: nat) returns (samples: seq<(K, V)>)
    requires NoAdjacentNulls(entries)
    ensures |samples| == if sampleCount > 0 && entries != [] then sampleCount else 0
    ensures forall k :: 0 <= k < |samples| ==>
              IsSample(entries, randomNumber % |entries|, k, samples[k])
  {
    hide IsSample, NoAdjacentNulls;
    samples := [];
    var r := GetRandomSamples(entries, sampleCount, randomNumber);
    if r.Samples? {
      var it := r.source;
      var more := it.HasNext();
      while more
        invariant it.Valid() && it.entries == entries && it.maxEntryCount == sampleCount
        invariant it.startIndex == randomNumber % |entries| && fresh(it)
        invariant more ==> |samples| + 1 == it.returnedEntryCount <= sampleCount && it.currentSample.Some?
        invariant more ==> IsSample(entries, it.startIndex, |samples|, it.currentSample.value)
        invariant !more ==> |samples| == sampleCount
        invariant forall k :: 0 <= k < |samples| ==> IsSample(entries, it.startIndex, k, samples[k])
        decreases sampleCount - |samples|, more
      {
        var s := it.Next();
        samples := samples + [s.value];
        more := it.HasNext();
      }
    }
  }
}
