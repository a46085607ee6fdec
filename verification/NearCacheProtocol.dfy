/** How a near-cached map fills its near cache while invalidations arrive: readers, server writes and
    invalidations interleave at the granularity of single marker and cache operations. The point of the marker
    is that a value fetched before an invalidation must not stay in the cache after it. */
module NearCacheProtocol {
  import opened Bytes
  import opened KeyStateMarker

  type Hash = h: int | IsInt32(h)

  datatype Key = Key(id: nat, hash: Hash)

  /** Values are identified by the version of their key at the server. */
  type Version = nat

  /** held: the reader holds the mark of its slot. Resetting, removing and forcing without holding it is what a
      get does after it throws although its try_mark had failed. */
  datatype Phase =
    | Begin                              // the cache had no value for the key
    | Marked                             // try_mark went through
    | Bare                               // try_mark failed
    | Fetched(v: Version)                // get: the server's answer is there
    | Resetting(held: bool)              // get: about to try_unmark
    | Failed(held: bool)                 // get: try_unmark failed, about to try_remove
    | Removing(held: bool)               // get: about to remove the entry from the cache
    | Answered(v: Version, held: bool)   // get_all: the server's answer is there
    | Emptying(held: bool)               // get_all: stored, about to move key and value out of what it stored
    | Forcing(held: bool)                // about to force_unmark
    | Leaked                             // the mark stays behind
    | Finished

  /** bulk: get_all rather than get. */
  datatype Reader = Reader(key: Key, bulk: bool, phase: Phase)

  datatype Content = Value(v: Version) | Emptied

  /** A cache entry holds the key and value objects that readers passed in. Storing under a key that is there
      replaces the value object and keeps the key object. */
  datatype Entry = Entry(content: Content, keyFrom: nat, valueFrom: nat)

  datatype Delivery = Sent | Halfway | Done

  /** An invalidation: first try_remove, then remove the entry from the cache. */
  datatype Invalidation = Invalidation(key: Key, version: Version, delivery: Delivery)

  datatype State = State(
    marks: seq<Mark>,
    cache: map<Key, Entry>,
    versions: map<Key, Version>,
    readers: seq<Reader>,
    invalidations: seq<Invalidation>,
    owner: map<nat, nat>)          // bookkeeping: the reader whose try_mark last went through on a slot

  datatype Event =
    | Write(k: Key)                    // the server takes a new value and sends an invalidation
    | LocalInvalidate(k: Key)          // the client invalidates after a write of its own
    | Deliver(j: nat)                  // next half of an invalidation
    | Arrive(k: Key, bulk: bool)
    | Advance(r: nat)                  // next operation of a reader
    | Throw(r: nat)                    // the call, or the cache's put, throws; or get_all gets no answer for the key
    | Refuse(r: nat)                   // the cache is full and does not take the value
    | Lose(r: nat)                     // the answer is an error, or get_all ends with an error before its last step
    | Evict(k: Key)
    | ClearMarks                       // first half of clear()
    | ClearCache                       // second half

  function SlotOf(k: Key, n: nat): (slot: nat)
    requires n > 0
    ensures slot < n
  {
    HashToIndex(k.hash, n).value
  }

  function Ver(s: State, k: Key): Version {
    if k in s.versions then s.versions[k] else 0
  }

  function SetPhase(s: State, r: nat, p: Phase): State
    requires r < |s.readers|
  {
    s.(readers := s.readers[r := s.readers[r].(phase := p)])
  }

  function Store(cache: map<Key, Entry>, k: Key, v: Version, r: nat): map<Key, Entry> {
    cache[k := Entry(Value(v), if k in cache then cache[k].keyFrom else r, r)]
  }

  /** Key and value are moved out of the objects that reader r stored: an entry whose key object it is can no
      longer be found, and an entry that only has the value object keeps an empty value. */
  function MoveOut(cache: map<Key, Entry>, k: Key, r: nat): map<Key, Entry> {
    if k !in cache then cache
    else if cache[k].keyFrom == r then cache - {k}
    else if cache[k].valueFrom == r then cache[k := cache[k].(content := Emptied)]
    else cache
  }

  /** A leaked mark is forgotten once its slot is free. */
  function Forget(x: Reader): Reader {
    if x.phase.Leaked? then x.(phase := Finished) else x
  }

  function Freed(s: State, slot: nat): (rs: seq<Reader>)
    ensures |rs| == |s.readers|
  {
    if slot in s.owner && s.owner[slot] < |s.readers|
    then s.readers[s.owner[slot] := Forget(s.readers[s.owner[slot]])] else s.readers
  }

  /** The marker operation of a reader's next step, if it makes one. */
  function MarkerOp(p: Phase, slot: nat): Option<Op> {
    match p
    case Begin => Some(TryMark(slot))
    case Resetting(_) => Some(TryUnmark(slot))
    case Failed(_) => Some(TryRemove(slot))
    case Forcing(_) => Some(ForceUnmark(slot))
    case _ => None
  }

  function NextMarks(s: State, r: nat): (marks: seq<Mark>)
    requires r < |s.readers| && |s.marks| > 0
    ensures |marks| == |s.marks|
  {
    var op := MarkerOp(s.readers[r].phase, SlotOf(s.readers[r].key, |s.marks|));
    if op.Some? then Apply(s.marks, op.value) else s.marks
  }

  /** What the step does to the cache. */
  function NextCache(s: State, r: nat): map<Key, Entry>
    requires r < |s.readers|
  {
    var x := s.readers[r];
    match x.phase
    case Fetched(v) => Store(s.cache, x.key, v, r)
    case Answered(v, _) => Store(s.cache, x.key, v, r)
    case Removing(_) => s.cache - {x.key}
    case Emptying(_) => MoveOut(s.cache, x.key, r)
    case _ => s.cache
  }

  /** Where it takes the reader, given the version at the server and the mark of its slot. */
  function NextPhase(x: Reader, v: Version, mark: Mark): Phase {
    match x.phase
    case Begin => if mark == UNMARKED then Marked else Bare
    case Marked => if x.bulk then Answered(v, true) else Fetched(v)
    case Bare => if x.bulk then Answered(v, false) else Finished
    case Fetched(_) => Resetting(true)
    case Resetting(held) => if mark == MARKED then Finished else Failed(held)
    case Failed(held) => Removing(held)
    case Removing(held) => Forcing(held)
    case Answered(_, held) => Emptying(held)
    case Emptying(held) => if held then Forcing(true) else Finished
    case Forcing(_) => Finished
    case Leaked => Leaked
    case Finished => Finished
  }

  /** It takes the mark of its slot; it sets the slot free. */
  predicate Takes(p: Phase, mark: Mark) { p.Begin? && mark == UNMARKED }

  predicate Releases(p: Phase, mark: Mark) { p.Forcing? || (p.Resetting? && mark == MARKED) }

  function AdvanceReader(s: State, r: nat): State
    requires r < |s.readers| && |s.marks| > 0
  {
    var x := s.readers[r];
    var slot := SlotOf(x.key, |s.marks|);
    var mark := s.marks[slot];
    var others := if Releases(x.phase, mark) then Freed(s, slot) else s.readers;
    State(NextMarks(s, r),
          NextCache(s, r),
          s.versions,
          others[r := x.(phase := NextPhase(x, Ver(s, x.key), mark))],
          s.invalidations,
          if Takes(x.phase, mark) then s.owner[slot := r]
          else if Releases(x.phase, mark) then s.owner - {slot}
          else s.owner)
  }

  function ThrowIn(s: State, r: nat): State
    requires r < |s.readers|
  {
    var x := s.readers[r];
    match x.phase
    case Marked => SetPhase(s, r, if x.bulk then Forcing(true) else Resetting(true))
    case Fetched(_) => SetPhase(s, r, Resetting(true))
    case Bare => SetPhase(s, r, if x.bulk then Finished else Resetting(false))
    case _ => s
  }

  function RefuseIn(s: State, r: nat): State
    requires r < |s.readers|
  {
    match s.readers[r].phase
    case Fetched(_) => SetPhase(s, r, Resetting(true))
    case Answered(_, held) => SetPhase(s, r, Emptying(held))
    case _ => s
  }

  function LoseIn(s: State, r: nat): State
    requires r < |s.readers|
  {
    var x := s.readers[r];
    if x.phase.Marked? then SetPhase(s, r, Leaked)
    else if x.bulk && x.phase.Answered? then SetPhase(s, r, if x.phase.held then Leaked else Finished)
    else if x.bulk && x.phase == Forcing(true) then SetPhase(s, r, Leaked)
    else s
  }

  function DeliverHalf(s: State, j: nat): State
    requires j < |s.invalidations| && |s.marks| > 0
  {
    var i := s.invalidations[j];
    match i.delivery
    case Sent =>
      s.(marks := Apply(s.marks, TryRemove(SlotOf(i.key, |s.marks|))),
         invalidations := s.invalidations[j := i.(delivery := Halfway)])
    case Halfway => s.(cache := s.cache - {i.key}, invalidations := s.invalidations[j := i.(delivery := Done)])
    case Done => s
  }

  function Step(s: State, e: Event): State
    requires |s.marks| > 0
  {
    match e
    case Write(k) =>
      var v := Ver(s, k) + 1;
      s.(versions := s.versions[k := v], invalidations := s.invalidations + [Invalidation(k, v, Sent)])
    case LocalInvalidate(k) => s.(invalidations := s.invalidations + [Invalidation(k, Ver(s, k), Sent)])
    case Deliver(j) => if j < |s.invalidations| then DeliverHalf(s, j) else s
    case Arrive(k, bulk) => s.(readers := s.readers + [Reader(k, bulk, Begin)])
    case Advance(r) => if r < |s.readers| then AdvanceReader(s, r) else s
    case Throw(r) => if r < |s.readers| then ThrowIn(s, r) else s
    case Refuse(r) => if r < |s.readers| then RefuseIn(s, r) else s
    case Lose(r) => if r < |s.readers| then LoseIn(s, r) else s
    case Evict(k) => s.(cache := s.cache - {k})
    case ClearMarks =>
      s.(marks := Apply(s.marks, Reset), owner := map[],
         readers := seq(|s.readers|, i requires 0 <= i < |s.readers| => Forget(s.readers[i])))
    case ClearCache => s.(cache := map[])
  }

  function Init(n: nat): State {
    State(seq(n, _ => UNMARKED), map[], map[], [], [], map[])
  }

  // ----- The invariant -----

  /** Phases in which the mark of a reader's slot is its own. */
  predicate Holds(p: Phase) {
    match p
    case Marked => true
    case Fetched(_) => true
    case Leaked => true
    case Resetting(held) => held
    case Failed(held) => held
    case Removing(held) => held
    case Answered(_, held) => held
    case Emptying(held) => held
    case Forcing(held) => held
    case _ => false
  }

  /** ... and it still relies on it. */
  predicate Relies(p: Phase) { Holds(p) && !p.Leaked? }

  ghost predicate OwnerOk(s: State, slot: nat)
    requires |s.marks| > 0
  {
    slot in s.owner ==>
      && slot < |s.marks| && s.owner[slot] < |s.readers|
      && Holds(s.readers[s.owner[slot]].phase) && SlotOf(s.readers[s.owner[slot]].key, |s.marks|) == slot
  }

  ghost predicate HolderOk(s: State, r: nat)
    requires |s.marks| > 0 && r < |s.readers|
  {
    Holds(s.readers[r].phase) ==>
      var slot := SlotOf(s.readers[r].key, |s.marks|);
      slot in s.owner && s.owner[slot] == r
  }

  /** A slot is not UNMARKED exactly while one reader holds it. */
  ghost predicate Exclusive(s: State)
    requires |s.marks| > 0
  {
    && (forall slot :: 0 <= slot < |s.marks| ==> (s.marks[slot] != UNMARKED <==> slot in s.owner))
    && (forall slot :: slot in s.owner ==> OwnerOk(s, slot))
    && (forall r :: 0 <= r < |s.readers| ==> HolderOk(s, r))
  }

  predicate Pending(i: Invalidation, k: Key, v: Version) {
    i.key == k && !i.delivery.Done? && i.version > v
  }

  /** An invalidation newer than v is still to remove the entry of k. */
  ghost predicate WillRemove(s: State, k: Key, v: Version) {
    exists j :: 0 <= j < |s.invalidations| && Pending(s.invalidations[j], k, v)
  }

  /** ... and has not even tried the mark. */
  ghost predicate WillUnmark(s: State, k: Key, v: Version) {
    exists j :: 0 <= j < |s.invalidations| && Pending(s.invalidations[j], k, v) && s.invalidations[j].delivery.Sent?
  }

  /** The reader that holds the slot of k is on its way to remove the entry of k itself. */
  ghost predicate Cleaning(s: State, k: Key)
    requires |s.marks| > 0
  {
    var slot := SlotOf(k, |s.marks|);
    && slot in s.owner && s.owner[slot] < |s.readers|
    && var x := s.readers[s.owner[slot]];
       x.key == k && (x.phase == Failed(true) || x.phase == Removing(true) ||
                      (x.phase == Resetting(true) && s.marks[slot] == REMOVED))
  }

  /** The get_all that stored the value of k is about to move it out again. */
  ghost predicate Spoiling(s: State, k: Key)
    requires k in s.cache
  {
    && s.cache[k].valueFrom < |s.readers|
    && s.readers[s.cache[k].valueFrom].key == k && s.readers[s.cache[k].valueFrom].phase.Emptying?
  }

  /** What a reader has fetched is up to date; or, for a get, its try_unmark is going to fail. */
  ghost predicate FetchOk(s: State, r: nat)
    requires |s.marks| > 0 && r < |s.readers|
  {
    var x := s.readers[r];
    && (x.phase.Answered? ==> x.phase.v <= Ver(s, x.key))
    && (x.phase.Fetched? ==>
          && x.phase.v <= Ver(s, x.key)
          && (x.phase.v < Ver(s, x.key) ==>
                s.marks[SlotOf(x.key, |s.marks|)] == REMOVED || WillUnmark(s, x.key, x.phase.v)))
  }

  /** A cached value is up to date or empty, or somebody is going to take it out. */
  ghost predicate EntryOk(s: State, k: Key)
    requires |s.marks| > 0
  {
    k in s.cache && s.cache[k].content.Value? ==>
      && s.cache[k].content.v <= Ver(s, k)
      && (s.cache[k].content.v < Ver(s, k) ==>
            WillRemove(s, k, s.cache[k].content.v) || Cleaning(s, k) || Spoiling(s, k))
  }

  ghost predicate Inv(s: State) {
    && |s.marks| > 0 && Exclusive(s)
    && (forall r :: 0 <= r < |s.readers| ==> FetchOk(s, r))
    && (forall k :: k in s.cache ==> EntryOk(s, k))
  }

  /** Somebody relies on the mark of a slot. */
  ghost predicate ReliedOn(s: State, slot: nat) {
    slot in s.owner && s.owner[slot] < |s.readers| && Relies(s.readers[s.owner[slot]].phase)
  }

  /** The marks are not cleared while a reader relies on one, and a reader that throws without holding its mark
      does not free a slot on which another one relies. */
  ghost predicate Safe(s: State, e: Event)
    requires |s.marks| > 0
  {
    match e
    case ClearMarks => forall r :: 0 <= r < |s.readers| ==> !Relies(s.readers[r].phase)
    case Advance(r) =>
      r < |s.readers| ==>
        var slot := SlotOf(s.readers[r].key, |s.marks|);
        && (s.readers[r].phase == Resetting(false) && s.marks[slot] == MARKED ==> !ReliedOn(s, slot))
        && (s.readers[r].phase == Forcing(false) ==> !ReliedOn(s, slot))
    case _ => true
  }

  // ----- The invariant is kept -----

  /** Everything that EntryOk and FetchOk can see of an invalidation list survives appending to it. */
  lemma MoreInvalidations(s: State, s': State, k: Key, v: Version)
    requires s.invalidations <= s'.invalidations
    ensures WillRemove(s, k, v) ==> WillRemove(s', k, v)
    ensures WillUnmark(s, k, v) ==> WillUnmark(s', k, v)
  {
    hide SlotOf;
    if WillRemove(s, k, v) {
      var j :| 0 <= j < |s.invalidations| && Pending(s.invalidations[j], k, v);
      assert Pending(s'.invalidations[j], k, v);
    }
    if WillUnmark(s, k, v) {
      var j :| 0 <= j < |s.invalidations| && Pending(s.invalidations[j], k, v) && s.invalidations[j].delivery.Sent?;
      assert Pending(s'.invalidations[j], k, v) && s'.invalidations[j].delivery.Sent?;
    }
  }

  /** Slots change hands only through readers: marks may move between MARKED and REMOVED. */
  lemma SameHolders(s: State, s': State)
    requires |s.marks| > 0 && Exclusive(s)
    requires s'.readers == s.readers && s'.owner == s.owner && |s'.marks| == |s.marks|
    requires forall slot :: 0 <= slot < |s.marks| ==> (s'.marks[slot] == UNMARKED <==> s.marks[slot] == UNMARKED)
    ensures Exclusive(s')
  {
    hide SlotOf;
    forall r | 0 <= r < |s'.readers|
      ensures HolderOk(s', r)
    {
      assert HolderOk(s, r);
    }
    forall slot | slot in s'.owner
      ensures OwnerOk(s', slot)
    {
      assert OwnerOk(s, slot);
    }
  }

  lemma KeepWrite(s: State, k: Key)
    requires Inv(s)
    ensures Inv(Step(s, Write(k)))
  {
    hide SlotOf;
    var s' := Step(s, Write(k));
    var n := |s.invalidations|;
    assert s'.invalidations[n] == Invalidation(k, Ver(s', k), Sent);
    SameHolders(s, s');
    forall r | 0 <= r < |s'.readers|
      ensures FetchOk(s', r)
    {
      assert FetchOk(s, r);
      if s.readers[r].phase.Fetched? {
        MoreInvalidations(s, s', s.readers[r].key, s.readers[r].phase.v);
        assert s.readers[r].key == k ==> Pending(s'.invalidations[n], k, s.readers[r].phase.v);
      }
    }
    forall l | l in s'.cache
      ensures EntryOk(s', l)
    {
      assert EntryOk(s, l);
      if s.cache[l].content.Value? {
        MoreInvalidations(s, s', l, s.cache[l].content.v);
        assert l == k ==> Pending(s'.invalidations[n], k, s.cache[l].content.v);
      }
    }
  }

  lemma KeepLocal(s: State, k: Key)
    requires Inv(s)
    ensures Inv(Step(s, LocalInvalidate(k)))
  {
    hide SlotOf;
    var s' := Step(s, LocalInvalidate(k));
    SameHolders(s, s');
    forall r | 0 <= r < |s'.readers|
      ensures FetchOk(s', r)
    {
      assert FetchOk(s, r);
      if s.readers[r].phase.Fetched? {
        MoreInvalidations(s, s', s.readers[r].key, s.readers[r].phase.v);
      }
    }
    forall l | l in s'.cache
      ensures EntryOk(s', l)
    {
      assert EntryOk(s, l);
      if s.cache[l].content.Value? {
        MoreInvalidations(s, s', l, s.cache[l].content.v);
      }
    }
  }

  lemma KeepDeliverSent(s: State, j: nat)
    requires Inv(s) && j < |s.invalidations| && s.invalidations[j].delivery.Sent?
    ensures Inv(Step(s, Deliver(j)))
  {
    hide SlotOf;
    var s' := Step(s, Deliver(j));
    var i := s.invalidations[j];
    var slot := SlotOf(i.key, |s.marks|);
    SameHolders(s, s');
    forall r | 0 <= r < |s'.readers|
      ensures FetchOk(s', r)
    {
      assert FetchOk(s, r) && HolderOk(s, r);
      if s.readers[r].phase.Fetched? {
        var k, v := s.readers[r].key, s.readers[r].phase.v;
        if WillUnmark(s, k, v) {
          var l :| 0 <= l < |s.invalidations| && Pending(s.invalidations[l], k, v) && s.invalidations[l].delivery.Sent?;
          if l == j {
            assert s'.marks[slot] == REMOVED;
          } else {
            assert s'.invalidations[l] == s.invalidations[l];
          }
        }
      }
    }
    forall k | k in s'.cache
      ensures EntryOk(s', k)
    {
      assert EntryOk(s, k);
      if s.cache[k].content.Value? {
        KeepPending(s, s', j, k, s.cache[k].content.v);
      }
    }
  }

  lemma KeepPending(s: State, s': State, j: nat, k: Key, v: Version)
    requires j < |s.invalidations| && s'.invalidations == s.invalidations[j := s.invalidations[j].(delivery := Halfway)]
    ensures WillRemove(s, k, v) && !s.invalidations[j].delivery.Done? ==> WillRemove(s', k, v)
  {
    hide SlotOf;
    if WillRemove(s, k, v) {
      var l :| 0 <= l < |s.invalidations| && Pending(s.invalidations[l], k, v);
      assert !s.invalidations[j].delivery.Done? ==> Pending(s'.invalidations[l], k, v);
    }
  }

  lemma KeepDeliverHalfway(s: State, j: nat)
    requires Inv(s) && j < |s.invalidations| && s.invalidations[j].delivery.Halfway?
    ensures Inv(Step(s, Deliver(j)))
  {
    hide SlotOf;
    var s' := Step(s, Deliver(j));
    SameHolders(s, s');
    forall r | 0 <= r < |s'.readers|
      ensures FetchOk(s', r)
    {
      assert FetchOk(s, r);
      if s.readers[r].phase.Fetched? {
        var k, v := s.readers[r].key, s.readers[r].phase.v;
        if WillUnmark(s, k, v) {
          var l :| 0 <= l < |s.invalidations| && Pending(s.invalidations[l], k, v) && s.invalidations[l].delivery.Sent?;
          assert s'.invalidations[l] == s.invalidations[l];
        }
      }
    }
    forall k | k in s'.cache
      ensures EntryOk(s', k)
    {
      assert EntryOk(s, k);
      if s.cache[k].content.Value? && WillRemove(s, k, s.cache[k].content.v) {
        var l :| 0 <= l < |s.invalidations| && Pending(s.invalidations[l], k, s.cache[k].content.v);
        assert l != j && s'.invalidations[l] == s.invalidations[l];
      }
    }
  }

  lemma KeepArrive(s: State, k: Key, bulk: bool)
    requires Inv(s)
    ensures Inv(Step(s, Arrive(k, bulk)))
  {
    hide SlotOf;
    var s' := Step(s, Arrive(k, bulk));
    assert forall l :: l in s.owner ==> OwnerOk(s, l);
    assert forall r :: 0 <= r < |s.readers| ==> HolderOk(s, r) && s'.readers[r] == s.readers[r] && FetchOk(s, r);
    forall l | l in s'.cache
      ensures EntryOk(s', l)
    {
      assert EntryOk(s, l);
    }
  }

  /** Entries may leave the cache at any time. */
  lemma KeepDrop(s: State, s': State)
    requires Inv(s) && s' == s.(cache := s'.cache)
    requires forall k :: k in s'.cache ==> k in s.cache && s'.cache[k] == s.cache[k]
    ensures Inv(s')
  {
    hide SlotOf;
    SameHolders(s, s');
    forall r | 0 <= r < |s'.readers|
      ensures FetchOk(s', r)
    {
      assert FetchOk(s, r);
    }
    forall l | l in s'.cache
      ensures EntryOk(s', l)
    {
      assert EntryOk(s, l);
    }
  }

  // ----- Moves of one reader -----

  /** Reader r has moved, and nothing that matters to the others has changed: they are where they were, except
      that a leaked mark may be forgotten, and no REMOVED mark on which one of them relies has gone. */
  ghost predicate OnlyReader(s: State, s': State, r: nat) {
    && |s.marks| > 0 && r < |s.readers| == |s'.readers| && |s'.marks| == |s.marks|
    && (forall q :: 0 <= q < |s.readers| && q != r ==>
          s'.readers[q] == s.readers[q] || s'.readers[q] == Forget(s.readers[q]))
    && s'.readers[r].key == s.readers[r].key
    && s'.versions == s.versions && s'.invalidations == s.invalidations
    && (forall q :: 0 <= q < |s.readers| && q != r && Relies(s.readers[q].phase) ==>
          var slot := SlotOf(s.readers[q].key, |s.marks|); s.marks[slot] == REMOVED ==> s'.marks[slot] == REMOVED)
  }

  lemma OtherFetchOk(s: State, s': State, r: nat, q: nat)
    requires Inv(s) && OnlyReader(s, s', r) && q < |s.readers| && q != r
    ensures FetchOk(s', q)
  {
    hide SlotOf;
    assert FetchOk(s, q);
    if s.readers[q].phase.Fetched? {
      var k, v := s.readers[q].key, s.readers[q].phase.v;
      assert WillUnmark(s, k, v) ==> WillUnmark(s', k, v);
    }
  }

  /** An entry that the move leaves alone stays justified, unless it was r itself that was going to take it out. */
  lemma OtherEntryOk(s: State, s': State, r: nat, k: Key)
    requires Inv(s) && OnlyReader(s, s', r) && Exclusive(s')
    requires k in s.cache && k in s'.cache && s'.cache[k] == s.cache[k]
    requires k == s.readers[r].key ==>
               && (Cleaning(s, k) && s.owner[SlotOf(k, |s.marks|)] == r ==> Cleaning(s', k))
               && (Spoiling(s, k) && s.cache[k].valueFrom == r ==> Spoiling(s', k))
    ensures EntryOk(s', k)
  {
    hide SlotOf;
    assert EntryOk(s, k);
    if s.cache[k].content.Value? && s.cache[k].content.v < Ver(s, k) {
      var v, slot := s.cache[k].content.v, SlotOf(k, |s.marks|);
      assert WillRemove(s, k, v) ==> WillRemove(s', k, v);
      if Cleaning(s, k) {
        var q := s.owner[slot];
        if q != r {
          assert HolderOk(s', q);
          assert Cleaning(s', k);
        }
      }
    }
  }

  lemma KeepMove(s: State, s': State, r: nat)
    requires Inv(s) && OnlyReader(s, s', r) && Exclusive(s') && FetchOk(s', r)
    requires var key := s.readers[r].key;
             && (forall k :: k in s'.cache && k != key ==> k in s.cache && s'.cache[k] == s.cache[k])
             && (key in s'.cache ==> EntryOk(s', key))
    ensures Inv(s')
  {
    hide SlotOf;
    forall q | 0 <= q < |s'.readers|
      ensures FetchOk(s', q)
    {
      if q != r {
        OtherFetchOk(s, s', r, q);
      }
    }
    forall k | k in s'.cache
      ensures EntryOk(s', k)
    {
      if k != s.readers[r].key {
        OtherEntryOk(s, s', r, k);
      }
    }
  }

  /** Reader r holds its slot after the move if and only if it did before. */
  lemma StillExclusive(s: State, s': State, r: nat)
    requires |s.marks| > 0 && Exclusive(s) && r < |s.readers| == |s'.readers| && |s'.marks| == |s.marks|
    requires s'.owner == s.owner && s'.readers == s.readers[r := s'.readers[r]] && s'.readers[r].key == s.readers[r].key
    requires Holds(s.readers[r].phase) <==> Holds(s'.readers[r].phase)
    requires forall slot :: 0 <= slot < |s.marks| ==> (s'.marks[slot] == UNMARKED <==> s.marks[slot] == UNMARKED)
    ensures Exclusive(s')
  {
    hide SlotOf;
    forall q | 0 <= q < |s'.readers|
      ensures HolderOk(s', q)
    {
      assert HolderOk(s, q);
    }
    forall slot | slot in s'.owner
      ensures OwnerOk(s', slot)
    {
      assert OwnerOk(s, slot);
    }
  }

  /** Moves of reader r that change nothing but its phase. */
  lemma KeepPhaseOnly(s: State, r: nat, p: Phase)
    requires Inv(s) && r < |s.readers| && (Holds(s.readers[r].phase) <==> Holds(p))
    requires p.Fetched? || p.Answered? ==> p.v == Ver(s, s.readers[r].key)
    requires var x := s.readers[r];
             && !x.phase.Emptying? && x.phase != Removing(true)
             && (x.phase == Resetting(true) ==> p == Failed(true))
    requires s.readers[r].phase != Failed(true)
    ensures Inv(SetPhase(s, r, p))
  {
    hide SlotOf;
    var s' := SetPhase(s, r, p);
    var key := s.readers[r].key;
    StillExclusive(s, s', r);
    if key in s'.cache {
      OtherEntryOk(s, s', r, key);
    }
    KeepMove(s, s', r);
  }

  lemma TakenParts(s: State, r: nat)
    requires |s.marks| > 0 && r < |s.readers|
    requires Takes(s.readers[r].phase, s.marks[SlotOf(s.readers[r].key, |s.marks|)])
    ensures var slot := SlotOf(s.readers[r].key, |s.marks|);
            AdvanceReader(s, r) ==
              SetPhase(s, r, Marked).(marks := s.marks[slot := MARKED], owner := s.owner[slot := r])
  {
    hide SlotOf;
  }

  lemma MarkTaken(s: State, r: nat)
    requires Inv(s) && r < |s.readers| && s.readers[r].phase.Begin?
    requires s.marks[SlotOf(s.readers[r].key, |s.marks|)] == UNMARKED
    ensures Exclusive(AdvanceReader(s, r)) && OnlyReader(s, AdvanceReader(s, r), r)
  {
    hide SlotOf, FetchOk, EntryOk, AdvanceReader;
    var s' := AdvanceReader(s, r);
    TakenParts(s, r);
    forall q | 0 <= q < |s'.readers|
      ensures HolderOk(s', q)
    {
      assert HolderOk(s, q);
    }
    forall l | l in s'.owner
      ensures OwnerOk(s', l) && l < |s.marks|
    {
      assert l in s.owner ==> OwnerOk(s, l);
    }
  }

  lemma KeepMark(s: State, r: nat)
    requires Inv(s) && r < |s.readers| && s.readers[r].phase.Begin?
    ensures Inv(AdvanceReader(s, r))
  {
    hide SlotOf;
    var s' := AdvanceReader(s, r);
    var key := s.readers[r].key;
    if s.marks[SlotOf(key, |s.marks|)] == UNMARKED {
      MarkTaken(s, r);
      if key in s'.cache {
        OtherEntryOk(s, s', r, key);
      }
      KeepMove(s, s', r);
    } else {
      PlainStep(s, r);
      KeepPhaseOnly(s, r, Bare);
    }
  }

  /** A get that stores a stale value does no harm: its mark has been removed, or an invalidation is on its way. */
  lemma KeepPut(s: State, r: nat)
    requires Inv(s) && r < |s.readers| && s.readers[r].phase.Fetched?
    ensures Inv(AdvanceReader(s, r))
  {
    hide SlotOf;
    var s' := AdvanceReader(s, r);
    var key, v := s.readers[r].key, s.readers[r].phase.v;
    StillExclusive(s, s', r);
    assert HolderOk(s, r) && FetchOk(s, r);
    if WillUnmark(s, key, v) {
      var j :| 0 <= j < |s.invalidations| && Pending(s.invalidations[j], key, v) && s.invalidations[j].delivery.Sent?;
      assert Pending(s'.invalidations[j], key, v);
    }
    assert EntryOk(s', key);
    KeepMove(s, s', r);
  }

  /** A get_all that stores a stale value does no lasting harm: it moves it out right away. */
  lemma KeepBulkPut(s: State, r: nat)
    requires Inv(s) && r < |s.readers| && s.readers[r].phase.Answered?
    ensures Inv(AdvanceReader(s, r))
  {
    hide SlotOf;
    var s' := AdvanceReader(s, r);
    StillExclusive(s, s', r);
    assert FetchOk(s, r);
    assert EntryOk(s', s.readers[r].key);
    KeepMove(s, s', r);
  }

  lemma KeepMoveOut(s: State, r: nat)
    requires Inv(s) && r < |s.readers| && s.readers[r].phase.Emptying?
    ensures Inv(AdvanceReader(s, r))
  {
    hide SlotOf;
    var s' := AdvanceReader(s, r);
    var key := s.readers[r].key;
    StillExclusive(s, s', r);
    if key in s'.cache && s'.cache[key].content.Value? {
      OtherEntryOk(s, s', r, key);
    }
    KeepMove(s, s', r);
  }

  /** Nobody but r relies on the slot that it sets free. */
  ghost predicate CanFree(s: State, r: nat)
    requires |s.marks| > 0 && r < |s.readers|
  {
    var slot := SlotOf(s.readers[r].key, |s.marks|);
    Releases(s.readers[r].phase, s.marks[slot]) && (!Holds(s.readers[r].phase) ==> !ReliedOn(s, slot))
  }

  lemma FreedParts(s: State, r: nat)
    requires |s.marks| > 0 && r < |s.readers|
    requires Releases(s.readers[r].phase, s.marks[SlotOf(s.readers[r].key, |s.marks|)])
    ensures var slot := SlotOf(s.readers[r].key, |s.marks|);
            var rs := Freed(s, slot);
            AdvanceReader(s, r) == s.(marks := s.marks[slot := UNMARKED], owner := s.owner - {slot},
                                      readers := rs[r := s.readers[r].(phase := Finished)])
  {
    hide SlotOf, Freed;
  }

  lemma FreedFrame(s: State, r: nat)
    requires Inv(s) && r < |s.readers| && CanFree(s, r)
    ensures OnlyReader(s, AdvanceReader(s, r), r)
  {
    hide SlotOf, FetchOk, EntryOk, AdvanceReader;
    FreedParts(s, r);
    var slot := SlotOf(s.readers[r].key, |s.marks|);
    assert HolderOk(s, r) && (slot in s.owner ==> OwnerOk(s, slot));
    forall q | 0 <= q < |s.readers| && q != r && Relies(s.readers[q].phase)
      ensures SlotOf(s.readers[q].key, |s.marks|) != slot
    {
      assert HolderOk(s, q);
    }
  }

  lemma FreedHolders(s: State, r: nat, q: nat)
    requires Inv(s) && r < |s.readers| && CanFree(s, r) && q < |s.readers|
    ensures |AdvanceReader(s, r).marks| == |s.marks| && |AdvanceReader(s, r).readers| == |s.readers|
    ensures HolderOk(AdvanceReader(s, r), q)
  {
    hide SlotOf, FetchOk, EntryOk, AdvanceReader;
    FreedParts(s, r);
    var slot := SlotOf(s.readers[r].key, |s.marks|);
    assert HolderOk(s, r) && HolderOk(s, q) && (slot in s.owner ==> OwnerOk(s, slot));
  }

  lemma FreedExclusive(s: State, r: nat)
    requires Inv(s) && r < |s.readers| && CanFree(s, r)
    ensures Exclusive(AdvanceReader(s, r))
  {
    hide SlotOf, FetchOk, EntryOk, AdvanceReader;
    var slot := SlotOf(s.readers[r].key, |s.marks|);
    var s' := AdvanceReader(s, r);
    FreedParts(s, r);
    forall q | 0 <= q < |s'.readers|
      ensures HolderOk(s', q)
    {
      FreedHolders(s, r, q);
    }
    forall l | l in s'.owner
      ensures OwnerOk(s', l)
    {
      assert OwnerOk(s, l) && HolderOk(s, s.owner[l]) && HolderOk(s, r);
    }
  }

  lemma KeepFree(s: State, r: nat)
    requires Inv(s) && r < |s.readers| && CanFree(s, r)
    ensures Inv(AdvanceReader(s, r))
  {
    hide SlotOf;
    var key := s.readers[r].key;
    var s' := AdvanceReader(s, r);
    FreedExclusive(s, r);
    FreedFrame(s, r);
    if key in s'.cache {
      OtherEntryOk(s, s', r, key);
    }
    KeepMove(s, s', r);
  }

  lemma KeepReset(s: State, r: nat)
    requires Inv(s) && r < |s.readers| && s.readers[r].phase.Resetting? && Safe(s, Advance(r))
    ensures Inv(AdvanceReader(s, r))
  {
    hide SlotOf;
    var slot := SlotOf(s.readers[r].key, |s.marks|);
    if s.marks[slot] == MARKED {
      KeepFree(s, r);
    } else if s.readers[r].phase.held {
      PlainStep(s, r);
      KeepFailed(s, r);
    } else {
      PlainStep(s, r);
      KeepPhaseOnly(s, r, Failed(false));
    }
  }

  /** try_unmark has failed: the holder is going to remove its own entry. */
  lemma KeepFailed(s: State, r: nat)
    requires Inv(s) && r < |s.readers| && s.readers[r].phase == Resetting(true)
    ensures Inv(SetPhase(s, r, Failed(true)))
  {
    hide SlotOf;
    var s' := SetPhase(s, r, Failed(true));
    var key := s.readers[r].key;
    StillExclusive(s, s', r);
    if key in s'.cache {
      OtherEntryOk(s, s', r, key);
    }
    KeepMove(s, s', r);
  }

  lemma KeepTryRemove(s: State, r: nat)
    requires Inv(s) && r < |s.readers| && s.readers[r].phase.Failed?
    ensures Inv(AdvanceReader(s, r))
  {
    hide SlotOf;
    var s' := AdvanceReader(s, r);
    var key := s.readers[r].key;
    StillExclusive(s, s', r);
    if key in s'.cache {
      OtherEntryOk(s, s', r, key);
    }
    KeepMove(s, s', r);
  }

  lemma KeepRemove(s: State, r: nat)
    requires Inv(s) && r < |s.readers| && s.readers[r].phase.Removing?
    ensures Inv(AdvanceReader(s, r))
  {
    hide SlotOf;
    var s' := AdvanceReader(s, r);
    StillExclusive(s, s', r);
    KeepMove(s, s', r);
  }

  /** Steps that change nothing but the phase. */
  lemma PlainStep(s: State, r: nat)
    requires |s.marks| > 0 && r < |s.readers|
    requires var p, mark := s.readers[r].phase, s.marks[SlotOf(s.readers[r].key, |s.marks|)];
             p.Marked? || p.Bare? || p.Leaked? || p.Finished? || (p.Begin? && mark != UNMARKED) ||
             (p.Resetting? && mark != MARKED)
    ensures var x := s.readers[r];
            AdvanceReader(s, r) ==
              SetPhase(s, r, NextPhase(x, Ver(s, x.key), s.marks[SlotOf(x.key, |s.marks|)]))
  {
    hide SlotOf, NextPhase, Ver;
  }

  lemma KeepAdvance(s: State, r: nat)
    requires Inv(s) && Safe(s, Advance(r)) && r < |s.readers|
    ensures Inv(AdvanceReader(s, r))
  {
    hide SlotOf, Exclusive, FetchOk, EntryOk, AdvanceReader;
    var x := s.readers[r];
    var v := Ver(s, x.key);
    match x.phase
    case Begin => KeepMark(s, r);
    case Marked =>
      PlainStep(s, r);
      KeepPhaseOnly(s, r, if x.bulk then Answered(v, true) else Fetched(v));
    case Bare =>
      PlainStep(s, r);
      KeepPhaseOnly(s, r, if x.bulk then Answered(v, false) else Finished);
    case Fetched(_) => KeepPut(s, r);
    case Resetting(_) => KeepReset(s, r);
    case Failed(_) => KeepTryRemove(s, r);
    case Removing(_) => KeepRemove(s, r);
    case Answered(_, _) => KeepBulkPut(s, r);
    case Emptying(_) => KeepMoveOut(s, r);
    case Forcing(_) => KeepFree(s, r);
    case Leaked => Standstill(s, r);
    case Finished => Standstill(s, r);
  }

  lemma Standstill(s: State, r: nat)
    requires |s.marks| > 0 && r < |s.readers| && (s.readers[r].phase.Leaked? || s.readers[r].phase.Finished?)
    ensures AdvanceReader(s, r) == s
  {
    hide SlotOf;
    PlainStep(s, r);
    hide AdvanceReader, SlotOf;
    assert s.readers[r := s.readers[r]] == s.readers;
  }

  lemma KeepInterruption(s: State, r: nat)
    requires Inv(s) && r < |s.readers|
    ensures Inv(ThrowIn(s, r)) && Inv(LoseIn(s, r)) && Inv(RefuseIn(s, r))
  {
    hide SlotOf;
    var x := s.readers[r];
    match x.phase
    case Marked =>
      KeepPhaseOnly(s, r, if x.bulk then Forcing(true) else Resetting(true));
      KeepPhaseOnly(s, r, Leaked);
    case Fetched(_) => KeepPhaseOnly(s, r, Resetting(true));
    case Bare => KeepPhaseOnly(s, r, if x.bulk then Finished else Resetting(false));
    case Answered(_, held) =>
      KeepPhaseOnly(s, r, Emptying(held));
      KeepPhaseOnly(s, r, if held then Leaked else Finished);
    case Forcing(held) => if held { KeepPhaseOnly(s, r, Leaked); }
    case _ =>
  }

  lemma KeepClearMarks(s: State)
    requires Inv(s) && Safe(s, ClearMarks)
    ensures Inv(Step(s, ClearMarks))
  {
    hide SlotOf;
    var s' := Step(s, ClearMarks);
    assert forall r :: 0 <= r < |s.readers| ==> !Holds(s'.readers[r].phase);
    forall r | 0 <= r < |s'.readers|
      ensures FetchOk(s', r)
    {
      assert FetchOk(s, r);
    }
    forall k | k in s'.cache
      ensures EntryOk(s', k)
    {
      assert EntryOk(s, k);
      assert s.cache[k].content.Value? && WillRemove(s, k, s.cache[k].content.v) ==>
               WillRemove(s', k, s.cache[k].content.v);
      assert Spoiling(s, k) ==> Spoiling(s', k);
    }
  }

  lemma KeepStep(s: State, e: Event)
    requires Inv(s) && Safe(s, e)
    ensures Inv(Step(s, e))
  {
    hide Exclusive, FetchOk, EntryOk, AdvanceReader, ThrowIn, LoseIn, RefuseIn, SlotOf;
    match e
    case Write(k) => KeepWrite(s, k);
    case LocalInvalidate(k) => KeepLocal(s, k);
    case Deliver(j) =>
      if j < |s.invalidations| {
        if s.invalidations[j].delivery.Sent? {
          KeepDeliverSent(s, j);
        } else if s.invalidations[j].delivery.Halfway? {
          KeepDeliverHalfway(s, j);
        }
      }
    case Arrive(k, bulk) => KeepArrive(s, k, bulk);
    case Advance(r) => if r < |s.readers| { KeepAdvance(s, r); }
    case Throw(r) => if r < |s.readers| { KeepInterruption(s, r); }
    case Refuse(r) => if r < |s.readers| { KeepInterruption(s, r); }
    case Lose(r) => if r < |s.readers| { KeepInterruption(s, r); }
    case Evict(k) => KeepDrop(s, Step(s, e));
    case ClearMarks => KeepClearMarks(s);
    case ClearCache => KeepDrop(s, Step(s, e));
  }

  /** Exactly when: a step from a state with the invariant keeps it if and only if the step is safe. Clearing the
      marks is harmless exactly while no reader relies on one, and a reset by a reader that holds no mark exactly
      while nobody relies on the mark that it takes away. */
  lemma KeptIffSafe(s: State, e: Event)
    requires Inv(s)
    ensures Inv(Step(s, e)) <==> Safe(s, e)
  {
    hide SlotOf;
    if Safe(s, e) {
      KeepStep(s, e);
    } else if e.ClearMarks? {
      var r :| 0 <= r < |s.readers| && Relies(s.readers[r].phase);
      assert !HolderOk(Step(s, e), r);
    } else {
      MarkStolen(s, e.r);
    }
  }

  lemma MarkStolen(s: State, r: nat)
    requires Inv(s) && !Safe(s, Advance(r))
    ensures r < |s.readers| && !Inv(AdvanceReader(s, r))
  {
    hide SlotOf;
    var slot := SlotOf(s.readers[r].key, |s.marks|);
    var q := s.owner[slot];
    assert OwnerOk(s, slot) && HolderOk(s, q) && q != r;
    var s' := AdvanceReader(s, r);
    assert s'.readers[q] == s.readers[q] && slot !in s'.owner;
    assert !HolderOk(s', q);
  }

  // ----- Runs -----

  function Run(s: State, es: seq<Event>): State
    requires |s.marks| > 0
    decreases |es|
  {
    if es == [] then s else Run(Step(s, es[0]), es[1..])
  }

  ghost predicate SafeRun(s: State, es: seq<Event>)
    requires |s.marks| > 0
    decreases |es|
  {
    es != [] ==> Safe(s, es[0]) && SafeRun(Step(s, es[0]), es[1..])
  }

  lemma {:induction false} KeepRun(s: State, es: seq<Event>)
    requires Inv(s) && SafeRun(s, es)
    ensures Inv(Run(s, es))
    decreases |es|
  {
    hide Step, Exclusive, FetchOk, EntryOk, Safe, SlotOf;
    if es != [] {
      KeepStep(s, es[0]);
      KeepRun(Step(s, es[0]), es[1..]);
    }
  }

  /** A reader that has not begun, or does nothing any more. */
  predicate Idle(p: Phase) { p.Begin? || p.Leaked? || p.Finished? }

  /** Nothing that concerns k is under way. */
  ghost predicate Settled(s: State, k: Key) {
    && (forall r :: 0 <= r < |s.readers| && s.readers[r].key == k ==> Idle(s.readers[r].phase))
    && (forall j :: 0 <= j < |s.invalidations| && s.invalidations[j].key == k ==> s.invalidations[j].delivery.Done?)
  }

  /** No stale value survives: in every safe run, whatever the interleaving and whichever keys share slots, once
      the readers and invalidations of a key are done, the cache has nothing for it, the server's current value,
      or an empty value. */
  lemma NoStaleEntry(n: nat, es: seq<Event>, k: Key)
    requires n > 0 && SafeRun(Init(n), es)
    ensures var s := Run(Init(n), es);
            Settled(s, k) && k in s.cache ==> s.cache[k].content == Value(Ver(s, k)) || s.cache[k].content == Emptied
  {
    hide SlotOf;
    KeepRun(Init(n), es);
    var s := Run(Init(n), es);
    assert k in s.cache ==> EntryOk(s, k);
  }

  /** A get that nobody disturbs fills the cache, and leaves the marks as they were. */
  lemma UndisturbedGetFills(s: State, r: nat)
    requires |s.marks| > 0 && r < |s.readers| && s.readers[r].phase.Begin? && !s.readers[r].bulk
    requires s.marks[SlotOf(s.readers[r].key, |s.marks|)] == UNMARKED
    ensures var t := Run(s, [Advance(r), Advance(r), Advance(r), Advance(r)]);
            && t.cache == Store(s.cache, s.readers[r].key, Ver(s, s.readers[r].key), r)
            && t.marks == s.marks && t.readers == s.readers[r := s.readers[r].(phase := Finished)]
  {
    hide SlotOf;
    hide Step, AdvanceReader;
    var a := Advance(r);
    StepAdvance(s, r);
    TakenParts(s, r);
    var s1 := Step(s, a);
    StepAdvance(s1, r);
    PlainStep(s1, r);
    var s2 := Step(s1, a);
    StepAdvance(s2, r);
    StoreParts(s2, r);
    var s3 := Step(s2, a);
    StepAdvance(s3, r);
    FreedParts(s3, r);
    RunFour(s, a);
    hide Run;
    SlotRestored(s, s3, r);
  }

  lemma SlotRestored(s: State, t: State, r: nat)
    requires |s.marks| > 0 && r < |s.readers| == |t.readers|
    requires var slot := SlotOf(s.readers[r].key, |s.marks|);
             && s.marks[slot] == UNMARKED && t.marks == s.marks[slot := MARKED]
             && t.owner == s.owner[slot := r] && t.readers == s.readers[r := s.readers[r].(phase := Resetting(true))]
    ensures var slot := SlotOf(s.readers[r].key, |s.marks|);
            && t.marks[slot := UNMARKED] == s.marks
            && Freed(t, slot)[r := s.readers[r].(phase := Finished)] == s.readers[r := s.readers[r].(phase := Finished)]
  {
    hide SlotOf;
  }

  lemma StepAdvance(s: State, r: nat)
    requires |s.marks| > 0 && r < |s.readers|
    ensures Step(s, Advance(r)) == AdvanceReader(s, r)
  {}

  /** A get that stores. */
  lemma StoreParts(s: State, r: nat)
    requires |s.marks| > 0 && r < |s.readers| && s.readers[r].phase.Fetched?
    ensures var x := s.readers[r];
            AdvanceReader(s, r) == SetPhase(s, r, Resetting(true)).(cache := Store(s.cache, x.key, x.phase.v, r))
  {
    hide SlotOf, Store;
  }

  lemma RunFour(s: State, a: Event)
    requires |s.marks| > 0
    ensures |Step(s, a).marks| > 0 && |Step(Step(s, a), a).marks| > 0 && |Step(Step(Step(s, a), a), a).marks| > 0
    ensures Run(s, [a, a, a, a]) == Step(Step(Step(Step(s, a), a), a), a)
  {
    hide Step, SlotOf;
    StepMarks(s, a);
    StepMarks(Step(s, a), a);
    StepMarks(Step(Step(s, a), a), a);
    var s1 := Step(s, a);
    var s2 := Step(s1, a);
    assert [a, a, a, a][1..] == [a, a, a] && [a, a, a][1..] == [a, a] && [a, a][1..] == [a] && [a][1..] == [];
    assert Run(s, [a, a, a, a]) == Run(s1, [a, a, a]);
    assert Run(s1, [a, a, a]) == Run(s2, [a, a]);
    assert Run(s2, [a, a]) == Run(Step(s2, a), [a]);
  }

  lemma {:induction false} RunAppend(s: State, es: seq<Event>, fs: seq<Event>)
    requires |s.marks| > 0
    ensures |Run(s, es).marks| == |s.marks| && Run(s, es + fs) == Run(Run(s, es), fs)
    decreases |es|
  {
    hide Step, SlotOf;
    if es == [] {
      assert es + fs == fs;
    } else {
      assert (es + fs)[1..] == es[1..] + fs;
      StepMarks(s, es[0]);
      RunAppend(Step(s, es[0]), es[1..], fs);
    }
  }

  lemma StepMarks(s: State, e: Event)
    requires |s.marks| > 0
    ensures |Step(s, e).marks| == |s.marks|
  {
    hide Ver, Store, MoveOut, Freed, SlotOf;
  }

  /** The slot of a key: the absolute value of its hash modulo the number of slots, and 0 for INT_MIN. */
  lemma SlotOfHash(k: Key, n: nat)
    requires n > 0
    ensures k.hash == -0x8000_0000 ==> SlotOf(k, n) == 0
    ensures 0 <= k.hash ==> SlotOf(k, n) == k.hash % n
    ensures -0x8000_0000 < k.hash < 0 ==> SlotOf(k, n) == (-k.hash) % n
  {}

  // ----- What undisturbed sequences of steps come to -----

  /** A get that finds its slot taken returns without touching cache or marks. */
  lemma BareGetLeavesAll(s: State, r: nat)
    requires |s.marks| > 0 && r < |s.readers| && s.readers[r].phase.Begin? && !s.readers[r].bulk
    requires s.marks[SlotOf(s.readers[r].key, |s.marks|)] != UNMARKED
    ensures Run(s, [Advance(r), Advance(r)]) == SetPhase(s, r, Finished)
  {
    hide SlotOf, Step, AdvanceReader;
    StepAdvance(s, r);
    PlainStep(s, r);
    var s1 := AdvanceReader(s, r);
    StepAdvance(s1, r);
    PlainStep(s1, r);
    RunTwo(s, Advance(r), Advance(r));
  }

  /** A reader that marks and then throws stores nothing and frees its slot, be it get or get_all. */
  lemma ThrowFreesSlot(s: State, r: nat)
    requires |s.marks| > 0 && r < |s.readers| && s.readers[r].phase.Marked?
    requires s.marks[SlotOf(s.readers[r].key, |s.marks|)] == MARKED
    ensures var t := Run(s, [Throw(r), Advance(r)]);
            && t.cache == s.cache && t.marks == s.marks[SlotOf(s.readers[r].key, |s.marks|) := UNMARKED]
            && |t.readers| == |s.readers| && t.readers[r] == s.readers[r].(phase := Finished)
  {
    hide SlotOf, AdvanceReader;
    var s1 := Step(s, Throw(r));
    assert s1.marks == s.marks && s1.cache == s.cache && |s1.readers| == |s.readers|;
    assert s1.readers[r] == s.readers[r].(phase := s1.readers[r].phase);
    assert Releases(s1.readers[r].phase, MARKED);
    hide Step, ThrowIn;
    StepAdvance(s1, r);
    FreedParts(s1, r);
    RunTwo(s, Throw(r), Advance(r));
  }

  /** So does a get whose value the cache refuses, or whose put throws. */
  lemma RefusalFreesSlot(s: State, r: nat, throws: bool)
    requires |s.marks| > 0 && r < |s.readers| && s.readers[r].phase.Fetched?
    requires s.marks[SlotOf(s.readers[r].key, |s.marks|)] == MARKED
    ensures var t := Run(s, [if throws then Throw(r) else Refuse(r), Advance(r)]);
            && t.cache == s.cache && t.marks == s.marks[SlotOf(s.readers[r].key, |s.marks|) := UNMARKED]
            && |t.readers| == |s.readers| && t.readers[r] == s.readers[r].(phase := Finished)
  {
    hide SlotOf, AdvanceReader;
    var e := if throws then Throw(r) else Refuse(r);
    var s1 := Step(s, e);
    assert s1 == SetPhase(s, r, Resetting(true));
    hide Step, RefuseIn, ThrowIn;
    StepAdvance(s1, r);
    FreedParts(s1, r);
    RunTwo(s, e, Advance(r));
  }

  /** A get_all whose value the cache refuses leaves the cache alone. */
  lemma RefusalLeavesCache(n: nat, es: seq<Event>, r: nat)
    requires n > 0
    ensures var s := Run(Init(n), es);
            r < |s.readers| && s.readers[r].phase.Answered? ==>
              var t := Run(Init(n), es + [Refuse(r), Advance(r)]);
              && t.cache == s.cache && |t.readers| == |s.readers|
              && t.readers[r].phase == if s.readers[r].phase.held then Forcing(true) else Finished
  {
    hide SlotOf, Step;
    var s := Run(Init(n), es);
    TracedRun(Init(n), es);
    RunAppend(Init(n), es, [Refuse(r), Advance(r)]);
    if r < |s.readers| && s.readers[r].phase.Answered? {
      RunTwo(s, Refuse(r), Advance(r));
      RefusedMovesNothing(s, r);
    }
  }

  lemma RefusedMovesNothing(s: State, r: nat)
    requires |s.marks| > 0 && r < |s.readers| && s.readers[r].phase.Answered? && Traced(s)
    ensures var s1 := Step(s, Refuse(r));
            && |s1.marks| > 0
            && var t := Step(s1, Advance(r));
               && t.cache == s.cache && |t.readers| == |s.readers|
               && t.readers[r].phase == if s.readers[r].phase.held then Forcing(true) else Finished
  {
    hide SlotOf, AdvanceReader;
    var s1 := Step(s, Refuse(r));
    assert s1 == SetPhase(s, r, Emptying(s.readers[r].phase.held));
    hide Step, RefuseIn;
    StepAdvance(s1, r);
    AdvanceSelf(s1, r);
    StepCache(s1, Advance(r));
    var k := s.readers[r].key;
    assert k in s.cache ==> HasStored(s, s.cache[k].keyFrom, k) && HasStored(s, s.cache[k].valueFrom, k);
  }

  /** Without a mark, a get_all that throws or loses its answer is done; a get that throws goes on to reset a mark
      that it does not hold. */
  lemma ErrorWithoutMark(s: State, r: nat)
    requires |s.marks| > 0 && r < |s.readers|
    ensures s.readers[r].phase.Bare? ==>
              Step(s, Throw(r)) == SetPhase(s, r, if s.readers[r].bulk then Finished else Resetting(false))
    ensures s.readers[r].bulk && s.readers[r].phase.Answered? && !s.readers[r].phase.held ==>
              Step(s, Lose(r)) == SetPhase(s, r, Finished)
  {}

  /** A reader whose try_unmark fails takes the entry of its key out and frees the slot. */
  lemma FailedResetRemoves(s: State, r: nat)
    requires |s.marks| > 0 && r < |s.readers| && s.readers[r].phase.Resetting?
    requires s.marks[SlotOf(s.readers[r].key, |s.marks|)] != MARKED
    ensures var t := Run(s, [Advance(r), Advance(r), Advance(r), Advance(r)]);
            var k := s.readers[r].key;
            && t.cache == s.cache - {k} && t.marks == s.marks[SlotOf(k, |s.marks|) := UNMARKED]
            && |t.readers| == |s.readers| && t.readers[r] == s.readers[r].(phase := Finished)
  {
    hide SlotOf, AdvanceReader, Step;
    var held := s.readers[r].phase.held;
    StepAdvance(s, r);
    PlainStep(s, r);
    var s1 := AdvanceReader(s, r);
    StepAdvance(s1, r);
    RemoveParts(s1, r);
    var s2 := AdvanceReader(s1, r);
    StepAdvance(s2, r);
    RemoveParts(s2, r);
    var s3 := AdvanceReader(s2, r);
    StepAdvance(s3, r);
    FreedParts(s3, r);
    RunFour(s, Advance(r));
  }

  /** After a failed try_unmark a reader invalidates: it removes the mark that is on the slot by then, and the entry. */
  lemma FailedResetInvalidates(s: State, r: nat)
    requires |s.marks| > 0 && r < |s.readers| && s.readers[r].phase.Failed?
    ensures var t := Run(s, [Advance(r), Advance(r)]);
            var k := s.readers[r].key;
            var slot := SlotOf(k, |s.marks|);
            && t.cache == s.cache - {k}
            && t.marks == (if s.marks[slot] == MARKED then s.marks[slot := REMOVED] else s.marks)
            && t.readers == s.readers[r := s.readers[r].(phase := Forcing(s.readers[r].phase.held))]
  {
    hide SlotOf;
    StepAdvance(s, r);
    var s1 := AdvanceReader(s, r);
    assert s1.marks == Apply(s.marks, TryRemove(SlotOf(s.readers[r].key, |s.marks|))) && s1.cache == s.cache;
    assert s1.readers == s.readers[r := s.readers[r].(phase := Removing(s.readers[r].phase.held))];
    hide Step, AdvanceReader;
    StepAdvance(s1, r);
    RemoveParts(s1, r);
    RunTwo(s, Advance(r), Advance(r));
  }

  lemma RemoveParts(s: State, r: nat)
    requires |s.marks| > 0 && r < |s.readers|
    requires s.readers[r].phase.Removing? ||
             (s.readers[r].phase.Failed? && s.marks[SlotOf(s.readers[r].key, |s.marks|)] != MARKED)
    ensures var x := s.readers[r];
            AdvanceReader(s, r) ==
              if x.phase.Failed? then SetPhase(s, r, Removing(x.phase.held))
              else SetPhase(s, r, Forcing(x.phase.held)).(cache := s.cache - {x.key})
  {
    hide SlotOf;
  }

  // ----- What leaves the cache stays out until it is stored again -----

  /** The event makes a reader of k store. */
  predicate StoresKey(s: State, e: Event, k: Key) {
    && e.Advance? && e.r < |s.readers| && s.readers[e.r].key == k
    && (s.readers[e.r].phase.Fetched? || s.readers[e.r].phase.Answered?)
  }

  lemma UncachedStep(s: State, e: Event, k: Key)
    requires |s.marks| > 0 && k !in s.cache
    ensures k in Step(s, e).cache ==> StoresKey(s, e, k)
  {
    hide SlotOf, Step;
    StepCache(s, e);
  }

  /** In every run, a key that is not cached is cached at the end only if a reader of it stores on the way. */
  lemma {:induction false} CachedOnlyIfStored(s: State, es: seq<Event>, k: Key)
    requires |s.marks| > 0 && k !in s.cache
    ensures k in Run(s, es).cache ==> exists i :: 0 <= i < |es| && StoresKey(Run(s, es[..i]), es[i], k)
    decreases |es|
  {
    hide SlotOf, Step, StoresKey;
    if es != [] && k in Run(s, es).cache {
      var s1 := Step(s, es[0]);
      StepMarks(s, es[0]);
      UncachedStep(s, es[0], k);
      if k in s1.cache {
        assert es[..0] == [] && Run(s, []) == s;
        assert StoresKey(Run(s, es[..0]), es[0], k);
      } else {
        CachedOnlyIfStored(s1, es[1..], k);
        var i :| 0 <= i < |es[1..]| && StoresKey(Run(s1, es[1..][..i]), es[1..][i], k);
        assert es[..i + 1][1..] == es[1..][..i] && es[..i + 1][0] == es[0];
        assert Run(s, es[..i + 1]) == Run(s1, es[1..][..i]);
        assert StoresKey(Run(s, es[..i + 1]), es[i + 1], k);
      }
    }
  }

  /** clear(), both halves: no entry and no mark is left, no lost answer is remembered, and nothing else changes. */
  lemma ClearEmpties(s: State)
    requires |s.marks| > 0
    ensures var t := Run(s, [ClearMarks, ClearCache]);
            && t.cache == map[] && |t.marks| == |s.marks|
            && (forall i :: 0 <= i < |t.marks| ==> t.marks[i] == UNMARKED)
            && |t.readers| == |s.readers|
            && (forall r :: 0 <= r < |s.readers| ==>
                  t.readers[r] == if s.readers[r].phase.Leaked? then s.readers[r].(phase := Finished) else s.readers[r])
            && t.versions == s.versions && t.invalidations == s.invalidations
  {
    hide SlotOf;
    RunTwo(s, ClearMarks, ClearCache);
    hide Run;
  }

  /** Over every run that goes on after clear(): what is cached then was stored after it. */
  lemma ClearedThenCached(s: State, es: seq<Event>, k: Key)
    requires |s.marks| > 0
    ensures var t := Run(s, [ClearMarks, ClearCache]);
            && |t.marks| > 0 && Run(s, [ClearMarks, ClearCache] + es) == Run(t, es)
            && (k in Run(t, es).cache ==> exists i :: 0 <= i < |es| && StoresKey(Run(t, es[..i]), es[i], k))
  {
    hide SlotOf, Step, StoresKey;
    ClearEmpties(s);
    RunAppend(s, [ClearMarks, ClearCache], es);
    CachedOnlyIfStored(Run(s, [ClearMarks, ClearCache]), es, k);
  }

  /** An eviction takes out the entry of its key, and nothing else. */
  lemma EvictionRemoves(s: State, k: Key)
    requires |s.marks| > 0
    ensures var t := Step(s, Evict(k));
            && k !in t.cache && (forall l :: l != k && l in s.cache ==> l in t.cache && t.cache[l] == s.cache[l])
            && t.cache.Keys <= s.cache.Keys && t == s.(cache := t.cache)
  {}

  /** An invalidation, of a write at the server or of the client's own, that is delivered right away: the entry is
      gone, and the mark of a reader of the slot is removed. Only a write moves the version. */
  lemma InvalidationRemoves(s: State, k: Key, write: bool)
    requires |s.marks| > 0
    ensures var j := |s.invalidations|;
            var t := Run(s, [if write then Write(k) else LocalInvalidate(k), Deliver(j), Deliver(j)]);
            var slot := SlotOf(k, |s.marks|);
            && k !in t.cache && (forall l :: l != k && l in s.cache ==> l in t.cache && t.cache[l] == s.cache[l])
            && t.marks == (if s.marks[slot] == MARKED then s.marks[slot := REMOVED] else s.marks)
            && t.readers == s.readers && Ver(t, k) == Ver(s, k) + if write then 1 else 0
  {
    hide SlotOf, Run;
    var j := |s.invalidations|;
    var e := if write then Write(k) else LocalInvalidate(k);
    var s1 := Step(s, e);
    assert s1.marks == s.marks && s1.cache == s.cache && s1.readers == s.readers;
    assert |s1.invalidations| == j + 1 && s1.invalidations[j].key == k && s1.invalidations[j].delivery.Sent?;
    RunThree(s, e, Deliver(j), Deliver(j));
    TwoHalves(s1, j);
    hide Step;
  }

  lemma TwoHalves(s: State, j: nat)
    requires |s.marks| > 0 && j < |s.invalidations| && s.invalidations[j].delivery.Sent?
    ensures var k := s.invalidations[j].key;
            var slot := SlotOf(k, |s.marks|);
            var t1 := Step(s, Deliver(j));
            && |t1.marks| > 0
            && var t := Step(t1, Deliver(j));
               && t.cache == s.cache - {k} && t.readers == s.readers && t.versions == s.versions
               && t.marks == if s.marks[slot] == MARKED then s.marks[slot := REMOVED] else s.marks
  {
    hide SlotOf;
  }

  // ----- What get_all leaves in the cache -----

  /** Reader q may have stored something under k. */
  predicate HasStored(s: State, q: nat, k: Key) {
    q < |s.readers| && s.readers[q].key == k && HasStoredPhase(s.readers[q].phase)
  }

  predicate HasStoredPhase(p: Phase) {
    !p.Begin? && !p.Marked? && !p.Bare? && !p.Fetched? && !p.Answered?
  }

  /** Key and value of an entry come from readers of that key that have stored. */
  ghost predicate Traced(s: State) {
    forall k :: k in s.cache ==> HasStored(s, s.cache[k].keyFrom, k) && HasStored(s, s.cache[k].valueFrom, k)
  }

  /** What a step does to another reader. */
  lemma AdvanceOther(s: State, r: nat, q: nat)
    requires |s.marks| > 0 && r < |s.readers| && q < |s.readers| && q != r
    ensures var slot := SlotOf(s.readers[r].key, |s.marks|);
            var t := AdvanceReader(s, r);
            && |t.readers| == |s.readers|
            && t.readers[q] == if Releases(s.readers[r].phase, s.marks[slot]) && slot in s.owner && s.owner[slot] == q
                               then Forget(s.readers[q]) else s.readers[q]
  {
    hide SlotOf, NextMarks, NextCache, NextPhase;
  }

  /** What it does to the reader itself. */
  lemma AdvanceSelf(s: State, r: nat)
    requires |s.marks| > 0 && r < |s.readers|
    ensures var x := s.readers[r];
            var t := AdvanceReader(s, r);
            && |t.readers| == |s.readers|
            && t.readers[r] == x.(phase := NextPhase(x, Ver(s, x.key), s.marks[SlotOf(x.key, |s.marks|)]))
  {
    hide SlotOf, NextMarks, NextCache, NextPhase;
  }

  /** Reader r has just stored. */
  predicate Stores(s: State, s': State, r: nat) {
    && r < |s.readers| == |s'.readers| && s'.readers[r].key == s.readers[r].key
    && ((s.readers[r].phase.Fetched? && s'.readers[r].phase == Resetting(true)) ||
        (s.readers[r].phase.Answered? && s'.readers[r].phase.Emptying?))
  }

  lemma AdvanceStores(s: State, r: nat)
    requires |s.marks| > 0 && r < |s.readers|
    ensures s.readers[r].phase.Fetched? || s.readers[r].phase.Answered? ==> Stores(s, AdvanceReader(s, r), r)
  {
    hide SlotOf;
    AdvanceSelf(s, r);
    hide AdvanceReader;
  }

  /** What an event does to the cache. */
  ghost predicate CacheStep(s: State, e: Event, cache: map<Key, Entry>) {
    if e.Advance? && e.r < |s.readers| then cache == NextCache(s, e.r)
    else forall k :: k in cache ==> k in s.cache && cache[k] == s.cache[k]
  }

  lemma StepCache(s: State, e: Event)
    requires |s.marks| > 0
    ensures CacheStep(s, e, Step(s, e).cache)
  {
    hide SlotOf, NextMarks, NextPhase, Freed, Apply, Ver, NextCache, Forget;
  }

  /** Where an entry comes from: it was there, perhaps with another value, or the reader that moves stores it. */
  lemma EntryStep(s: State, e: Event, k: Key)
    requires |s.marks| > 0 && k in Step(s, e).cache
    ensures var s' := Step(s, e);
            var x := s'.cache[k];
            || (k in s.cache && x.keyFrom == s.cache[k].keyFrom && x.valueFrom == s.cache[k].valueFrom)
            || (e.Advance? && Stores(s, s', e.r) && s.readers[e.r].key == k && x.valueFrom == e.r &&
                x.keyFrom == if k in s.cache then s.cache[k].keyFrom else e.r)
  {
    hide SlotOf;
    StepCache(s, e);
    if e.Advance? && e.r < |s.readers| {
      StepAdvance(s, e.r);
      AdvanceStores(s, e.r);
      hide Step, AdvanceReader;
    } else {
      hide Step;
    }
  }

  /** What an interruption does to a reader. */
  predicate Interrupted(x: Reader, y: Reader) {
    || y == x
    || (y.key == x.key && !Idle(x.phase) && (HasStoredPhase(x.phase) ==> x.phase == Forcing(true) && y.phase.Leaked?))
  }

  lemma ThrownReader(s: State, r: nat, q: nat)
    requires r < |s.readers| && q < |s.readers|
    ensures |ThrowIn(s, r).readers| == |s.readers| && Interrupted(s.readers[q], ThrowIn(s, r).readers[q])
  {}

  lemma RefusedReader(s: State, r: nat, q: nat)
    requires r < |s.readers| && q < |s.readers|
    ensures |RefuseIn(s, r).readers| == |s.readers| && Interrupted(s.readers[q], RefuseIn(s, r).readers[q])
  {}

  lemma LostReader(s: State, r: nat, q: nat)
    requires r < |s.readers| && q < |s.readers|
    ensures |LoseIn(s, r).readers| == |s.readers| && Interrupted(s.readers[q], LoseIn(s, r).readers[q])
  {}

  /** What an event other than a reader's next step does to a reader. */

  lemma StepReader(s: State, e: Event, q: nat)
    requires |s.marks| > 0 && q < |s.readers| && !(e.Advance? && e.r < |s.readers|)
    ensures q < |Step(s, e).readers|
    ensures if e.ClearMarks? then Step(s, e).readers[q] == Forget(s.readers[q])
            else Interrupted(s.readers[q], Step(s, e).readers[q])
  {
    hide SlotOf, Apply, Ver, AdvanceReader, ThrowIn, RefuseIn, LoseIn, Forget;
    if (e.Throw? || e.Refuse? || e.Lose?) && e.r < |s.readers| {
      ThrownReader(s, e.r, q);
      RefusedReader(s, e.r, q);
      LostReader(s, e.r, q);
    }
  }

  lemma StillStored(s: State, e: Event, q: nat, k: Key)
    requires |s.marks| > 0 && HasStored(s, q, k)
    ensures HasStored(Step(s, e), q, k)
    ensures Step(s, e).readers[q].phase.Emptying? ==> s.readers[q].phase.Emptying?
  {
    hide SlotOf;
    if e.Advance? && e.r < |s.readers| {
      StepAdvance(s, e.r);
      if e.r == q {
        AdvanceSelf(s, q);
      } else {
        AdvanceOther(s, e.r, q);
      }
      hide Step, AdvanceReader;
    } else {
      StepReader(s, e, q);
      hide Step;
    }
  }

  lemma TracedStep(s: State, e: Event)
    requires |s.marks| > 0 && Traced(s)
    ensures Traced(Step(s, e))
  {
    hide SlotOf;
    var s' := Step(s, e);
    forall k | k in s'.cache
      ensures HasStored(s', s'.cache[k].keyFrom, k) && HasStored(s', s'.cache[k].valueFrom, k)
    {
      EntryStep(s, e, k);
      if k in s.cache {
        StillStored(s, e, s.cache[k].keyFrom, k);
        StillStored(s, e, s.cache[k].valueFrom, k);
      }
      hide Step;
    }
  }

  lemma {:induction false} TracedRun(s: State, es: seq<Event>)
    requires |s.marks| > 0 && Traced(s)
    ensures Traced(Run(s, es))
    decreases |es|
  {
    hide Step, Traced, SlotOf;
    if es != [] {
      TracedStep(s, es[0]);
      StepMarks(s, es[0]);
      TracedRun(Step(s, es[0]), es[1..]);
    }
  }

  lemma RunTwo(s: State, e: Event, f: Event)
    requires |s.marks| > 0
    ensures |Step(s, e).marks| > 0 && Run(s, [e, f]) == Step(Step(s, e), f)
  {
    hide Step, SlotOf;
    StepMarks(s, e);
    StepMarks(Step(s, e), f);
    assert [e, f][1..] == [f] && [f][1..] == [];
    assert Run(Step(s, e), [f]) == Run(Step(Step(s, e), f), []);
  }

  lemma RunThree(s: State, e: Event, f: Event, g: Event)
    requires |s.marks| > 0
    ensures |Step(s, e).marks| > 0 && |Step(Step(s, e), f).marks| > 0
    ensures Run(s, [e, f, g]) == Step(Step(Step(s, e), f), g)
  {
    hide Step, SlotOf;
    StepMarks(s, e);
    StepMarks(Step(s, e), f);
    assert [e, f, g][1..] == [f, g];
    RunTwo(Step(s, e), f, g);
  }

  /** get_all never fills the cache: in every run, safe or not, when it stores what it has fetched and moves it
      out again, no other entry changes, a key that was not there is not there afterwards, and a key that was
      there has an empty value. */
  lemma GetAllNeverFills(n: nat, es: seq<Event>, r: nat)
    requires n > 0
    ensures var s := Run(Init(n), es);
            r < |s.readers| && s.readers[r].phase.Answered? ==>
              var t := Run(Init(n), es + [Advance(r), Advance(r)]);
              var k := s.readers[r].key;
              t.cache == if k in s.cache then s.cache[k := Entry(Emptied, s.cache[k].keyFrom, r)] else s.cache
  {
    hide SlotOf, Step;
    var s := Run(Init(n), es);
    var a := Advance(r);
    TracedRun(Init(n), es);
    RunAppend(Init(n), es, [a, a]);
    StepMarks(s, a);
    if r < |s.readers| && s.readers[r].phase.Answered? {
      RunTwo(s, a, a);
      StoreThenMoveOut(s, r);
    }
  }

  lemma StoreThenMoveOut(s: State, r: nat)
    requires |s.marks| > 0 && r < |s.readers| && s.readers[r].phase.Answered? && Traced(s)
    ensures var t := Step(s, Advance(r));
            var k := s.readers[r].key;
            && |t.marks| > 0
            && Step(t, Advance(r)).cache ==
                 if k in s.cache then s.cache[k := Entry(Emptied, s.cache[k].keyFrom, r)] else s.cache
  {
    hide SlotOf, Step, AdvanceReader;
    var t := Step(s, Advance(r));
    StepMarks(s, Advance(r));
    StepAdvance(s, r);
    AdvanceSelf(s, r);
    StepCache(s, Advance(r));
    StepCache(t, Advance(r));
    assert s.readers[r].key in s.cache ==> s.cache[s.readers[r].key].keyFrom != r;
  }

  /** get_all stores only under keys that are not there. */
  ghost predicate NoOverwrite(s: State, e: Event) {
    e.Advance? && e.r < |s.readers| && s.readers[e.r].phase.Answered? ==> s.readers[e.r].key !in s.cache
  }

  ghost predicate NoOverwrites(s: State, es: seq<Event>)
    requires |s.marks| > 0
    decreases |es|
  {
    es != [] ==> NoOverwrite(s, es[0]) && NoOverwrites(Step(s, es[0]), es[1..])
  }

  /** No value is empty, nor will the get_all that stored it leave it so. */
  ghost predicate Full(s: State) {
    forall k :: k in s.cache ==>
      && s.cache[k].content.Value?
      && (Spoiling(s, k) ==> s.cache[k].keyFrom == s.cache[k].valueFrom)
  }

  lemma FullStep(s: State, e: Event)
    requires |s.marks| > 0 && Traced(s) && Full(s) && NoOverwrite(s, e)
    ensures Full(Step(s, e))
  {
    hide SlotOf;
    var s' := Step(s, e);
    forall k | k in s'.cache
      ensures s'.cache[k].content.Value? && (Spoiling(s', k) ==> s'.cache[k].keyFrom == s'.cache[k].valueFrom)
    {
      assert k in s.cache ==> HasStored(s, s.cache[k].keyFrom, k) && HasStored(s, s.cache[k].valueFrom, k);
      FullEntry(s, e, k);
    }
  }

  /** Only moving out empties a value. */
  lemma FullContent(s: State, e: Event, k: Key)
    requires |s.marks| > 0 && Full(s) && k in Step(s, e).cache
    ensures Step(s, e).cache[k].content.Value?
  {
    hide SlotOf, Step;
    StepCache(s, e);
    if e.Advance? && e.r < |s.readers| {
      var x := s.readers[e.r];
      assert k in s.cache && x.phase.Emptying? && x.key == k && s.cache[k].valueFrom == e.r ==> Spoiling(s, k);
    }
  }

  lemma FullEntry(s: State, e: Event, k: Key)
    requires |s.marks| > 0 && Full(s) && NoOverwrite(s, e) && k in Step(s, e).cache
    requires k in s.cache ==> HasStored(s, s.cache[k].keyFrom, k) && HasStored(s, s.cache[k].valueFrom, k)
    ensures var s' := Step(s, e);
            s'.cache[k].content.Value? && (Spoiling(s', k) ==> s'.cache[k].keyFrom == s'.cache[k].valueFrom)
  {
    hide SlotOf;
    var s' := Step(s, e);
    EntryStep(s, e, k);
    FullContent(s, e, k);
    if k in s.cache && s'.cache[k].valueFrom == s.cache[k].valueFrom {
      StillStored(s, e, s.cache[k].valueFrom, k);
    }
    hide Step;
  }

  lemma {:induction false} FullRun(s: State, es: seq<Event>)
    requires |s.marks| > 0 && Traced(s) && Full(s) && NoOverwrites(s, es)
    ensures Full(Run(s, es))
    decreases |es|
  {
    hide Step, Traced, Full, NoOverwrite, SlotOf;
    if es != [] {
      TracedStep(s, es[0]);
      FullStep(s, es[0]);
      StepMarks(s, es[0]);
      FullRun(Step(s, es[0]), es[1..]);
    }
  }

  /** If no get_all stores over an entry, then a settled key has the server's current value or none. */
  lemma OnlyFreshEntries(n: nat, es: seq<Event>, k: Key)
    requires n > 0 && SafeRun(Init(n), es) && NoOverwrites(Init(n), es)
    ensures var s := Run(Init(n), es);
            Settled(s, k) && k in s.cache ==> s.cache[k].content == Value(Ver(s, k))
  {
    hide SlotOf;
    NoStaleEntry(n, es, k);
    FullRun(Init(n), es);
  }

  // ----- Marks that stay behind -----

  /** The mark of a reader whose answer is lost is still on the slot. */
  predicate LeftBehind(x: Reader, slot: nat, n: nat)
    requires n > 0
  {
    x.phase.Leaked? && SlotOf(x.key, n) == slot
  }

  /** In every safe run, once all readers are done, a slot is taken if and only if a reader of one of its keys has
      lost its answer and nobody has freed the slot since. */
  lemma TakenIffLeaked(n: nat, es: seq<Event>, slot: nat)
    requires slot < n && SafeRun(Init(n), es)
    ensures var s := Run(Init(n), es);
            |s.marks| == n &&
            ((forall r :: 0 <= r < |s.readers| ==> Idle(s.readers[r].phase)) ==>
               (s.marks[slot] != UNMARKED <==> exists r :: 0 <= r < |s.readers| && LeftBehind(s.readers[r], slot, n)))
  {
    hide SlotOf;
    var s := Run(Init(n), es);
    KeepRun(Init(n), es);
    RunAppend(Init(n), es, []);
    if forall r :: 0 <= r < |s.readers| ==> Idle(s.readers[r].phase) {
      if s.marks[slot] != UNMARKED {
        assert OwnerOk(s, slot);
        var r := s.owner[slot];
        assert LeftBehind(s.readers[r], slot, n);
      }
      forall r | 0 <= r < |s.readers| && LeftBehind(s.readers[r], slot, n)
        ensures s.marks[slot] != UNMARKED
      {
        assert HolderOk(s, r);
      }
    }
  }

  /** The marks are cleared, or a reader that holds no mark resets or forces that of the slot. */
  predicate Frees(s: State, e: Event, slot: nat)
    requires slot < |s.marks|
  {
    match e
    case ClearMarks => true
    case Advance(q) =>
      && q < |s.readers| && SlotOf(s.readers[q].key, |s.marks|) == slot
      && (s.readers[q].phase == Forcing(false) || (s.readers[q].phase == Resetting(false) && s.marks[slot] == MARKED))
    case _ => false
  }

  predicate NeverFreed(s: State, es: seq<Event>, slot: nat)
    requires slot < |s.marks|
    decreases |es|
  {
    StepMarksAll(s);
    es != [] ==> !Frees(s, es[0], slot) && NeverFreed(Step(s, es[0]), es[1..], slot)
  }

  lemma StepMarksAll(s: State)
    requires |s.marks| > 0
    ensures forall e :: |Step(s, e).marks| == |s.marks|
  {
    hide SlotOf;
    forall e
      ensures |Step(s, e).marks| == |s.marks|
    {
      StepMarks(s, e);
    }
  }

  lemma LeakedStep(s: State, e: Event, r: nat)
    requires Inv(s) && r < |s.readers| && s.readers[r].phase.Leaked?
    ensures var t := Step(s, e);
            && r < |t.readers| && t.readers[r].key == s.readers[r].key
            && t.readers[r].phase == if Frees(s, e, SlotOf(s.readers[r].key, |s.marks|)) then Finished else Leaked
  {
    hide SlotOf, FetchOk, EntryOk;
    if e.Advance? && e.r < |s.readers| {
      StepAdvance(s, e.r);
      assert HolderOk(s, r) && HolderOk(s, e.r);
      LeakedAdvance(s, e.r, r);
      hide Step, AdvanceReader;
    } else {
      StepReader(s, e, r);
      hide Step;
    }
  }

  lemma LeakedAdvance(s: State, q: nat, r: nat)
    requires |s.marks| > 0 && q < |s.readers| && r < |s.readers| && s.readers[r].phase.Leaked?
    requires HolderOk(s, r) && HolderOk(s, q)
    requires forall slot :: slot in s.owner ==> OwnerOk(s, slot)
    ensures var t := AdvanceReader(s, q);
            && r < |t.readers| && t.readers[r].key == s.readers[r].key
            && t.readers[r].phase == if Frees(s, Advance(q), SlotOf(s.readers[r].key, |s.marks|)) then Finished else Leaked
  {
    hide SlotOf;
    if q == r {
      AdvanceSelf(s, q);
    } else {
      AdvanceOther(s, q, r);
      assert SlotOf(s.readers[q].key, |s.marks|) in s.owner ==> OwnerOk(s, SlotOf(s.readers[q].key, |s.marks|));
    }
    hide AdvanceReader;
  }

  lemma FinishedStep(s: State, e: Event, r: nat)
    requires |s.marks| > 0 && r < |s.readers| && s.readers[r].phase.Finished?
    ensures r < |Step(s, e).readers| && Step(s, e).readers[r] == s.readers[r]
  {
    hide SlotOf;
    if e.Advance? && e.r < |s.readers| {
      StepAdvance(s, e.r);
      if e.r == r {
        AdvanceSelf(s, r);
      } else {
        AdvanceOther(s, e.r, r);
      }
      hide Step, AdvanceReader;
    } else {
      StepReader(s, e, r);
      hide Step;
    }
  }

  lemma {:induction false} FinishedStays(s: State, es: seq<Event>, r: nat)
    requires |s.marks| > 0 && r < |s.readers| && s.readers[r].phase.Finished?
    ensures r < |Run(s, es).readers| && Run(s, es).readers[r] == s.readers[r]
    decreases |es|
  {
    hide Step, SlotOf;
    if es != [] {
      FinishedStep(s, es[0], r);
      StepMarks(s, es[0]);
      FinishedStays(Step(s, es[0]), es[1..], r);
    }
  }

  /** A mark that stays behind after a lost answer stays exactly until somebody clears the marks, or a reader that
      throws without holding the mark frees the slot; until then no try_mark on that slot goes through. */
  lemma {:induction false} LeakedUntilFreed(s: State, es: seq<Event>, r: nat)
    requires Inv(s) && SafeRun(s, es) && r < |s.readers| && s.readers[r].phase.Leaked?
    ensures var t := Run(s, es);
            var slot := SlotOf(s.readers[r].key, |s.marks|);
            && |t.marks| == |s.marks| && r < |t.readers| && t.readers[r].key == s.readers[r].key
            && (t.readers[r].phase.Leaked? <==> NeverFreed(s, es, slot))
            && (t.readers[r].phase.Leaked? ==> !Succeeds(t.marks, TryMark(slot)))
    decreases |es|
  {
    hide Step, EntryOk, Safe, FetchOk, Frees, SlotOf;
    if es == [] {
      assert HolderOk(s, r);
    } else {
      var s' := Step(s, es[0]);
      LeakedStep(s, es[0], r);
      StepMarks(s, es[0]);
      KeepStep(s, es[0]);
      if s'.readers[r].phase.Leaked? {
        LeakedUntilFreed(s', es[1..], r);
      } else {
        FinishedStays(s', es[1..], r);
        RunAppend(s', es[1..], []);
      }
    }
  }

  // ----- Why unsafe steps are excluded -----

  ghost predicate Stale(s: State, k: Key) {
    Settled(s, k) && k in s.cache && s.cache[k].content.Value? && s.cache[k].content.v < Ver(s, k)
  }

  lemma {:induction false} SafeRunAppend(s: State, es: seq<Event>, e: Event)
    requires |s.marks| > 0
    ensures |Run(s, es).marks| > 0 && (SafeRun(s, es) && Safe(Run(s, es), e) ==> SafeRun(s, es + [e]))
    decreases |es|
  {
    hide Step, Safe, SlotOf;
    if es == [] {
      assert es + [e] == [e] && [e][1..] == [];
      StepMarks(s, e);
    } else {
      assert (es + [e])[1..] == es[1..] + [e];
      StepMarks(s, es[0]);
      SafeRunAppend(Step(s, es[0]), es[1..], e);
    }
  }

  /** One more event of a run. */
  ghost function Then(n: nat, es: seq<Event>, e: Event): (r: seq<Event>)
    requires n > 0
    ensures r == es + [e]
    ensures |Run(Init(n), es).marks| > 0 && Run(Init(n), r) == Step(Run(Init(n), es), e)
  {
    RunAppend(Init(n), es, [e]);
    StepMarks(Run(Init(n), es), e);
    assert [e][1..] == [];
    es + [e]
  }

  ghost function SafeThen(n: nat, es: seq<Event>, e: Event): (r: seq<Event>)
    requires n > 0 && SafeRun(Init(n), es) && |Run(Init(n), es).marks| > 0 && Safe(Run(Init(n), es), e)
    ensures r == Then(n, es, e) && SafeRun(Init(n), r)
  {
    SafeRunAppend(Init(n), es, e);
    Then(n, es, e)
  }

  /** A get of k takes the mark. */
  lemma GetMarks(k: Key) returns (es: seq<Event>)
    ensures es == [Arrive(k, false), Advance(0)] && SafeRun(Init(1), es)
    ensures Run(Init(1), es) == State([MARKED], map[], map[], [Reader(k, false, Marked)], [], map[0 := 0])
  {
    hide SlotOf;
    es := SafeThen(1, [], Arrive(k, false));
    es := SafeThen(1, es, Advance(0));
  }

  /** ... and fetches the first version; then k is written ... */
  lemma FetchThenWrite(k: Key) returns (es: seq<Event>)
    ensures es == [Arrive(k, false), Advance(0), Advance(0), Write(k)]
    ensures Run(Init(1), es) ==
              State([MARKED], map[], map[k := 1], [Reader(k, false, Fetched(0))], [Invalidation(k, 1, Sent)], map[0 := 0])
  {
    hide SlotOf, Run;
    es := GetMarks(k);
    es := Then(1, es, Advance(0));
    es := Then(1, es, Write(k));
  }

  /** ... and invalidated. */
  lemma FetchThenInvalidate(k: Key) returns (es: seq<Event>)
    ensures es == [Arrive(k, false), Advance(0), Advance(0), Write(k), Deliver(0), Deliver(0)]
    ensures Run(Init(1), es) ==
              State([REMOVED], map[], map[k := 1], [Reader(k, false, Fetched(0))], [Invalidation(k, 1, Done)], map[0 := 0])
  {
    hide SlotOf, Run;
    es := FetchThenWrite(k);
    es := Then(1, es, Deliver(0));
    es := Then(1, es, Deliver(0));
  }

  /** A reader whose answer is lost leaves its mark behind, be it get or get_all: a safe run after which all readers
      are done and a later get of the key has gone without the mark. */
  lemma LostAnswerLeaks(k: Key, bulk: bool) returns (es: seq<Event>)
    ensures SafeRun(Init(1), es)
    ensures Run(Init(1), es) ==
              State([MARKED], map[], map[], [Reader(k, bulk, Leaked), Reader(k, false, Finished)], [], map[0 := 0])
  {
    hide SlotOf, Run, SafeRun;
    es := LostAnswer(k, bulk);
    es := SafeThen(1, es, Arrive(k, false));
    es := SafeThen(1, es, Advance(1));
    assert Run(Init(1), es) ==
           State([MARKED], map[], map[], [Reader(k, bulk, Leaked), Reader(k, false, Bare)], [], map[0 := 0]);
    es := SafeThen(1, es, Advance(1));
  }

  lemma LostAnswer(k: Key, bulk: bool) returns (es: seq<Event>)
    ensures SafeRun(Init(1), es)
    ensures Run(Init(1), es) == State([MARKED], map[], map[], [Reader(k, bulk, Leaked)], [], map[0 := 0])
  {
    hide SlotOf;
    es := SafeThen(1, [], Arrive(k, bulk));
    es := SafeThen(1, es, Advance(0));
    es := SafeThen(1, es, Lose(0));
  }

  /** So does a get_all that ends with an error after its answer, before or after it has stored. */
  lemma LateErrorLeaks(k: Key, stored: bool) returns (es: seq<Event>)
    ensures SafeRun(Init(1), es)
    ensures Run(Init(1), es) == State([MARKED], map[], map[], [Reader(k, true, Leaked)], [], map[0 := 0])
  {
    hide SlotOf, Run, SafeRun;
    es := GetAllAnswered(k);
    if stored {
      es := SafeThen(1, es, Advance(0));
      es := SafeThen(1, es, Advance(0));
      assert Run(Init(1), es) == State([MARKED], map[], map[], [Reader(k, true, Forcing(true))], [], map[0 := 0]);
    }
    es := SafeThen(1, es, Lose(0));
  }

  lemma GetAllAnswered(k: Key) returns (es: seq<Event>)
    ensures SafeRun(Init(1), es)
    ensures Run(Init(1), es) == State([MARKED], map[], map[], [Reader(k, true, Answered(0, true))], [], map[0 := 0])
  {
    hide SlotOf;
    es := SafeThen(1, [], Arrive(k, true));
    es := SafeThen(1, es, Advance(0));
    es := SafeThen(1, es, Advance(0));
  }

  /** clear() in between ... */
  lemma ClearUnderReader(k: Key) returns (es: seq<Event>)
    ensures Run(Init(1), es) ==
              State([UNMARKED], map[], map[k := 1], [Reader(k, false, Fetched(0))], [Invalidation(k, 1, Done)], map[])
  {
    hide SlotOf, Run;
    es := FetchThenInvalidate(k);
    es := Then(1, es, ClearMarks);
    assert Run(Init(1), es).marks == [UNMARKED] && Run(Init(1), es).readers == [Reader(k, false, Fetched(0))];
    es := Then(1, es, ClearCache);
  }

  /** ... hands the slot to the reader of another key ... */
  lemma ClearHandsOverSlot(k: Key, l: Key) returns (es: seq<Event>)
    ensures Run(Init(1), es) ==
              State([MARKED], map[], map[k := 1], [Reader(k, false, Fetched(0)), Reader(l, false, Marked)],
                    [Invalidation(k, 1, Done)], map[0 := 1])
  {
    hide SlotOf, Run;
    es := ClearUnderReader(k);
    es := Then(1, es, Arrive(l, false));
    es := Then(1, es, Advance(1));
  }

  /** ... and the first reader takes that mark for its own, so that its stale value stays. */
  lemma ClearLeavesStaleEntry(k: Key, l: Key) returns (es: seq<Event>)
    requires k != l
    ensures Stale(Run(Init(1), es), k)
  {
    hide SlotOf;
    es := ClearHandsOverSlot(k, l);
    es := Then(1, es, Advance(0));
    es := Then(1, es, Advance(0));
    assert Run(Init(1), es).readers == [Reader(k, false, Finished), Reader(l, false, Marked)];
  }

  /** While a get of k has fetched, a get of l, which shares the slot, goes without the mark ... */
  lemma BareBeside(k: Key, l: Key) returns (es: seq<Event>)
    ensures Run(Init(1), es) ==
              State([MARKED], map[], map[], [Reader(k, false, Fetched(0)), Reader(l, false, Bare)], [], map[0 := 0])
  {
    hide SlotOf, Run;
    es := GetMarks(k);
    es := Then(1, es, Advance(0));
    es := Then(1, es, Arrive(l, false));
    es := Then(1, es, Advance(1));
  }

  /** ... throws, and resets the mark of the get of k. */
  lemma MarkReset(k: Key, l: Key) returns (es: seq<Event>)
    ensures Run(Init(1), es) ==
              State([UNMARKED], map[], map[], [Reader(k, false, Fetched(0)), Reader(l, false, Finished)], [], map[])
  {
    hide SlotOf, Run;
    es := BareBeside(k, l);
    es := Then(1, es, Throw(1));
    es := Then(1, es, Advance(1));
  }

  /** After that k is written and invalidated, and the next reader of l takes the slot ... */
  lemma MarkTakenOver(k: Key, l: Key) returns (es: seq<Event>)
    ensures Run(Init(1), es) ==
              State([MARKED], map[], map[k := 1],
                    [Reader(k, false, Fetched(0)), Reader(l, false, Finished), Reader(l, false, Marked)],
                    [Invalidation(k, 1, Done)], map[0 := 2])
  {
    hide SlotOf;
    es := MarkReset(k, l);
    es := Then(1, es, Write(k));
    es := Then(1, es, Deliver(0));
    es := Then(1, es, Deliver(0));
    assert Run(Init(1), es) ==
           State([UNMARKED], map[], map[k := 1], [Reader(k, false, Fetched(0)), Reader(l, false, Finished)],
                 [Invalidation(k, 1, Done)], map[]);
    es := Then(1, es, Arrive(l, false));
    es := Then(1, es, Advance(2));
  }

  /** ... and the reader of k takes that mark for its own. */
  lemma ThrowLeavesStaleEntry(k: Key, l: Key) returns (es: seq<Event>)
    requires k != l
    ensures Stale(Run(Init(1), es), k)
  {
    hide SlotOf;
    es := MarkTakenOver(k, l);
    es := Then(1, es, Advance(0));
    es := Then(1, es, Advance(0));
    assert Run(Init(1), es).readers == [Reader(k, false, Finished), Reader(l, false, Finished), Reader(l, false, Marked)];
  }

  /** A get_all of k fetches while a get of k holds the mark ... */
  lemma FetchBesideMark(k: Key) returns (es: seq<Event>)
    ensures Run(Init(1), es) ==
              State([MARKED], map[], map[], [Reader(k, false, Marked), Reader(k, true, Answered(0, false))], [], map[0 := 0])
    ensures SafeRun(Init(1), es)
  {
    hide SlotOf, Run, SafeRun;
    es := GetMarks(k);
    es := SafeThen(1, es, Arrive(k, true));
    es := SafeThen(1, es, Advance(1));
    es := SafeThen(1, es, Advance(1));
  }

  /** ... and then the get stores ... */
  lemma StoreBesideFetch(k: Key) returns (es: seq<Event>)
    ensures Run(Init(1), es) ==
              State([MARKED], map[k := Entry(Value(0), 0, 0)], map[],
                    [Reader(k, false, Resetting(true)), Reader(k, true, Answered(0, false))], [], map[0 := 0])
    ensures SafeRun(Init(1), es)
  {
    hide SlotOf, Run, SafeRun;
    es := FetchBesideMark(k);
    es := SafeThen(1, es, Advance(0));
    es := SafeThen(1, es, Advance(0));
  }

  /** ... and is done. */
  lemma FetchBesideGet(k: Key) returns (es: seq<Event>)
    ensures Run(Init(1), es) ==
              State([UNMARKED], map[k := Entry(Value(0), 0, 0)], map[],
                    [Reader(k, false, Finished), Reader(k, true, Answered(0, false))], [], map[])
    ensures SafeRun(Init(1), es)
  {
    hide SlotOf, Run, SafeRun;
    es := StoreBesideFetch(k);
    es := SafeThen(1, es, Advance(0));
  }

  /** The get_all then stores and empties what the get has left: nothing is under way any more, no step was
      unsafe, and the entry is empty. */
  lemma GetAllEmptiesEntry(k: Key) returns (es: seq<Event>)
    ensures var s := Run(Init(1), es); Settled(s, k) && k in s.cache && s.cache[k].content == Emptied
    ensures SafeRun(Init(1), es)
  {
    hide SlotOf;
    es := FetchBesideGet(k);
    es := SafeThen(1, es, Advance(1));
    es := SafeThen(1, es, Advance(1));
    assert Run(Init(1), es).readers == [Reader(k, false, Finished), Reader(k, true, Finished)];
  }

  // ----- Every unsafe step can end in a stale entry -----

  /** What happens all the time: gets, their steps, writes and invalidations. */
  predicate Ordinary(e: Event) {
    e.Advance? || e.Write? || e.Deliver? || (e.Arrive? && !e.bulk)
  }

  ghost predicate OrdinaryRun(s: State, es: seq<Event>, t: State)
    requires |s.marks| > 0
  {
    (forall i :: 0 <= i < |es| ==> Ordinary(es[i])) && SafeRun(s, es) && t == Run(s, es)
  }

  /** One more event in front. */
  lemma OrdinaryCons(s: State, e: Event, s': State, es: seq<Event>, t: State)
    requires |s.marks| > 0 && s' == Step(s, e) && Ordinary(e) && Safe(s, e)
    ensures |s'.marks| == |s.marks| && (OrdinaryRun(s', es, t) ==> OrdinaryRun(s, [e] + es, t))
  {
    hide Step, SlotOf;
    StepMarks(s, e);
    assert ([e] + es)[1..] == es;
  }

  lemma {:induction false} OrdinaryJoin(s: State, es: seq<Event>, t: State, fs: seq<Event>, u: State)
    requires |s.marks| > 0 && OrdinaryRun(s, es, t)
    ensures |t.marks| == |s.marks| && (OrdinaryRun(t, fs, u) ==> OrdinaryRun(s, es + fs, u))
    decreases |es|
  {
    hide Step, SlotOf, Safe;
    if es == [] {
      assert es + fs == fs;
    } else {
      var s', rest := Step(s, es[0]), es[1..];
      StepMarks(s, es[0]);
      assert forall i :: 0 <= i < |rest| ==> rest[i] == es[i + 1];
      OrdinaryJoin(s', rest, t, fs, u);
      assert es + fs == [es[0]] + (rest + fs);
      OrdinaryCons(s, es[0], s', rest + fs, u);
    }
  }

  /** Reader q relies on a mark that is gone. */
  ghost predicate Robbed(s: State, q: nat)
    requires |s.marks| > 0
  {
    q < |s.readers| && Relies(s.readers[q].phase) && s.marks[SlotOf(s.readers[q].key, |s.marks|)] == UNMARKED
  }

  lemma UnsafeRobs(s: State, e: Event) returns (q: nat)
    requires Inv(s) && !Safe(s, e)
    ensures |Step(s, e).marks| > 0 && Robbed(Step(s, e), q)
  {
    hide SlotOf, FetchOk, EntryOk;
    if e.ClearMarks? {
      q :| 0 <= q < |s.readers| && Relies(s.readers[q].phase);
    } else {
      var slot := SlotOf(s.readers[e.r].key, |s.marks|);
      q := s.owner[slot];
      assert OwnerOk(s, slot) && HolderOk(s, q) && q != e.r;
      StepAdvance(s, e.r);
      FreedParts(s, e.r);
      hide Step, AdvanceReader;
    }
  }

  /** Steps that a robbed reader has ahead of it before it forces. */
  function StepsAhead(p: Phase): nat {
    match p
    case Marked => 5
    case Fetched(_) => 4
    case Resetting(_) => 3
    case Failed(_) => 2
    case Answered(_, _) => 2
    case Removing(_) => 1
    case Emptying(_) => 1
    case _ => 0
  }

  lemma RobbedStep(s: State, q: nat)
    requires |s.marks| > 0 && Robbed(s, q) && !s.readers[q].phase.Forcing?
    ensures Safe(s, Advance(q))
    ensures var t := AdvanceReader(s, q);
            && t.marks == s.marks && t.invalidations == s.invalidations && |t.readers| == |s.readers|
            && t.readers == s.readers[q := t.readers[q]] && t.readers[q].key == s.readers[q].key
            && Relies(t.readers[q].phase) && StepsAhead(t.readers[q].phase) < StepsAhead(s.readers[q].phase)
  {
    hide SlotOf, NextCache, Ver;
  }

  /** Its try_unmark fails, and it goes on to force the mark. */
  lemma {:induction false} RobbedForces(s: State, q: nat) returns (es: seq<Event>, t: State)
    requires |s.marks| > 0 && Robbed(s, q)
    ensures OrdinaryRun(s, es, t) && t.marks == s.marks && t.invalidations == s.invalidations
    ensures t.readers == s.readers[q := s.readers[q].(phase := Forcing(true))]
    decreases StepsAhead(s.readers[q].phase)
  {
    hide SlotOf, Step, AdvanceReader;
    if s.readers[q].phase.Forcing? {
      es, t := [], s;
      assert s.readers[q].phase == Forcing(true);
      assert s.readers[q := s.readers[q]] == s.readers;
    } else {
      RobbedStep(s, q);
      AdvanceSelf(s, q);
      StepAdvance(s, q);
      var s' := AdvanceReader(s, q);
      es, t := RobbedForces(s', q);
      OrdinaryCons(s, Advance(q), s', es, t);
      es := [Advance(q)] + es;
    }
  }

  /** A get of a key of the same slot marks and fetches; then the robbed reader takes its mark away. */
  lemma RobbedRobs(s: State, q: nat, l: Key) returns (es: seq<Event>, t: State)
    requires |s.marks| > 0 && q < |s.readers| && s.readers[q].phase == Forcing(true)
    requires var slot := SlotOf(l, |s.marks|);
             SlotOf(s.readers[q].key, |s.marks|) == slot && s.marks[slot] == UNMARKED
    ensures OrdinaryRun(s, es, t) && t.marks == s.marks && t.invalidations == s.invalidations && t.versions == s.versions
    ensures t.readers == s.readers[q := s.readers[q].(phase := Finished)] + [Reader(l, false, Fetched(Ver(s, l)))]
  {
    hide SlotOf, Step, AdvanceReader;
    var a, slot := |s.readers|, SlotOf(l, |s.marks|);
    var s1 := s.(readers := s.readers + [Reader(l, false, Begin)]);
    StepArrive(s, l);
    StepAdvance(s1, a);
    TakenParts(s1, a);
    var s2 := AdvanceReader(s1, a);
    StepAdvance(s2, a);
    PlainStep(s2, a);
    var s3 := AdvanceReader(s2, a);
    StepAdvance(s3, q);
    FreedParts(s3, q);
    t := AdvanceReader(s3, q);
    assert s3.readers == s.readers + [Reader(l, false, Fetched(Ver(s, l)))];
    assert Freed(s3, slot) == s3.readers;
    es := ThreeThen(s, Arrive(l, false), s1, Advance(a), s2, Advance(a), s3, Advance(q), t);
  }

  lemma StepArrive(s: State, l: Key)
    requires |s.marks| > 0
    ensures Step(s, Arrive(l, false)) == s.(readers := s.readers + [Reader(l, false, Begin)])
  {}

  /** A run of four. */
  lemma ThreeThen(s: State, e1: Event, s1: State, e2: Event, s2: State, e3: Event, s3: State, e4: Event, t: State)
    returns (es: seq<Event>)
    requires |s.marks| > 0 && s1 == Step(s, e1) && |s1.marks| > 0 && s2 == Step(s1, e2) && |s2.marks| > 0
    requires s3 == Step(s2, e3) && |s3.marks| > 0 && t == Step(s3, e4)
    requires Ordinary(e1) && Ordinary(e2) && Ordinary(e3) && Ordinary(e4)
    requires Safe(s, e1) && Safe(s1, e2) && Safe(s2, e3) && Safe(s3, e4)
    ensures OrdinaryRun(s, es, t)
  {
    hide SlotOf, Step, Safe, OrdinaryRun, Ordinary;
    StepMarks(s3, e4);
    Standing(t);
    OrdinaryCons(s3, e4, t, [], t);
    OrdinaryCons(s2, e3, s3, [e4] + [], t);
    OrdinaryCons(s1, e2, s2, [e3] + ([e4] + []), t);
    OrdinaryCons(s, e1, s1, [e2] + ([e3] + ([e4] + [])), t);
    es := [e1] + ([e2] + ([e3] + ([e4] + [])));
  }

  lemma Standing(s: State)
    requires |s.marks| > 0
    ensures OrdinaryRun(s, [], s)
  {}

  /** A write of l whose invalidation finds no mark. */
  lemma InvalidationMisses(s: State, l: Key) returns (es: seq<Event>, t: State)
    requires |s.marks| > 0 && s.marks[SlotOf(l, |s.marks|)] == UNMARKED
    ensures OrdinaryRun(s, es, t) && t.marks == s.marks && t.readers == s.readers && Ver(t, l) == Ver(s, l) + 1
    ensures t.invalidations == s.invalidations + [Invalidation(l, Ver(s, l) + 1, Done)]
  {
    hide SlotOf;
    var j, v := |s.invalidations|, Ver(s, l) + 1;
    var s1 := Step(s, Write(l));
    var s2 := Step(s1, Deliver(j));
    assert s2 == s1.(invalidations := s.invalidations + [Invalidation(l, v, Halfway)]);
    t := Step(s2, Deliver(j));
    assert t.invalidations == s.invalidations + [Invalidation(l, v, Done)];
    hide Step;
    es := [Write(l)] + ([Deliver(j)] + ([Deliver(j)] + []));
    Standing(t);
    OrdinaryCons(s2, Deliver(j), t, [], t);
    OrdinaryCons(s1, Deliver(j), s2, [Deliver(j)] + [], t);
    OrdinaryCons(s, Write(l), s1, [Deliver(j)] + ([Deliver(j)] + []), t);
  }

  /** A get of x takes the mark; then the get of l stores, and takes that mark for its own. */
  lemma StaleStays(s: State, a: nat, x: Key) returns (es: seq<Event>, t: State)
    requires |s.marks| > 0 && a < |s.readers| && s.readers[a].phase.Fetched?
    requires var slot := SlotOf(x, |s.marks|);
             SlotOf(s.readers[a].key, |s.marks|) == slot && s.marks[slot] == UNMARKED
    ensures OrdinaryRun(s, es, t) && t.invalidations == s.invalidations && t.versions == s.versions
    ensures t.readers == s.readers[a := s.readers[a].(phase := Finished)] + [Reader(x, false, Marked)]
    ensures s.readers[a].key in t.cache && t.cache[s.readers[a].key].content == Value(s.readers[a].phase.v)
  {
    hide SlotOf, Step, AdvanceReader;
    var b, slot := |s.readers|, SlotOf(x, |s.marks|);
    var s1 := s.(readers := s.readers + [Reader(x, false, Begin)]);
    StepArrive(s, x);
    StepAdvance(s1, b);
    TakenParts(s1, b);
    var s2 := AdvanceReader(s1, b);
    StepAdvance(s2, a);
    StoreParts(s2, a);
    var s3 := AdvanceReader(s2, a);
    StepAdvance(s3, a);
    FreedParts(s3, a);
    t := AdvanceReader(s3, a);
    assert Freed(s3, slot) == s3.readers;
    es := ThreeThen(s, Arrive(x, false), s1, Advance(b), s2, Advance(a), s3, Advance(a), t);
  }

  /** A key that nothing is under way for. */
  ghost predicate Unused(s: State, l: Key) {
    && (forall r :: 0 <= r < |s.readers| ==> s.readers[r].key != l)
    && (forall j :: 0 <= j < |s.invalidations| ==> s.invalidations[j].key != l)
  }

  lemma UnusedKey(s: State, hash: Hash) returns (l: Key)
    ensures l.hash == hash && Unused(s, l)
  {
    var ids := (set r | 0 <= r < |s.readers| :: s.readers[r].key.id)
               + (set j | 0 <= j < |s.invalidations| :: s.invalidations[j].key.id);
    var id := NotIn(ids);
    l := Key(id, hash);
    assert forall r :: 0 <= r < |s.readers| ==> s.readers[r].key.id in ids;
    assert forall j :: 0 <= j < |s.invalidations| ==> s.invalidations[j].key.id in ids;
  }

  lemma {:induction false} NotIn(ids: set<nat>) returns (id: nat)
    ensures forall i :: i in ids ==> i < id
    decreases |ids|
  {
    if ids == {} {
      id := 0;
    } else {
      var i :| i in ids;
      id := NotIn(ids - {i});
      assert forall j :: j in ids ==> j == i || j in ids - {i};
      if id <= i {
        id := i + 1;
      }
    }
  }

  /** From every state with the invariant, an unsafe step can be followed by ordinary steps to a stale value that
      nobody is going to remove. */
  lemma UnsafeCanEndStale(s: State, e: Event) returns (es: seq<Event>, l: Key)
    requires Inv(s) && !Safe(s, e)
    ensures |Step(s, e).marks| > 0 && OrdinaryRun(Step(s, e), es, Run(Step(s, e), es))
    ensures Stale(Run(Step(s, e), es), l)
  {
    hide SlotOf, Step, OrdinaryRun, Exclusive, FetchOk, EntryOk, Safe;
    var s0 := Step(s, e);
    var q := UnsafeRobs(s, e);
    var x := s0.readers[q].key;
    l := UnusedKey(s0, x.hash);
    SameSlot(x, l, |s0.marks|);
    var es1, s1 := RobbedForces(s0, q);
    var es2, s2 := RobbedRobs(s1, q, l);
    var es3, s3 := InvalidationMisses(s2, l);
    var es4, s4 := StaleStays(s3, |s0.readers|, x);
    es := es1 + (es2 + (es3 + es4));
    OrdinaryJoin(s2, es3, s3, es4, s4);
    OrdinaryJoin(s1, es2, s2, es3 + es4, s4);
    OrdinaryJoin(s0, es1, s1, es2 + (es3 + es4), s4);
    EndsAt(s0, es, s4);
    StaleAtEnd(s0, q, l, s4);
  }

  lemma SameSlot(k: Key, l: Key, n: nat)
    requires n > 0 && k.hash == l.hash
    ensures SlotOf(k, n) == SlotOf(l, n)
  {}

  lemma EndsAt(s: State, es: seq<Event>, t: State)
    requires |s.marks| > 0 && OrdinaryRun(s, es, t)
    ensures t == Run(s, es)
  {}

  lemma StaleAtEnd(s: State, q: nat, l: Key, t: State)
    requires q < |s.readers| && Unused(s, l)
    requires exists v: Version ::
               && t.readers == s.readers[q := s.readers[q].(phase := Finished)]
                               + [Reader(l, false, Finished)] + [Reader(s.readers[q].key, false, Marked)]
               && t.invalidations == s.invalidations + [Invalidation(l, v + 1, Done)]
               && l in t.cache && t.cache[l].content == Value(v) && Ver(t, l) == v + 1
    ensures Stale(t, l)
  {
    assert forall r :: 0 <= r < |s.readers| ==> t.readers[r].key == s.readers[r].key;
  }

  lemma InvNotStale(s: State, k: Key)
    requires Inv(s)
    ensures !Stale(s, k)
  {
    hide SlotOf, Exclusive, FetchOk;
    assert k in s.cache ==> EntryOk(s, k);
  }

  /** The guards are exact for what they are for: a step from a state with the invariant is safe if and only if no
      safe continuation ever ends with a stale value that nobody is going to remove. */
  lemma SafeIffNeverStale(s: State, e: Event)
    requires Inv(s)
    ensures |Step(s, e).marks| > 0
    ensures Safe(s, e) <==> forall es, k :: SafeRun(Step(s, e), es) ==> !Stale(Run(Step(s, e), es), k)
  {
    hide SlotOf, Step, Safe, Exclusive, FetchOk, EntryOk, Stale;
    StepMarks(s, e);
    if Safe(s, e) {
      KeepStep(s, e);
      forall es, k | SafeRun(Step(s, e), es)
        ensures !Stale(Run(Step(s, e), es), k)
      {
        KeepRun(Step(s, e), es);
        InvNotStale(Run(Step(s, e), es), k);
      }
    } else {
      var es, l := UnsafeCanEndStale(s, e);
      assert SafeRun(Step(s, e), es) && Stale(Run(Step(s, e), es), l);
    }
  }
}
