/** The slot marker of the near cache: keys share slots by hash, and each slot is a small state machine driven
    by compare-and-exchange. */
module KeyStateMarker {
  import opened Bytes

  datatype Mark = UNMARKED | MARKED | REMOVED

  lemma MultipleOf(h: int, n: int)
    requires n > 0
    ensures (h - h % n) % n == 0 && (-h + h % n) % n == 0
    ensures 0 % n == 0
  {
    var q := h / n;
    DivModUnique(h - h % n, n, q, 0);
    DivModUnique(-h + h % n, n, -q, 0);
    DivModUnique(0, n, 0, 0);
  }

  /** The slot of a hash; None stands for the exception on a non-positive length. INT_MIN has no absolute value. */
  function HashToIndex(hash: int, length: int): (r: Option<nat>)
    requires IsInt32(hash)
    ensures r.Some? <==> length > 0
    ensures r.Some? ==> r.value < length
    ensures r.Some? && hash == -0x8000_0000 ==> r.value == 0
    ensures r.Some? && hash != -0x8000_0000 ==>
              if hash < 0 then (hash + r.value) % length == 0 else (hash - r.value) % length == 0
  {
    if length <= 0 then None
    else
      var h := if hash == -0x8000_0000 then 0 else if hash < 0 then -hash else hash;
      MultipleOf(h, length);
      Some(h % length)
  }

  function Cas(m: Mark, expected: Mark, update: Mark): Mark {
    if m == expected then update else m
  }

  // ----- Runs of operations on all slots -----

  datatype Op = TryMark(slot: nat) | TryUnmark(slot: nat) | TryRemove(slot: nat) | ForceUnmark(slot: nat) | Reset

  function Expected(op: Op): Mark
    requires op.TryMark? || op.TryUnmark? || op.TryRemove?
  {
    if op.TryMark? then UNMARKED else MARKED
  }

  function Target(op: Op): Mark {
    match op
    case TryMark(_) => MARKED
    case TryRemove(_) => REMOVED
    case _ => UNMARKED
  }

  predicate IsCas(op: Op) { op.TryMark? || op.TryUnmark? || op.TryRemove? }

  /** Whether a compare-and-exchange goes through. */
  predicate Succeeds(marks: seq<Mark>, op: Op) {
    IsCas(op) && op.slot < |marks| && marks[op.slot] == Expected(op)
  }

  function Apply(marks: seq<Mark>, op: Op): (r: seq<Mark>)
    ensures |r| == |marks|
  {
    match op
    case Reset => seq(|marks|, _ => UNMARKED)
    case ForceUnmark(slot) => if slot < |marks| then marks[slot := UNMARKED] else marks
    case _ => if Succeeds(marks, op) then marks[op.slot := Target(op)] else marks
  }

  function Run(marks: seq<Mark>, ops: seq<Op>): (r: seq<Mark>)
    ensures |r| == |marks|
    decreases |ops|
  {
    if ops == [] then marks else Run(Apply(marks, ops[0]), ops[1..])
  }

  predicate Clears(op: Op, slot: nat) { op.Reset? || op == ForceUnmark(slot) }

  /** Successful marks less successful unmarks and removes on a slot, from the last time it was cleared;
      `before` is the count at the start. */
  ghost function Outstanding(marks: seq<Mark>, ops: seq<Op>, slot: nat, before: int): int
    decreases |ops|
  {
    if ops == [] then before
    else
      var now :=
        if Clears(ops[0], slot) then 0
        else if !Succeeds(marks, ops[0]) || ops[0].slot != slot then before
        else if ops[0].TryMark? then before + 1
        else before - 1;
      Outstanding(Apply(marks, ops[0]), ops[1..], slot, now)
  }

  function CountOf(m: Mark): int { if m == MARKED then 1 else 0 }

  /** Over every interleaving, with any keys sharing the slot: the successful marks not yet consumed number
      exactly one while the slot is MARKED and none otherwise. So each successful unmark or remove consumes
      exactly one earlier mark. */
  lemma {:induction false} MarksConsumedOnce(marks: seq<Mark>, ops: seq<Op>, slot: nat)
    requires slot < |marks|
    ensures Outstanding(marks, ops, slot, CountOf(marks[slot])) == CountOf(Run(marks, ops)[slot])
    decreases |ops|
  {
    if ops != [] {
      MarksConsumedOnce(Apply(marks, ops[0]), ops[1..], slot);
    }
  }

  /** A removed slot defeats every compare-and-exchange until it is cleared. */
  lemma {:induction false} RemovedStays(marks: seq<Mark>, ops: seq<Op>, slot: nat, i: nat)
    requires slot < |marks| && marks[slot] == REMOVED && i < |ops|
    requires forall j :: 0 <= j < |ops| ==> !Clears(ops[j], slot)
    ensures Run(marks, ops)[slot] == REMOVED
    ensures IsCas(ops[i]) && ops[i].slot == slot ==> !Succeeds(Run(marks, ops[..i]), ops[i])
    decreases |ops|
  {
    var m1 := Apply(marks, ops[0]);
    assert !Clears(ops[0], slot);
    if i > 0 {
      assert ops[..i][1..] == ops[1..][..i - 1];
      RemovedStays(m1, ops[1..], slot, i - 1);
    } else if |ops| > 1 {
      RemovedStays(m1, ops[1..], slot, 0);
    }
  }

  // ----- The class -----

  class KeyStateMarkerImpl {
    const markCount: int
    const marks: array<Mark>

    ghost predicate Valid()
      reads this, marks
    {
      markCount == marks.Length
    }

    constructor (count: int)
      requires count >= 0
      ensures Valid() && fresh(marks) && markCount == count
      ensures forall i :: 0 <= i < marks.Length ==> marks[i] == UNMARKED
    {
      markCount := count;
      marks := new Mark[count](_ => UNMARKED);
    }

    /** None stands for the exception when there are no slots; likewise below. */
    method GetSlot(hash: int) returns (slot: Option<nat>)
      requires Valid() && IsInt32(hash)
      ensures slot == HashToIndex(hash, markCount)
      ensures slot.Some? <==> markCount > 0
      ensures slot.Some? ==> slot.value < marks.Length
    {
      slot := HashToIndex(hash, markCount);
    }

    method CasState(hash: int, expected: Mark, update: Mark) returns (ok: Option<bool>)
      requires Valid() && IsInt32(hash)
      modifies marks
      ensures ok.Some? <==> markCount > 0
      ensures ok.Some? ==>
                var slot := HashToIndex(hash, markCount).value;
                && ok.value == (old(marks[slot]) == expected)
                && marks[..] == old(marks[..])[slot := Cas(old(marks[slot]), expected, update)]
    {
      var slot := GetSlot(hash);
      if slot.None? {
        return None;
      }
      var same := marks[slot.value] == expected;
      if same {
        marks[slot.value] := update;
      }
      ok := Some(same);
    }

    method TryMark(hash: int) returns (ok: Option<bool>)
      requires Valid() && IsInt32(hash)
      modifies marks
      ensures ok.Some? <==> markCount > 0
      ensures ok.Some? ==>
                var op := Op.TryMark(HashToIndex(hash, markCount).value);
                marks[..] == Apply(old(marks[..]), op) && ok.value == Succeeds(old(marks[..]), op)
    {
      ok := CasState(hash, UNMARKED, MARKED);
    }

    method TryUnmark(hash: int) returns (ok: Option<bool>)
      requires Valid() && IsInt32(hash)
      modifies marks
      ensures ok.Some? <==> markCount > 0
      ensures ok.Some? ==>
                var op := Op.TryUnmark(HashToIndex(hash, markCount).value);
                marks[..] == Apply(old(marks[..]), op) && ok.value == Succeeds(old(marks[..]), op)
    {
      ok := CasState(hash, MARKED, UNMARKED);
    }

    method TryRemove(hash: int) returns (ok: Option<bool>)
      requires Valid() && IsInt32(hash)
      modifies marks
      ensures ok.Some? <==> markCount > 0
      ensures ok.Some? ==>
                var op := Op.TryRemove(HashToIndex(hash, markCount).value);
                marks[..] == Apply(old(marks[..]), op) && ok.value == Succeeds(old(marks[..]), op)
    {
      ok := CasState(hash, MARKED, REMOVED);
    }

    method ForceUnmark(hash: int) returns (done: bool)
      requires Valid() && IsInt32(hash)
      modifies marks
      ensures done <==> markCount > 0
      ensures done ==> marks[..] == Apply(old(marks[..]), Op.ForceUnmark(HashToIndex(hash, markCount).value))
    {
      var slot := GetSlot(hash);
      if slot.None? {
        return false;
      }
      marks[slot.value] := UNMARKED;
      done := true;
    }

    method Init()
      requires Valid()
      modifies marks
      ensures marks[..] == Apply(old(marks[..]), Reset)
    {
      var i := 0;
      while i < markCount
        invariant 0 <= i <= markCount
        invariant forall j :: 0 <= j < i ==> marks[j] == UNMARKED
      {
        marks[i] := UNMARKED;
        i := i + 1;
      }
    }
  }
}
