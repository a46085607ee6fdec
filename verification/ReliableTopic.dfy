/** The reliable-topic message runner: it reads batches from a remote ring buffer, hands the items to the
    listener, accounts for lost items, retries, resets and cancels. The server, the listener's callbacks and
    cancellation from other threads are events; `Step` is what the runner does on each. */
module ReliableTopic {

  datatype Error = TIMEOUT | ILLEGAL_ARGUMENT | INSTANCE_NOT_ACTIVE | DISTRIBUTED_OBJECT_DESTROYED | OTHER

  /** A reply to read_many: the sequence id of each item and the sequence to read from next. */
  datatype Batch = Batch(ids: seq<int>, next: int) {
    function LostCount(sequence: int): int { next - |ids| - sequence }
  }

  /** Without a filter a reply is one contiguous run of items that ends right before `next`. */
  ghost predicate Contiguous(b: Batch) {
    forall i :: 0 <= i < |b.ids| ==> b.ids[i] == b.next - |b.ids| + i
  }

  /** What happens to one item. The id is offered to store_sequence_id first; an exception there, or while the
      message is deserialized, means that the listener never sees the message. */
  datatype Outcome = Processed | ListenerThrew | ThrewBeforeListener

  datatype Phase =
    | Ready                          // about to check for cancellation and read
    | Reading                        // a read is outstanding
    | Processing(b: Batch, i: nat)   // items before i have been handed over
    | Stopped                        // no read outstanding, none will be issued

  datatype Event =
    | Next                                      // the check and the read at the start of next()
    | Reply(b: Batch)
    | Fail(e: Error, head: int)                 // head: what head_sequence() answers, if it is asked
    | FailNoHead                                // ILLEGAL_ARGUMENT, and head_sequence() throws in the handler
    | Item(o: Outcome, terminal: bool)          // terminal: what terminate_on_exception says about an exception
    | BatchDone
    | Cancel                                    // cancel() from another thread

  datatype State = State(
    tolerant: bool,
    sequence: int,
    cancelled: bool,
    phase: Phase,
    handed: seq<int>,       // ids given to store_sequence_id
    received: seq<int>,     // ids of the messages given to the listener
    asked: seq<(int, nat)>, // each read: the sequence asked for, and how many ids had been handed by then
    resetSequence: int,     // sequence at the last reset, or at the start
    resetHanded: nat,       // how many ids had been handed at the last reset
    lost: int)              // lost counts summed since the last reset

  function Init(tolerant: bool, sequence: int): State {
    State(tolerant, sequence, false, Ready, [], [], [], sequence, 0, 0)
  }

  function Halt(s: State): State { s.(cancelled := true, phase := Stopped) }

  function OnReply(s: State, b: Batch): State
    requires s.phase.Reading?
  {
    if s.cancelled then s.(phase := Stopped)
    else
      var lostCount := b.LostCount(s.sequence);
      if lostCount != 0 && !s.tolerant then Halt(s)
      else s.(phase := Processing(b, 0), lost := s.lost + lostCount)
  }

  function OnFail(s: State, e: Error, head: int): State
    requires s.phase.Reading?
  {
    if s.cancelled then s.(phase := Stopped)
    else match e
      case TIMEOUT => s.(phase := Ready)
      case ILLEGAL_ARGUMENT =>
        if s.tolerant
        then s.(sequence := head, phase := Ready, resetSequence := head, resetHanded := |s.handed|, lost := 0)
        else Halt(s)
      case _ => Halt(s)
  }

  function OnItem(s: State, o: Outcome, terminal: bool): State
    requires s.phase.Processing? && s.phase.i < |s.phase.b.ids|
  {
    var id := s.phase.b.ids[s.phase.i];
    var s1 := s.(handed := s.handed + [id],
                 received := if o.ThrewBeforeListener? then s.received else s.received + [id]);
    if !o.Processed? && (s.cancelled || terminal) then Halt(s1)
    else s1.(phase := Processing(s.phase.b, s.phase.i + 1))
  }

  /** Events that do not apply in a phase leave the state alone. */
  function Step(s: State, e: Event): State {
    match e
    case Next =>
      if !s.phase.Ready? then s
      else if s.cancelled then s.(phase := Stopped)
      else s.(phase := Reading, asked := s.asked + [(s.sequence, |s.handed|)])
    case Reply(b) => if s.phase.Reading? then OnReply(s, b) else s
    case Fail(err, head) => if s.phase.Reading? then OnFail(s, err, head) else s
    case FailNoHead => if s.phase.Reading? then s.(phase := Stopped) else s
    case Item(o, terminal) =>
      if s.phase.Processing? && s.phase.i < |s.phase.b.ids| then OnItem(s, o, terminal) else s
    case BatchDone =>
      if s.phase.Processing? && s.phase.i == |s.phase.b.ids| then s.(sequence := s.phase.b.next, phase := Ready) else s
    case Cancel => s.(cancelled := true)
  }

  function Run(s: State, es: seq<Event>): State
    decreases |es|
  {
    if es == [] then s else Run(Step(s, es[0]), es[1..])
  }

  ghost predicate ContiguousReplies(es: seq<Event>) {
    forall i :: 0 <= i < |es| && es[i].Reply? ==> Contiguous(es[i].b)
  }

  ghost predicate Ascending(a: seq<int>) {
    forall i, j :: 0 <= i < j < |a| ==> a[i] < a[j]
  }

  ghost predicate AllBelow(a: seq<int>, x: int) {
    forall i :: 0 <= i < |a| ==> a[i] < x
  }

  lemma AscendingAppend(a: seq<int>, x: int)
    ensures Ascending(a) && AllBelow(a, x) ==> Ascending(a + [x]) && AllBelow(a + [x], x + 1)
  {}

  // ----- A listener that does not tolerate loss -----

  /** The ids handed over are start, start + 1, ...; every read asked for exactly the next one. */
  ghost predicate GapFree(s: State, start: int) {
    && (forall j :: 0 <= j < |s.handed| ==> s.handed[j] == start + j)
    && (forall k :: 0 <= k < |s.asked| ==> s.asked[k].0 == start + s.asked[k].1)
  }

  ghost predicate StrictInv(s: State, start: int) {
    && !s.tolerant && GapFree(s, start)
    && (s.phase.Ready? || s.phase.Reading? ==> s.sequence == start + |s.handed|)
    && (s.phase.Processing? ==>
          && Contiguous(s.phase.b) && s.phase.i <= |s.phase.b.ids|
          && s.phase.b.next - |s.phase.b.ids| + s.phase.i == start + |s.handed|)
  }

  lemma StrictStep(s: State, e: Event, start: int)
    requires StrictInv(s, start) && (e.Reply? ==> Contiguous(e.b))
    ensures StrictInv(Step(s, e), start)
  {}

  /** What the listener received: ids handed over, in order. */
  ghost predicate ReceivedInv(s: State, start: int) {
    && Ascending(s.received) && AllBelow(s.received, start + |s.handed|)
    && forall i :: 0 <= i < |s.received| ==> start <= s.received[i]
  }

  lemma ReceivedStep(s: State, e: Event, start: int)
    requires StrictInv(s, start) && ReceivedInv(s, start)
    ensures ReceivedInv(Step(s, e), start)
  {
    hide Ascending;
    if e.Item? && s.phase.Processing? && s.phase.i < |s.phase.b.ids| {
      AscendingAppend(s.received, start + |s.handed|);
    }
  }

  /** In every run of a listener that is not loss tolerant, whatever the server replies, whoever cancels and
      whatever the callbacks throw, the ids handed over are consecutive from the start, without gap, repeat or
      reordering, and no read ever asks again for an id that has been handed over. The messages the listener
      receives are some of these, in order. */
  lemma {:induction false} NoGapNoRepeat(s: State, es: seq<Event>, start: int)
    requires StrictInv(s, start) && ReceivedInv(s, start) && ContiguousReplies(es)
    ensures StrictInv(Run(s, es), start) && ReceivedInv(Run(s, es), start)
    decreases |es|
  {
    if es != [] {
      StrictStep(s, es[0], start);
      ReceivedStep(s, es[0], start);
      NoGapNoRepeat(Step(s, es[0]), es[1..], start);
    }
  }

  lemma StrictRun(start: int, es: seq<Event>)
    requires ContiguousReplies(es)
    ensures var s := Run(Init(false, start), es);
            && GapFree(s, start) && Ascending(s.received)
            && forall i :: 0 <= i < |s.received| ==> s.received[i] in s.handed
  {
    NoGapNoRepeat(Init(false, start), es, start);
    var s := Run(Init(false, start), es);
    forall i | 0 <= i < |s.received|
      ensures s.received[i] in s.handed
    {
      assert s.handed[s.received[i] - start] == s.received[i];
    }
  }

  // ----- What the listener sees of the ids handed over -----

  ghost predicate NeverSkips(es: seq<Event>) {
    forall i :: 0 <= i < |es| && es[i].Item? ==> !es[i].o.ThrewBeforeListener?
  }

  /** The listener receives every id handed over, unless an exception came before the message reached it. */
  lemma {:induction false} AllReceived(s: State, es: seq<Event>)
    requires s.received == s.handed && NeverSkips(es)
    ensures Run(s, es).received == Run(s, es).handed
    decreases |es|
  {
    if es != [] {
      AllReceived(Step(s, es[0]), es[1..]);
    }
  }

  /** What happened to each item that was handed over in a run, in order. */
  ghost function Outcomes(s: State, es: seq<Event>): seq<Outcome>
    decreases |es|
  {
    if es == [] then []
    else
      (if es[0].Item? && s.phase.Processing? && s.phase.i < |s.phase.b.ids| then [es[0].o] else [])
      + Outcomes(Step(s, es[0]), es[1..])
  }

  /** The ids whose item did not throw before the listener saw it. */
  ghost function SeenOf(ids: seq<int>, os: seq<Outcome>): seq<int>
    requires |ids| == |os|
  {
    if ids == [] then []
    else (if os[0].ThrewBeforeListener? then [] else [ids[0]]) + SeenOf(ids[1..], os[1..])
  }

  /** Exactly what the listener receives in a run: the ids handed over, in order, without those whose item threw
      before the listener saw it. */
  lemma {:induction false} ReceivedExactly(s: State, es: seq<Event>)
    ensures var t, n := Run(s, es), |s.handed|;
            && s.handed <= t.handed && |Outcomes(s, es)| == |t.handed| - n
            && t.received == s.received + SeenOf(t.handed[n..], Outcomes(s, es))
    decreases |es|
  {
    hide Step;
    if es == [] {
      assert s.received + [] == s.received && s.handed[|s.handed|..] == [];
    } else {
      var s1 := Step(s, es[0]);
      ReceivedExactly(s1, es[1..]);
      HandedStep(s, es[0]);
      SeenStep(s, es[0], s1, Run(s1, es[1..]), Outcomes(s1, es[1..]));
    }
  }

  /** One event in front of a run that ends in t with the outcomes os. */
  lemma SeenStep(s: State, e: Event, s1: State, t: State, os: seq<Outcome>)
    requires s1 == Step(s, e) && s1.handed <= t.handed && |os| == |t.handed| - |s1.handed|
    requires t.received == s1.received + SeenOf(t.handed[|s1.handed|..], os)
    ensures var n := |s.handed|;
            var first := if e.Item? && s.phase.Processing? && s.phase.i < |s.phase.b.ids| then [e.o] else [];
            && s.handed <= t.handed && |first + os| == |t.handed| - n
            && t.received == s.received + SeenOf(t.handed[n..], first + os)
  {
    hide Step;
    HandedStep(s, e);
    var n := |s.handed|;
    if e.Item? && s.phase.Processing? && s.phase.i < |s.phase.b.ids| {
      var id := s.phase.b.ids[s.phase.i];
      assert t.handed[n] == s1.handed[n] == id;
      SeenCons(id, t.handed[n + 1..], e.o, os);
      assert t.handed[n..] == [id] + t.handed[n + 1..];
      Regroup(s.received, if e.o.ThrewBeforeListener? then [] else [id], SeenOf(t.handed[n + 1..], os));
    } else {
      assert [] + os == os;
    }
  }

  lemma SeenCons(id: int, ids: seq<int>, o: Outcome, os: seq<Outcome>)
    requires |ids| == |os|
    ensures SeenOf([id] + ids, [o] + os) == (if o.ThrewBeforeListener? then [] else [id]) + SeenOf(ids, os)
  {
    assert ([id] + ids)[1..] == ids && ([o] + os)[1..] == os;
  }

  lemma HandedStep(s: State, e: Event)
    ensures var t := Step(s, e);
            if e.Item? && s.phase.Processing? && s.phase.i < |s.phase.b.ids|
            then t.handed == s.handed + [s.phase.b.ids[s.phase.i]] &&
                 t.received == s.received + if e.o.ThrewBeforeListener? then [] else [s.phase.b.ids[s.phase.i]]
            else t.handed == s.handed && t.received == s.received
  {}

  // ----- A loss-tolerant listener -----

  ghost function SinceReset(s: State): seq<int>
    requires s.resetHanded <= |s.handed|
  {
    s.handed[s.resetHanded..]
  }

  /** The account: sequence has moved by the items handed over plus the items lost. */
  ghost predicate Balanced(s: State) {
    && s.resetHanded <= |s.handed|
    && match s.phase
       case Ready => s.sequence - s.resetSequence == |SinceReset(s)| + s.lost
       case Reading => s.sequence - s.resetSequence == |SinceReset(s)| + s.lost
       case Processing(b, i) =>
         Contiguous(b) && i <= |b.ids| && b.next - s.resetSequence == |SinceReset(s)| + (|b.ids| - i) + s.lost
       case Stopped => true
  }

  lemma BalancedStep(s: State, e: Event)
    requires Balanced(s) && (e.Reply? ==> Contiguous(e.b))
    ensures Balanced(Step(s, e))
  {}

  /** Conservation over every run: whenever the runner is about to read or reading, the distance covered since
      the last reset is what was handed over plus what was lost. A reset puts the sequence at the remote head. */
  lemma {:induction false} ItemsAccountedFor(s: State, es: seq<Event>)
    requires Balanced(s) && ContiguousReplies(es)
    ensures Balanced(Run(s, es))
    decreases |es|
  {
    if es != [] {
      BalancedStep(s, es[0]);
      ItemsAccountedFor(Step(s, es[0]), es[1..]);
    }
  }

  /** The id that comes next if nothing is lost. */
  ghost function NextId(s: State): int {
    if s.phase.Processing? then s.phase.b.next - |s.phase.b.ids| + s.phase.i else s.sequence
  }

  /** Handed ids since the reset ascend and lie below the next one to come. */
  ghost predicate InOrder(s: State) {
    && s.resetHanded <= |s.handed| && Ascending(SinceReset(s))
    && (s.phase.Stopped? || AllBelow(SinceReset(s), NextId(s)))
  }

  ghost predicate WellFormed(s: State) {
    s.phase.Processing? ==> Contiguous(s.phase.b) && s.phase.i <= |s.phase.b.ids|
  }

  /** The server never jumps back behind the sequence asked for. */
  ghost predicate NoJumpBack(s: State, e: Event) {
    e.Reply? && s.phase.Reading? ==> Contiguous(e.b) && e.b.LostCount(s.sequence) >= 0
  }

  ghost predicate NoJumpsBack(s: State, es: seq<Event>)
    decreases |es|
  {
    es != [] ==> NoJumpBack(s, es[0]) && NoJumpsBack(Step(s, es[0]), es[1..])
  }

  lemma OrderStep(s: State, e: Event)
    requires InOrder(s) && WellFormed(s) && NoJumpBack(s, e)
    ensures InOrder(Step(s, e)) && WellFormed(Step(s, e))
  {
    hide Ascending, AllBelow;
    NothingYet(if e.Fail? then e.head else 0);
    assert s.handed[|s.handed|..] == [];
    if e.Item? && s.phase.Processing? && s.phase.i < |s.phase.b.ids| {
      var id := s.phase.b.ids[s.phase.i];
      AscendingAppend(SinceReset(s), id);
      SuffixAppend(s.handed, s.resetHanded, id);
    } else if e.Reply? && s.phase.Reading? {
      BelowMore(SinceReset(s), s.sequence, e.b.next - |e.b.ids|);
    }
  }

  lemma NothingYet(x: int)
    ensures Ascending([]) && AllBelow([], x)
  {}

  lemma BelowMore(a: seq<int>, x: int, y: int)
    ensures AllBelow(a, x) && x <= y ==> AllBelow(a, y)
  {}

  lemma SuffixAppend(a: seq<int>, k: nat, x: int)
    requires k <= |a|
    ensures (a + [x])[k..] == a[k..] + [x]
  {}

  /** Between resets the ids handed to a loss-tolerant listener strictly increase, as long as the server does
      not jump back. */
  lemma {:induction false} OrderKept(s: State, es: seq<Event>)
    requires InOrder(s) && WellFormed(s) && NoJumpsBack(s, es)
    ensures InOrder(Run(s, es)) && WellFormed(Run(s, es))
    decreases |es|
  {
    if es != [] {
      OrderStep(s, es[0]);
      OrderKept(Step(s, es[0]), es[1..]);
    }
  }

  /** From the start of a loss-tolerant listener: the account balances, and ids ascend between resets. */
  lemma TolerantRun(start: int, es: seq<Event>)
    requires ContiguousReplies(es)
    ensures Balanced(Run(Init(true, start), es))
    ensures NoJumpsBack(Init(true, start), es) ==> InOrder(Run(Init(true, start), es))
  {
    ItemsAccountedFor(Init(true, start), es);
    if NoJumpsBack(Init(true, start), es) {
      OrderKept(Init(true, start), es);
    }
  }

  /** The last id handed over since the reset is the one before the sequence to read. */
  ghost predicate Tight(s: State) {
    && s.resetHanded <= |s.handed|
    && (s.phase.Ready? || s.phase.Reading? ==>
          |s.handed| > s.resetHanded ==> s.handed[|s.handed| - 1] == s.sequence - 1)
    && (s.phase.Processing? ==>
          && Contiguous(s.phase.b) && s.phase.b.ids != [] && s.phase.i <= |s.phase.b.ids|
          && (s.phase.i > 0 ==> |s.handed| > s.resetHanded && s.handed[|s.handed| - 1] == NextId(s) - 1))
  }

  lemma TightStep(s: State, e: Event)
    requires Tight(s) && (e.Reply? ==> Contiguous(e.b) && e.b.ids != [])
    ensures Tight(Step(s, e))
  {}

  lemma {:induction false} TightRun(s: State, es: seq<Event>)
    requires Tight(s)
    requires forall i :: 0 <= i < |es| && es[i].Reply? ==> Contiguous(es[i].b) && es[i].b.ids != []
    ensures Tight(Run(s, es))
    decreases |es|
  {
    if es != [] {
      TightStep(s, es[0]);
      TightRun(Step(s, es[0]), es[1..]);
    }
  }

  /** That condition is exact: once anything has been handed over, the first item of a reply breaks the order
      if and only if the reply jumps back. */
  lemma OrderKeptIffNoJumpBack(s: State, b: Batch)
    requires s.phase.Reading? && s.tolerant && !s.cancelled && InOrder(s) && Tight(s)
    requires Contiguous(b) && b.ids != [] && |s.handed| > s.resetHanded
    ensures var t := Run(s, [Reply(b), Item(Processed, false)]);
            t.resetHanded <= |t.handed| && (Ascending(SinceReset(t)) <==> b.LostCount(s.sequence) >= 0)
  {
    var t1 := Step(s, Reply(b));
    var t := Step(t1, Item(Processed, false));
    RunCons(s, Reply(b), [Item(Processed, false)]);
    assert [Item(Processed, false)][1..] == [];
    var a, id := SinceReset(s), b.ids[0];
    SuffixAppend(s.handed, s.resetHanded, id);
    assert SinceReset(t) == a + [id];
    AscendingAppend(a, id);
    assert a[|a| - 1] == s.sequence - 1;
    if id < s.sequence {
      assert (a + [id])[|a| - 1] >= (a + [id])[|a|];
    }
  }

  lemma RunCons(s: State, e: Event, es: seq<Event>)
    ensures Run(s, [e] + es) == Run(Step(s, e), es)
  {
    assert ([e] + es)[1..] == es;
  }

  // ----- Cancellation -----

  ghost function Remaining(s: State): seq<int> {
    if s.phase.Processing? && s.phase.i <= |s.phase.b.ids| then s.phase.b.ids[s.phase.i..] else []
  }

  /** Once cancelled, a runner stays cancelled, issues no further read, and hands over at most the rest of the
      batch it is in. */
  lemma {:induction false} CancelledForGood(s: State, es: seq<Event>)
    requires s.cancelled && !s.phase.Reading?
    ensures var t := Run(s, es);
            && t.cancelled && t.asked == s.asked && !t.phase.Reading?
            && s.handed <= t.handed && t.handed + Remaining(t) <= s.handed + Remaining(s)
    decreases |es|
  {
    if es != [] {
      CancelledStep(s, es[0]);
      CancelledForGood(Step(s, es[0]), es[1..]);
    }
  }

  lemma CancelledStep(s: State, e: Event)
    requires s.cancelled && !s.phase.Reading?
    ensures var t := Step(s, e);
            && t.cancelled && t.asked == s.asked && !t.phase.Reading?
            && s.handed <= t.handed && t.handed + Remaining(t) <= s.handed + Remaining(s)
  {
    if e.Item? && s.phase.Processing? && s.phase.i < |s.phase.b.ids| {
      var ids, i := s.phase.b.ids, s.phase.i;
      assert ids[i..] == [ids[i]] + ids[i + 1..];
      Regroup(s.handed, [ids[i]], ids[i + 1..]);
    }
  }

  /** With a read still outstanding when the cancellation comes, its reply is dropped. */
  lemma {:induction false} CancelledWhileReading(s: State, es: seq<Event>)
    requires s.cancelled && s.phase.Reading?
    ensures var t := Run(s, es); t.cancelled && t.asked == s.asked && t.handed == s.handed
    decreases |es|
  {
    if es != [] {
      var s1 := Step(s, es[0]);
      if s1.phase.Reading? {
        CancelledWhileReading(s1, es[1..]);
      } else {
        CancelledForGood(s1, es[1..]);
      }
    }
  }

  lemma {:induction false} RunAppend(s: State, es: seq<Event>, fs: seq<Event>)
    ensures Run(s, es + fs) == Run(Run(s, es), fs)
    decreases |es|
  {
    if es == [] {
      assert es + fs == fs;
    } else {
      assert (es + fs)[1..] == es[1..] + fs;
      RunAppend(Step(s, es[0]), es[1..], fs);
    }
  }

  // ----- The runner -----

  /** What holds of a runner in every state, whatever the events. */
  ghost predicate Good(s: State, start: int) {
    Balanced(s) && (!s.tolerant ==> StrictInv(s, start) && ReceivedInv(s, start))
  }

  lemma GoodStep(s: State, e: Event, start: int)
    requires Good(s, start) && (e.Reply? ==> Contiguous(e.b))
    ensures Good(Step(s, e), start)
  {
    hide Balanced, StrictInv, ReceivedInv;
    BalancedStep(s, e);
    if !s.tolerant {
      StrictStep(s, e, start);
      ReceivedStep(s, e, start);
    }
  }

  lemma {:induction false} GoodRun(s: State, es: seq<Event>, start: int)
    requires Good(s, start) && ContiguousReplies(es)
    ensures Good(Run(s, es), start)
    decreases |es|
  {
    hide Good, Step;
    if es != [] {
      GoodStep(s, es[0], start);
      GoodRun(Step(s, es[0]), es[1..], start);
    }
  }

  /** What the environment does around one item of a batch. */
  datatype ItemScript = ItemScript(cancelBefore: bool, o: Outcome, terminal: bool)

  /** Somebody cancels before one of the first n items. */
  predicate CancelledBefore(script: seq<ItemScript>, n: nat)
    requires n <= |script|
  {
    exists i :: 0 <= i < n && script[i].cancelBefore
  }

  /** Item i throws, and the runner is cancelled by then or the exception is terminal. */
  predicate EndsAt(script: seq<ItemScript>, i: nat)
    requires i < |script|
  {
    !script[i].o.Processed? && (CancelledBefore(script, i + 1) || script[i].terminal)
  }

  /** How many items are handed over: all, or those up to the first that ends the runner. */
  function Taken(script: seq<ItemScript>, from: nat := 0): (n: nat)
    requires from <= |script|
    ensures from <= n <= |script|
    ensures forall i :: from <= i < n - 1 ==> !EndsAt(script, i)
    ensures n < |script| ==> n > from && EndsAt(script, n - 1)
    decreases |script| - from
  {
    if from == |script| then from
    else if EndsAt(script, from) then from + 1
    else Taken(script, from + 1)
  }

  predicate Ended(script: seq<ItemScript>) {
    var n := Taken(script);
    n > 0 && EndsAt(script, n - 1)
  }

  /** The ids of the messages among the first n that reach the listener. */
  function Delivered(ids: seq<int>, script: seq<ItemScript>, n: nat): seq<int>
    requires n <= |ids| == |script|
  {
    if n == 0 then []
    else Delivered(ids, script, n - 1) + if script[n - 1].o.ThrewBeforeListener? then [] else [ids[n - 1]]
  }

  function ItemEvents(script: seq<ItemScript>, n: nat): seq<Event>
    requires n <= |script|
  {
    if n == 0 then []
    else ItemEvents(script, n - 1) + CancelIf(script[n - 1].cancelBefore)
         + [Item(script[n - 1].o, script[n - 1].terminal)]
  }

  function CancelIf(c: bool): seq<Event> { if c then [Cancel] else [] }

  /** The reply is dropped, or ends a runner that does not tolerate loss. */
  predicate Refused(s: State, b: Batch) {
    s.cancelled || (b.LostCount(s.sequence) != 0 && !s.tolerant)
  }

  /** What the reply callback goes through. */
  function ReplyEvents(s: State, b: Batch, script: seq<ItemScript>, cancelAtEnd: bool): seq<Event> {
    if Refused(s, b) then [Reply(b)]
    else [Reply(b)] + ItemEvents(script, Taken(script)) + if Ended(script) then [] else EndEvents(cancelAtEnd)
  }

  function EndEvents(cancelAtEnd: bool): seq<Event> {
    [BatchDone] + CancelIf(cancelAtEnd) + [Next]
  }

  /** After n items that did not end the runner. */
  ghost function AfterItems(s: State, b: Batch, script: seq<ItemScript>, n: nat): State
    requires n <= |b.ids| == |script|
  {
    s.(phase := Processing(b, n), handed := s.handed + b.ids[..n],
       received := s.received + Delivered(b.ids, script, n), cancelled := CancelledBefore(script, n))
  }

  lemma {:induction false} ItemsRun(s: State, b: Batch, script: seq<ItemScript>, n: nat)
    requires s.phase == Processing(b, 0) && !s.cancelled && n <= |b.ids| == |script|
    requires forall i :: 0 <= i < n ==> !EndsAt(script, i)
    ensures Run(s, ItemEvents(script, n)) == AfterItems(s, b, script, n)
  {
    if n == 0 {
      assert s.handed + [] == s.handed && s.received + [] == s.received;
    } else {
      ItemsRun(s, b, script, n - 1);
      ItemRun(s, b, script, n - 1);
      assert !EndsAt(script, n - 1);
    }
  }

  /** One more item. */
  lemma ItemRun(s: State, b: Batch, script: seq<ItemScript>, n: nat)
    requires s.phase == Processing(b, 0) && !s.cancelled && n < |b.ids| == |script|
    requires Run(s, ItemEvents(script, n)) == AfterItems(s, b, script, n)
    ensures var t := AfterItems(s, b, script, n + 1);
            Run(s, ItemEvents(script, n + 1)) == if EndsAt(script, n) then Halt(t) else t
  {
    hide Step, AfterItems, EndsAt, CancelledBefore, Run;
    var x := script[n];
    var es := ItemEvents(script, n);
    CancelRun(s, es, x.cancelBefore);
    RunSnoc(s, es + CancelIf(x.cancelBefore), Item(x.o, x.terminal));
    ItemStep(s, b, script, n);
  }

  lemma ItemStep(s: State, b: Batch, script: seq<ItemScript>, n: nat)
    requires n < |b.ids| == |script|
    ensures var t, t' := AfterItems(s, b, script, n), AfterItems(s, b, script, n + 1);
            var u := if script[n].cancelBefore then t.(cancelled := true) else t;
            Step(u, Item(script[n].o, script[n].terminal)) == if EndsAt(script, n) then Halt(t') else t'
  {
    assert CancelledBefore(script, n + 1) <==> CancelledBefore(script, n) || script[n].cancelBefore;
    hide CancelledBefore;
    assert b.ids[..n + 1] == b.ids[..n] + [b.ids[n]];
    Regroup(s.handed, b.ids[..n], [b.ids[n]]);
    Regroup(s.received, Delivered(b.ids, script, n), [b.ids[n]]);
    assert Delivered(b.ids, script, n) + [] == Delivered(b.ids, script, n);
  }

  lemma Regroup(a: seq<int>, b: seq<int>, c: seq<int>)
    ensures (a + b) + c == a + (b + c)
  {}

  lemma RunSnoc(s: State, es: seq<Event>, e: Event)
    ensures Run(s, es + [e]) == Step(Run(s, es), e)
  {
    hide Step;
    RunAppend(s, es, [e]);
    assert [e][1..] == [];
    assert Run(Run(s, es), [e]) == Run(Step(Run(s, es), e), []);
  }

  lemma CancelRun(s: State, es: seq<Event>, c: bool)
    ensures var t := Run(s, es); Run(s, es + CancelIf(c)) == if c then t.(cancelled := true) else t
  {
    if c {
      RunSnoc(s, es, Cancel);
    } else {
      assert es + [] == es;
    }
  }

  /** What a reply comes to: dropped after cancellation; the end of a runner that does not tolerate the loss;
      otherwise the items are handed over in order up to the first that ends the runner, and if none does, the
      next read starts where the batch ended, unless somebody has cancelled. */
  lemma ReplyOutcome(s: State, b: Batch, script: seq<ItemScript>, cancelAtEnd: bool)
    requires s.phase.Reading? && |script| == |b.ids|
    ensures var t := Run(s, ReplyEvents(s, b, script, cancelAtEnd));
            var n := Taken(script);
            if s.cancelled then t == s.(phase := Stopped)
            else if Refused(s, b) then t == Halt(s)
            else
              && t.handed == s.handed + b.ids[..n] && t.received == s.received + Delivered(b.ids, script, n)
              && (Ended(script) ==> t.phase.Stopped? && t.cancelled && t.asked == s.asked && t.sequence == s.sequence)
              && (!Ended(script) ==>
                    && n == |b.ids| && t.sequence == b.next
                    && t.cancelled == (CancelledBefore(script, n) || cancelAtEnd)
                    && t.phase == (if t.cancelled then Stopped else Reading)
                    && t.asked == if t.cancelled then s.asked else s.asked + [(b.next, |t.handed|)])
  {
    assert [Reply(b)][1..] == [];
    var s1 := Step(s, Reply(b));
    assert Run(s, [Reply(b)]) == Run(s1, []);
    if !Refused(s, b) {
      var n := Taken(script);
      RunAppend(s, [Reply(b)], ItemEvents(script, n));
      TakenRun(s1, b, script);
      if !Ended(script) {
        EndRun(s, [Reply(b)] + ItemEvents(script, n), cancelAtEnd);
      } else {
        assert [Reply(b)] + ItemEvents(script, n) + [] == [Reply(b)] + ItemEvents(script, n);
      }
    }
  }

  lemma TakenRun(s: State, b: Batch, script: seq<ItemScript>)
    requires s.phase == Processing(b, 0) && !s.cancelled && |b.ids| == |script|
    ensures var n := Taken(script);
            var t := AfterItems(s, b, script, n);
            Run(s, ItemEvents(script, n)) == if Ended(script) then Halt(t) else t
  {
    var n := Taken(script);
    if n > 0 {
      ItemsRun(s, b, script, n - 1);
      ItemRun(s, b, script, n - 1);
    } else {
      ItemsRun(s, b, script, 0);
    }
  }

  lemma EndRun(s: State, es: seq<Event>, cancelAtEnd: bool)
    ensures var t := Run(s, es);
            Run(s, es + EndEvents(cancelAtEnd)) ==
              var t1 := Step(t, BatchDone);
              Step(if cancelAtEnd then t1.(cancelled := true) else t1, Next)
  {
    hide Step;
    RunSnoc(s, es, BatchDone);
    CancelRun(s, es + [BatchDone], cancelAtEnd);
    RunSnoc(s, es + [BatchDone] + CancelIf(cancelAtEnd), Next);
    assert es + [BatchDone] + CancelIf(cancelAtEnd) + [Next] == es + EndEvents(cancelAtEnd);
  }

  /** What head_sequence() does. */
  datatype HeadLookup = Head(sequence: int) | HeadThrew

  /** What becomes of an exception: the runner goes on, gives up, or the handler throws itself. */
  datatype Handled = GoOn | GiveUp | Escaped

  /** The event that an exception amounts to. */
  function FailEvent(e: Error, head: HeadLookup): Event {
    if head.Head? then Fail(e, head.sequence)
    else if e == ILLEGAL_ARGUMENT then FailNoHead
    else Fail(e, 0)
  }

  predicate MayGoOn(e: Error, head: HeadLookup, tolerant: bool) {
    e == TIMEOUT || (e == ILLEGAL_ARGUMENT && head.Head? && tolerant)
  }

  /** What the error callback goes through. */
  function ErrorEvents(s: State, e: Error, head: HeadLookup, cancelAtEnd: bool): seq<Event> {
    [FailEvent(e, head)]
    + if !s.cancelled && MayGoOn(e, head, s.tolerant) then CancelIf(cancelAtEnd) + [Next] else []
  }

  lemma FailStep(s: State, e: Error, head: HeadLookup)
    requires s.phase.Reading?
    ensures var t := Step(s, FailEvent(e, head));
            var goesOn := !s.cancelled && MayGoOn(e, head, s.tolerant);
            && t.tolerant == s.tolerant && t.handed == s.handed && t.received == s.received && t.asked == s.asked
            && t.sequence == (if goesOn && e == ILLEGAL_ARGUMENT then head.sequence else s.sequence)
            && t.phase == (if goesOn then Ready else Stopped)
            && t.cancelled == (s.cancelled || (!goesOn && FailEvent(e, head).Fail?))
  {}

  lemma {:induction false} NoReplies(script: seq<ItemScript>, n: nat)
    requires n <= |script|
    ensures forall i :: 0 <= i < |ItemEvents(script, n)| ==> !ItemEvents(script, n)[i].Reply?
  {
    if n > 0 {
      NoReplies(script, n - 1);
    }
  }

  lemma OneReply(s: State, b: Batch, script: seq<ItemScript>, cancelAtEnd: bool)
    ensures Contiguous(b) ==> ContiguousReplies(ReplyEvents(s, b, script, cancelAtEnd))
  {
    hide Contiguous;
    NoReplies(script, Taken(script));
  }

  lemma NobodyYet(es: seq<Event>, script: seq<ItemScript>)
    ensures !CancelledBefore(script, 0) && es + ItemEvents(script, 0) == es
  {}

  lemma TakenUpTo(script: seq<ItemScript>, i: nat)
    requires i < |script| && EndsAt(script, i) && forall j :: 0 <= j < i ==> !EndsAt(script, j)
    ensures Taken(script) == i + 1 && Ended(script)
  {
    hide EndsAt;
  }

  lemma AllTaken(script: seq<ItemScript>)
    requires forall j :: 0 <= j < |script| ==> !EndsAt(script, j)
    ensures Taken(script) == |script| && !Ended(script)
  {
    hide EndsAt;
  }

  /** The next item: its events, and who has cancelled by then. */
  lemma ItemEventsGrow(es: seq<Event>, script: seq<ItemScript>, n: nat)
    requires n < |script|
    ensures var x := script[n];
            es + ItemEvents(script, n + 1) ==
              es + ItemEvents(script, n) + CancelIf(x.cancelBefore) + [Item(x.o, x.terminal)]
    ensures es + ItemEvents(script, n) + [] == es + ItemEvents(script, n)
    ensures CancelledBefore(script, n + 1) == (CancelledBefore(script, n) || script[n].cancelBefore)
    ensures EndsAt(script, n) <==> !script[n].o.Processed? && (CancelledBefore(script, n + 1) || script[n].terminal)
  {}

  class MessageRunner {
    const lossTolerant: bool
    var sequence: int
    var cancelled: bool
    /** The calls made: read_many, store_sequence_id and the listener's own callback. */
    var asked: seq<int>
    var handed: seq<int>
    var received: seq<int>
    /** The state of the event model that this runner is in, and where it started. */
    ghost var st: State
    ghost const start: int

    /** The fields are those of the modelled state. */
    ghost predicate Linked()
      reads this
    {
      && st.tolerant == lossTolerant && st.sequence == sequence && st.cancelled == cancelled
      && st.handed == handed && st.received == received
      && |asked| == |st.asked| && forall k :: 0 <= k < |asked| ==> asked[k] == st.asked[k].0
    }

    /** In particular, without loss tolerance `handed` is start, start + 1, ... and `received` is some of these
        in order; and the sequence accounts for every item handed over or lost. */
    ghost predicate Valid()
      reads this
    {
      Linked() && Good(st, start)
    }

    /** An initial sequence id of -1 means: the next message to be published. */
    constructor (lossTolerant: bool, initialSequenceId: int, tailSequence: int)
      ensures Valid()
      ensures st == Init(lossTolerant, if initialSequenceId == -1 then tailSequence + 1 else initialSequenceId)
      ensures this.lossTolerant == lossTolerant && !cancelled && st.phase.Ready?
      ensures sequence == if initialSequenceId == -1 then tailSequence + 1 else initialSequenceId
      ensures asked == [] && handed == [] && received == []
    {
      var initialSequence := initialSequenceId;
      if initialSequence == -1 {
        initialSequence := tailSequence + 1;
      }
      this.lossTolerant := lossTolerant;
      start := initialSequence;
      sequence := initialSequence;
      cancelled := false;
      asked, handed, received := [], [], [];
      st := Init(lossTolerant, initialSequence);
    }

    /** Reads from the current sequence on, unless cancelled. */
    method Next()
      requires Linked() && st.phase.Ready?
      modifies this`st, this`asked
      ensures Linked() && st == Step(old(st), Event.Next)
      ensures old(Valid()) ==> Valid()
      ensures asked == if cancelled then old(asked) else old(asked) + [sequence]
    {
      hide Good;
      if Good(st, start) {
        GoodStep(st, Event.Next, start);
      }
      st := Step(st, Event.Next);
      if cancelled {
        return;
      }
      asked := asked + [sequence];
    }

    method Cancel()
      requires Linked()
      modifies this`cancelled, this`st
      ensures Linked() && st == Step(old(st), Event.Cancel) && cancelled && st.phase == old(st.phase)
      ensures old(Valid()) ==> Valid()
    {
      hide Good;
      if Good(st, start) {
        GoodStep(st, Event.Cancel, start);
      }
      cancelled := true;
      st := Step(st, Event.Cancel);
    }

    /** Whether an exception from the listener ends the runner; an exception in the callback counts as yes. */
    method Terminate(terminal: bool) returns (r: bool)
      ensures r == (cancelled || terminal)
    {
      if cancelled {
        return true;
      }
      return terminal;
    }

    /** One turn of the batch loop. */
    method ProcessItem(b: Batch, i: nat, item: ItemScript) returns (stop: bool)
      requires Linked() && i < |b.ids| && st.phase == Processing(b, i)
      modifies this
      ensures Linked() && st == Step(old(st), Item(item.o, item.terminal))
      ensures stop == (!item.o.Processed? && (old(cancelled) || item.terminal)) && cancelled == (old(cancelled) || stop)
      ensures st.phase == if stop then Stopped else Processing(b, i + 1)
    {
      st := Step(st, Item(item.o, item.terminal));
      handed := handed + [b.ids[i]];
      if !item.o.ThrewBeforeListener? {
        received := received + [b.ids[i]];
      }
      if !item.o.Processed? {
        stop := Terminate(item.terminal);
        if stop {
          cancelled := true;
          return;
        }
      }
      stop := false;
    }

    /** The reply callback with a result: the whole batch in one go, then the next read. A cancellation may come
        before any item, and after the last one before the next read. */
    method OnReply(b: Batch, script: seq<ItemScript>, cancelAtEnd: bool) returns (ghost events: seq<Event>)
      requires Valid() && st.phase.Reading? && |script| == |b.ids| && Contiguous(b)
      modifies this
      ensures Valid() && events == ReplyEvents(old(st), b, script, cancelAtEnd) && st == Run(old(st), events)
      ensures old(Refused(st, b)) ==>
                cancelled && st.phase.Stopped? && handed == old(handed) && received == old(received) && asked == old(asked)
      ensures !old(Refused(st, b)) ==>
                && handed == old(handed) + b.ids[..Taken(script)]
                && received == old(received) + Delivered(b.ids, script, Taken(script))
      ensures !old(Refused(st, b)) && Ended(script) ==>
                cancelled && st.phase.Stopped? && asked == old(asked) && sequence == old(sequence)
      ensures !old(Refused(st, b)) && !Ended(script) ==>
                && sequence == b.next && cancelled == (CancelledBefore(script, |script|) || cancelAtEnd)
                && asked == if cancelled then old(asked) else old(asked) + [b.next]
    {
      hide Good, Contiguous, ReplyEvents, Delivered, CancelledBefore, EndsAt, Step;
      events := RunBatch(b, script, cancelAtEnd);
      OneReply(st, b, script, cancelAtEnd);
      OneReply(old(st), b, script, cancelAtEnd);
      GoodRun(old(st), events, start);
      ReplyOutcome(old(st), b, script, cancelAtEnd);
    }

    /** The body of the callback. */
    method RunBatch(b: Batch, script: seq<ItemScript>, cancelAtEnd: bool) returns (ghost events: seq<Event>)
      requires Linked() && st.phase.Reading? && |script| == |b.ids|
      modifies this
      ensures Linked() && events == ReplyEvents(old(st), b, script, cancelAtEnd) && st == Run(old(st), events)
    {
      hide Good, ItemEvents, Ended, EndEvents;
      ghost var s0 := st;
      events := [Reply(b)];
      st := Step(st, Reply(b));
      assert st == Run(s0, events) by { assert [Reply(b)][1..] == []; }
      if cancelled {
        return;
      }
      var lostCount := b.next - |b.ids| - sequence;
      if lostCount != 0 && !lossTolerant {
        cancelled := true;
        return;
      }
      var stopped;
      stopped, events := ProcessItems(b, script, s0, events);
      if stopped {
        assert events + [] == events;
        return;
      }
      events := FinishBatch(b, cancelAtEnd, s0, events);
    }

    /** The batch loop. The ghost arguments are the run so far. */
    method ProcessItems(b: Batch, script: seq<ItemScript>, ghost s0: State, ghost events0: seq<Event>)
      returns (stopped: bool, ghost events: seq<Event>)
      requires Linked() && st.phase == Processing(b, 0) && !cancelled && |script| == |b.ids|
      requires st == Run(s0, events0)
      modifies this
      ensures Linked() && events == events0 + ItemEvents(script, Taken(script)) && st == Run(s0, events)
      ensures stopped == Ended(script)
      ensures st.phase == if stopped then Stopped else Processing(b, |b.ids|)
    {
      hide Good, Linked, Run, Step, EndsAt, CancelledBefore, Taken, Ended, ItemEvents;
      events := events0;
      var i := 0;
      NobodyYet(events0, script);
      while i < |b.ids|
        invariant 0 <= i <= |b.ids|
        invariant Linked() && st == Run(s0, events) && st.phase == Processing(b, i)
        invariant events == events0 + ItemEvents(script, i) && cancelled == CancelledBefore(script, i)
        invariant forall j :: 0 <= j < i ==> !EndsAt(script, j)
      {
        ItemEventsGrow(events0, script, i);
        if script[i].cancelBefore {
          events := Record(s0, events, Event.Cancel);
          Cancel();
        }
        events := Record(s0, events, Item(script[i].o, script[i].terminal));
        stopped := ProcessItem(b, i, script[i]);
        if stopped {
          TakenUpTo(script, i);
          return;
        }
        i := i + 1;
      }
      AllTaken(script);
      stopped := false;
    }

    /** The next read, if nobody cancels before it. */
    method ReadOn(cancelAtEnd: bool, ghost s0: State, ghost events0: seq<Event>) returns (ghost events: seq<Event>)
      requires Linked() && st.phase.Ready? && st == Run(s0, events0)
      modifies this`cancelled, this`asked, this`st
      ensures Linked() && events == events0 + CancelIf(cancelAtEnd) + [Event.Next] && st == Run(s0, events)
      ensures cancelled == (old(cancelled) || cancelAtEnd)
      ensures asked == if cancelled then old(asked) else old(asked) + [sequence]
      ensures st.phase == if cancelled then Stopped else Reading
    {
      hide Good, Run;
      events := events0;
      if cancelAtEnd {
        events := Record(s0, events, Event.Cancel);
        Cancel();
      } else {
        assert events0 + [] == events0;
      }
      events := Record(s0, events, Event.Next);
      Next();
    }

    /** After the last item: the sequence moves on, and the next read is due. */
    method FinishBatch(b: Batch, cancelAtEnd: bool, ghost s0: State, ghost events0: seq<Event>)
      returns (ghost events: seq<Event>)
      requires Linked() && st.phase == Processing(b, |b.ids|) && st == Run(s0, events0)
      modifies this
      ensures Linked() && events == events0 + EndEvents(cancelAtEnd) && st == Run(s0, events)
    {
      hide Good;
      events := Record(s0, events0, BatchDone);
      sequence := b.next;
      st := Step(st, BatchDone);
      events := ReadOn(cancelAtEnd, s0, events);
      assert events == events0 + EndEvents(cancelAtEnd);
    }

    /** The reply callback with an exception. `head` is what head_sequence() does, where it is asked; a
        cancellation may come before the next read. */
    method OnError(e: Error, head: HeadLookup, cancelAtEnd: bool) returns (ghost events: seq<Event>)
      requires Valid() && st.phase.Reading?
      modifies this
      ensures Valid() && events == ErrorEvents(old(st), e, head, cancelAtEnd) && st == Run(old(st), events)
      ensures handed == old(handed) && received == old(received)
      ensures var goesOn := !old(cancelled) && MayGoOn(e, head, lossTolerant);
              && sequence == (if goesOn && e == ILLEGAL_ARGUMENT then head.sequence else old(sequence))
              && cancelled == (old(cancelled) || (goesOn && cancelAtEnd) || (!goesOn && FailEvent(e, head).Fail?))
              && asked == (if goesOn && !cancelAtEnd then old(asked) + [sequence] else old(asked))
              && st.phase == if goesOn && !cancelAtEnd then Reading else Stopped
    {
      hide Good, Step, Run;
      events := RunError(e, head, cancelAtEnd);
      GoodRun(old(st), events, start);
    }

    /** The body of the callback. */
    method RunError(e: Error, head: HeadLookup, cancelAtEnd: bool) returns (ghost events: seq<Event>)
      requires Linked() && st.phase.Reading?
      modifies this
      ensures Linked() && events == ErrorEvents(old(st), e, head, cancelAtEnd) && st == Run(old(st), events)
      ensures handed == old(handed) && received == old(received)
      ensures var goesOn := !old(cancelled) && MayGoOn(e, head, lossTolerant);
              && sequence == (if goesOn && e == ILLEGAL_ARGUMENT then head.sequence else old(sequence))
              && cancelled == (old(cancelled) || (goesOn && cancelAtEnd) || (!goesOn && FailEvent(e, head).Fail?))
              && asked == (if goesOn && !cancelAtEnd then old(asked) + [sequence] else old(asked))
              && st.phase == if goesOn && !cancelAtEnd then Reading else Stopped
    {
      hide Good;
      ghost var s0 := st;
      ghost var fail := FailEvent(e, head);
      events := [fail];
      assert [] + [fail] == [fail] && Run(s0, []) == s0;
      RunSnoc(s0, [], fail);
      FailStep(s0, e, head);
      hide Run, Step;
      if cancelled {
        st := Step(st, fail);
        return;
      }
      var handled := HandleInternalException(e, head);
      st := Step(st, fail);
      match handled
      case GoOn =>
        events := ReadOn(cancelAtEnd, s0, events);
      case GiveUp => cancelled := true;
      case Escaped =>
    }

    /** Whether the runner may go on reading; a reset moves the sequence to the remote head, which is asked for
        even without loss tolerance. */
    method HandleInternalException(e: Error, head: HeadLookup) returns (handled: Handled)
      modifies this`sequence
      ensures handled.Escaped? <==> e == ILLEGAL_ARGUMENT && head.HeadThrew?
      ensures handled.GoOn? <==> e == TIMEOUT || (e == ILLEGAL_ARGUMENT && head.Head? && lossTolerant)
      ensures sequence == if e == ILLEGAL_ARGUMENT && head.Head? && lossTolerant then head.sequence else old(sequence)
    {
      match e
      case TIMEOUT =>
        return GoOn;
      case ILLEGAL_ARGUMENT =>
        if head.HeadThrew? {
          return Escaped;
        }
        if lossTolerant {
          sequence := head.sequence;
          return GoOn;
        }
        return GiveUp;
      case _ =>
        return GiveUp;
    }
  }

  /** One more event at the end of a run. */
  ghost function Record(s0: State, events: seq<Event>, e: Event): (r: seq<Event>)
    ensures r == events + [e] && Run(s0, r) == Step(Run(s0, events), e)
  {
    RunAppend(s0, events, [e]);
    events + [e]
  }
}
