/** The delta-encoded record stream of the metrics compressor, its reader, and the proof that reader and
    writer stay in step. A record repeats, by a mask bit, each descriptor field that equals the previous
    record's; the other fields are written as dictionary ids. */
module MetricsCodec {
  import opened Bytes
  import opened MetricsDictionary

  datatype Unit = BYTES | MS | NS | PERCENT | COUNT | BOOLEAN | ENUM | NONE

  datatype Descriptor = Descriptor(
    prefix: Word, metric: Word, discriminator: Option<Word>, discriminatorValue: Option<Word>, unit: Unit)

  type Int64 = v: int | IsInt64(v)

  datatype Record = Record(descriptor: Descriptor, value: Int64)

  const NULL_DICTIONARY_ID: int := -1
  const VALUE_TYPE_LONG: byte := 0

  /** `static_cast<byte>` of the enumerator; NONE is -1. */
  function UnitByte(u: Unit): byte {
    match u
    case BYTES => 0
    case MS => 1
    case NS => 2
    case PERCENT => 3
    case COUNT => 4
    case BOOLEAN => 5
    case ENUM => 6
    case NONE => 255
  }

  function UnitOf(b: byte): Option<Unit> {
    match b
    case 0 => Some(BYTES)
    case 1 => Some(MS)
    case 2 => Some(NS)
    case 3 => Some(PERCENT)
    case 4 => Some(COUNT)
    case 5 => Some(BOOLEAN)
    case 6 => Some(ENUM)
    case 255 => Some(NONE)
    case _ => None
  }

  /** The codes of the units. */
  lemma UnitCodes()
    ensures UnitByte(BYTES) == 0 && UnitByte(MS) == 1 && UnitByte(NS) == 2 && UnitByte(PERCENT) == 3
    ensures UnitByte(COUNT) == 4 && UnitByte(BOOLEAN) == 5 && UnitByte(ENUM) == 6 && UnitByte(NONE) == 255
    ensures forall u :: UnitOf(UnitByte(u)) == Some(u)
  {}

  // ----- Mask -----

  /** Which fields are repeated from the previous descriptor. */
  datatype Repeats = Repeats(prefix: bool, metric: bool, discriminator: bool, value: bool, unit: bool,
                             excludedTargets: bool, tagCount: bool)

  function RepeatsOf(last: Option<Descriptor>, d: Descriptor): Repeats {
    match last
    case None => Repeats(false, false, false, false, false, false, false)
    case Some(l) =>
      Repeats(d.prefix == l.prefix, d.metric == l.metric, d.discriminator == l.discriminator,
              d.discriminatorValue == l.discriminatorValue, d.unit == l.unit, true, true)
  }

  function Bit(b: bool): (r: int) { if b then 1 else 0 }

  function MaskByte(r: Repeats): byte {
    Bit(r.prefix) + 2 * Bit(r.metric) + 4 * Bit(r.discriminator) + 8 * Bit(r.value) + 16 * Bit(r.unit)
    + 32 * Bit(r.excludedTargets) + 64 * Bit(r.tagCount)
  }

  function MaskBits(b: byte): Repeats {
    Repeats(b % 2 == 1, (b / 2) % 2 == 1, (b / 4) % 2 == 1, (b / 8) % 2 == 1, (b / 16) % 2 == 1,
            (b / 32) % 2 == 1, (b / 64) % 2 == 1)
  }

  lemma MaskRoundTrip(r: Repeats)
    ensures MaskBits(MaskByte(r)) == r
  {
    var b := MaskByte(r);
    assert b / 2 == Bit(r.metric) + 2 * Bit(r.discriminator) + 4 * Bit(r.value) + 8 * Bit(r.unit)
                    + 16 * Bit(r.excludedTargets) + 32 * Bit(r.tagCount);
    assert b / 4 == Bit(r.discriminator) + 2 * Bit(r.value) + 4 * Bit(r.unit)
                    + 8 * Bit(r.excludedTargets) + 16 * Bit(r.tagCount);
    assert b / 8 == Bit(r.value) + 2 * Bit(r.unit) + 4 * Bit(r.excludedTargets) + 8 * Bit(r.tagCount);
    assert b / 16 == Bit(r.unit) + 2 * Bit(r.excludedTargets) + 4 * Bit(r.tagCount);
    assert b / 32 == Bit(r.excludedTargets) + 2 * Bit(r.tagCount);
    assert b / 64 == Bit(r.tagCount);
  }

  /** What the bits of the mask mean: bits 0 to 4 name the fields that equal the last descriptor's, and bits 5 and 6
      are set for every record but the first. */
  lemma MaskMeans(last: Option<Descriptor>, d: Descriptor)
    ensures var mask := MaskByte(RepeatsOf(last, d));
            && (last.None? ==> mask == 0)
            && (last.Some? ==>
                  && (mask % 2 == 1 <==> d.prefix == last.value.prefix)
                  && ((mask / 2) % 2 == 1 <==> d.metric == last.value.metric)
                  && ((mask / 4) % 2 == 1 <==> d.discriminator == last.value.discriminator)
                  && ((mask / 8) % 2 == 1 <==> d.discriminatorValue == last.value.discriminatorValue)
                  && ((mask / 16) % 2 == 1 <==> d.unit == last.value.unit)
                  && 96 <= mask < 128)
  {
    MaskRoundTrip(RepeatsOf(last, d));
  }

  // ----- Writing -----

  /** The dictionary after one field has been written. */
  function FieldIds(m: Ids, repeated: bool, word: Option<Word>): Ids {
    if repeated || word.None? then m else Intern(m, word.value)
  }

  function FieldId(m: Ids, word: Option<Word>): int
    requires word.Some? ==> word.value in m
  {
    if word.None? then NULL_DICTIONARY_ID else m[word.value]
  }

  /** One field in front of the bytes that follow it. */
  function PutField(m: Ids, repeated: bool, word: Option<Word>, tail: seq<byte>): seq<byte> {
    if repeated then tail else StoreBig(4, FieldId(FieldIds(m, repeated, word), word)) + tail
  }

  function PutByte(repeated: bool, b: byte, tail: seq<byte>): seq<byte> {
    if repeated then tail else [b] + tail
  }

  /** The dictionary after each of the four fields. */
  function Ids1(m: Ids, r: Repeats, d: Descriptor): Ids { FieldIds(m, r.prefix, Some(d.prefix)) }
  function Ids2(m: Ids, r: Repeats, d: Descriptor): Ids { FieldIds(Ids1(m, r, d), r.metric, Some(d.metric)) }
  function Ids3(m: Ids, r: Repeats, d: Descriptor): Ids { FieldIds(Ids2(m, r, d), r.discriminator, d.discriminator) }
  function Ids4(m: Ids, r: Repeats, d: Descriptor): Ids { FieldIds(Ids3(m, r, d), r.value, d.discriminatorValue) }

  function PutFields(m: Ids, r: Repeats, d: Descriptor, tail: seq<byte>): seq<byte> {
    PutNames(m, r, d, PutDiscriminator(m, r, d, tail))
  }

  function PutNames(m: Ids, r: Repeats, d: Descriptor, tail: seq<byte>): seq<byte> {
    PutField(m, r.prefix, Some(d.prefix), PutField(Ids1(m, r, d), r.metric, Some(d.metric), tail))
  }

  function PutDiscriminator(m: Ids, r: Repeats, d: Descriptor, tail: seq<byte>): seq<byte> {
    PutField(Ids2(m, r, d), r.discriminator, d.discriminator,
    PutField(Ids3(m, r, d), r.value, d.discriminatorValue, tail))
  }

  function PutUnit(r: Repeats, unit: Unit, tail: seq<byte>): seq<byte> {
    PutByte(r.unit, UnitByte(unit), PutByte(r.excludedTargets, 0, PutByte(r.tagCount, 0, tail)))
  }

  function PutValue(value: Int64, tail: seq<byte>): seq<byte> {
    [VALUE_TYPE_LONG] + (StoreBig(8, value) + tail)
  }

  function PutDescriptor(w: Writer, d: Descriptor, tail: seq<byte>): seq<byte> {
    var r := RepeatsOf(w.last, d);
    [MaskByte(r)] + PutFields(w.ids, r, d, PutUnit(r, d.unit, tail))
  }

  /** What the writer remembers between records. */
  datatype Writer = Writer(ids: Ids, last: Option<Descriptor>)

  const NEW_WRITER := Writer(map[], None)

  function After(w: Writer, x: Record): Writer {
    Writer(Ids4(w.ids, RepeatsOf(w.last, x.descriptor), x.descriptor), Some(x.descriptor))
  }

  function PutRecord(w: Writer, x: Record, tail: seq<byte>): seq<byte> {
    PutDescriptor(w, x.descriptor, PutValue(x.value, tail))
  }

  function AfterAll(w: Writer, xs: seq<Record>): Writer
    decreases |xs|
  {
    if xs == [] then w else AfterAll(After(w, xs[0]), xs[1..])
  }

  function PutRecords(w: Writer, xs: seq<Record>, tail: seq<byte>): seq<byte>
    decreases |xs|
  {
    if xs == [] then tail else PutRecord(w, xs[0], PutRecords(After(w, xs[0]), xs[1..], tail))
  }

  // ----- Reading -----

  type Dict = map<int, Word>

  function GetField(s: seq<byte>, repeated: bool, previous: Option<Word>, dict: Dict): Option<(Option<Word>, seq<byte>)> {
    if repeated then Some((previous, s))
    else
      var (id, rest) :- ReadInt32(s);
      if id == NULL_DICTIONARY_ID then Some((None, rest))
      else if id in dict then Some((Some(dict[id]), rest))
      else None
  }

  /** A field that is never absent. */
  function GetWord(s: seq<byte>, repeated: bool, previous: Word, dict: Dict): Option<(Word, seq<byte>)> {
    var (word, rest) :- GetField(s, repeated, Some(previous), dict);
    if word.None? then None else Some((word.value, rest))
  }

  function GetByte(s: seq<byte>, repeated: bool, previous: byte): Option<(byte, seq<byte>)> {
    if repeated then Some((previous, s)) else if s == [] then None else Some((s[0], s[1..]))
  }

  /** The four word fields of a descriptor; the unit is the previous one's. */
  function GetFields(s: seq<byte>, r: Repeats, previous: Descriptor, dict: Dict): Option<(Descriptor, seq<byte>)> {
    var ((prefix, metric), s1) :- GetNames(s, r, previous, dict);
    var ((discriminator, value), s2) :- GetDiscriminator(s1, r, previous, dict);
    Some((Descriptor(prefix, metric, discriminator, value, previous.unit), s2))
  }

  function GetNames(s: seq<byte>, r: Repeats, previous: Descriptor, dict: Dict): Option<((Word, Word), seq<byte>)> {
    var (prefix, s1) :- GetWord(s, r.prefix, previous.prefix, dict);
    var (metric, s2) :- GetWord(s1, r.metric, previous.metric, dict);
    Some(((prefix, metric), s2))
  }

  function GetDiscriminator(s: seq<byte>, r: Repeats, previous: Descriptor, dict: Dict)
    : Option<((Option<Word>, Option<Word>), seq<byte>)>
  {
    var (discriminator, s1) :- GetField(s, r.discriminator, previous.discriminator, dict);
    var (value, s2) :- GetField(s1, r.value, previous.discriminatorValue, dict);
    Some(((discriminator, value), s2))
  }

  /** The unit, then the excluded targets and the number of tags, which the writer always leaves at zero. */
  function GetUnit(s: seq<byte>, r: Repeats, previous: Unit): Option<(Unit, seq<byte>)> {
    var (unitByte, s1) :- GetByte(s, r.unit, UnitByte(previous));
    var unit :- UnitOf(unitByte);
    var (excludedTargets, s2) :- GetByte(s1, r.excludedTargets, 0);
    var (tagCount, s3) :- GetByte(s2, r.tagCount, 0);
    if excludedTargets == 0 && tagCount == 0 then Some((unit, s3)) else None
  }

  function GetValue(s: seq<byte>): Option<(Int64, seq<byte>)> {
    if s == [] || s[0] != VALUE_TYPE_LONG then None
    else
      var (value, rest) :- ReadInt64(s[1..]);
      if IsInt64(value) then Some((value, rest)) else None
  }

  const BLANK := Descriptor([], [], None, None, NONE)

  /** One record. The first one may not repeat anything. */
  function GetRecord(s: seq<byte>, last: Option<Descriptor>, dict: Dict): Option<(Record, seq<byte>)> {
    if s == [] then None
    else
      var r := MaskBits(s[0]);
      if last.None? && (r.prefix || r.metric || r.discriminator || r.value || r.unit) then None
      else
        var previous := if last.Some? then last.value else BLANK;
        var (d, s1) :- GetFields(s[1..], r, previous, dict);
        var (unit, s2) :- GetUnit(s1, r, previous.unit);
        var (value, rest) :- GetValue(s2);
        Some((Record(d.(unit := unit), value), rest))
  }

  /** n records; the reader carries its own last descriptor. */
  function GetRecords(s: seq<byte>, n: nat, last: Option<Descriptor>, dict: Dict): Option<(seq<Record>, seq<byte>)>
    decreases n
  {
    if n == 0 then Some(([], s))
    else
      var (x, s1) :- GetRecord(s, last, dict);
      var (xs, rest) :- GetRecords(s1, n - 1, Some(x.descriptor), dict);
      Some(([x] + xs, rest))
  }

  // ----- Reading undoes writing -----

  /** Where dict knows an id of m at all, it gives the right word. */
  ghost predicate Agrees(dict: Dict, m: Ids) {
    forall w :: w in m && m[w] in dict ==> dict[m[w]] == w
  }

  ghost predicate Int32Ids(m: Ids) {
    forall w :: w in m ==> 0 <= m[w] <= INT32_MAX
  }

  /** A dictionary that a run may end with: dict agrees with it and its ids are int32 values. */
  ghost predicate Target(m: Ids, f: Ids, dict: Dict) {
    Extends(m, f) && Int32Ids(f) && Agrees(dict, f)
  }

  /** A written field reads back, unless its id is missing from the reader's dictionary. */
  lemma FieldReadsBack(m: Ids, f: Ids, repeated: bool, word: Option<Word>, previous: Option<Word>, dict: Dict,
                       tail: seq<byte>)
    requires repeated ==> word == previous
    requires Covers(dict, m) && Target(FieldIds(m, repeated, word), f, dict)
    ensures var g := GetField(PutField(m, repeated, word, tail), repeated, previous, dict);
            if Covers(dict, FieldIds(m, repeated, word)) then g == Some((word, tail)) else g == None
  {
    if !repeated {
      var m' := FieldIds(m, repeated, word);
      var id := FieldId(m', word);
      if word.Some? {
        assert m'[word.value] == f[word.value];
      }
      ReadStoredInt32(id, tail);
    }
  }

  lemma FieldIdsGrow(m: Ids, repeated: bool, word: Option<Word>)
    ensures Extends(m, FieldIds(m, repeated, word))
  {}

  lemma IdsGrow(m: Ids, r: Repeats, d: Descriptor)
    ensures Extends(m, Ids1(m, r, d)) && Extends(Ids1(m, r, d), Ids2(m, r, d))
    ensures Extends(Ids2(m, r, d), Ids3(m, r, d)) && Extends(Ids3(m, r, d), Ids4(m, r, d))
  {
    FieldIdsGrow(m, r.prefix, Some(d.prefix));
    FieldIdsGrow(Ids1(m, r, d), r.metric, Some(d.metric));
    FieldIdsGrow(Ids2(m, r, d), r.discriminator, d.discriminator);
    FieldIdsGrow(Ids3(m, r, d), r.value, d.discriminatorValue);
  }

  lemma TargetShrinks(m: Ids, m': Ids, f: Ids, dict: Dict)
    requires Extends(m, m')
    ensures Target(m', f, dict) ==> Target(m, f, dict)
    ensures Covers(dict, m') ==> Covers(dict, m)
  {}

  /** previous agrees with d on every repeated field. */
  ghost predicate Matches(r: Repeats, d: Descriptor, previous: Descriptor) {
    && (r.prefix ==> d.prefix == previous.prefix)
    && (r.metric ==> d.metric == previous.metric)
    && (r.discriminator ==> d.discriminator == previous.discriminator)
    && (r.value ==> d.discriminatorValue == previous.discriminatorValue)
    && (r.unit ==> d.unit == previous.unit)
  }

  lemma NamesReadBack(m: Ids, f: Ids, r: Repeats, d: Descriptor, previous: Descriptor, dict: Dict, tail: seq<byte>)
    requires Matches(r, d, previous) && Covers(dict, m)
    requires Target(Ids1(m, r, d), f, dict) && Target(Ids2(m, r, d), f, dict)
    requires Covers(dict, Ids2(m, r, d)) ==> Covers(dict, Ids1(m, r, d))
    ensures var g := GetNames(PutNames(m, r, d, tail), r, previous, dict);
            if Covers(dict, Ids2(m, r, d)) then g == Some(((d.prefix, d.metric), tail)) else g == None
  {
    var t := PutField(Ids1(m, r, d), r.metric, Some(d.metric), tail);
    FieldReadsBack(m, f, r.prefix, Some(d.prefix), Some(previous.prefix), dict, t);
    if Covers(dict, Ids1(m, r, d)) {
      FieldReadsBack(Ids1(m, r, d), f, r.metric, Some(d.metric), Some(previous.metric), dict, tail);
    }
  }

  lemma DiscriminatorReadsBack(m: Ids, f: Ids, r: Repeats, d: Descriptor, previous: Descriptor, dict: Dict,
                               tail: seq<byte>)
    requires Matches(r, d, previous) && Covers(dict, Ids2(m, r, d))
    requires Target(Ids3(m, r, d), f, dict) && Target(Ids4(m, r, d), f, dict)
    requires Covers(dict, Ids4(m, r, d)) ==> Covers(dict, Ids3(m, r, d))
    ensures var g := GetDiscriminator(PutDiscriminator(m, r, d, tail), r, previous, dict);
            if Covers(dict, Ids4(m, r, d)) then g == Some(((d.discriminator, d.discriminatorValue), tail)) else g == None
  {
    var m2, m3 := Ids2(m, r, d), Ids3(m, r, d);
    var t := PutField(m3, r.value, d.discriminatorValue, tail);
    FieldReadsBack(m2, f, r.discriminator, d.discriminator, previous.discriminator, dict, t);
    if Covers(dict, m3) {
      FieldReadsBack(m3, f, r.value, d.discriminatorValue, previous.discriminatorValue, dict, tail);
    }
  }

  /** The dictionary only gains words from field to field, so a missing id shows at the first field that has it. */
  lemma FieldsReadBack(m: Ids, f: Ids, r: Repeats, d: Descriptor, previous: Descriptor, dict: Dict, tail: seq<byte>)
    requires Matches(r, d, previous)
    requires Covers(dict, m) && Target(Ids4(m, r, d), f, dict)
    ensures var g := GetFields(PutFields(m, r, d, tail), r, previous, dict);
            if Covers(dict, Ids4(m, r, d)) then g == Some((d.(unit := previous.unit), tail)) else g == None
  {
    IntermediateIds(m, f, r, d, dict);
    NamesReadBack(m, f, r, d, previous, dict, PutDiscriminator(m, r, d, tail));
    if Covers(dict, Ids2(m, r, d)) {
      DiscriminatorReadsBack(m, f, r, d, previous, dict, tail);
    }
  }

  lemma IntermediateIds(m: Ids, f: Ids, r: Repeats, d: Descriptor, dict: Dict)
    requires Target(Ids4(m, r, d), f, dict)
    ensures Target(Ids1(m, r, d), f, dict) && Target(Ids2(m, r, d), f, dict) && Target(Ids3(m, r, d), f, dict)
    ensures Covers(dict, Ids4(m, r, d)) ==> Covers(dict, Ids3(m, r, d))
    ensures Covers(dict, Ids3(m, r, d)) ==> Covers(dict, Ids2(m, r, d))
    ensures Covers(dict, Ids2(m, r, d)) ==> Covers(dict, Ids1(m, r, d))
  {
    IdsGrow(m, r, d);
    TargetShrinks(Ids3(m, r, d), Ids4(m, r, d), f, dict);
    TargetShrinks(Ids2(m, r, d), Ids3(m, r, d), f, dict);
    TargetShrinks(Ids1(m, r, d), Ids2(m, r, d), f, dict);
  }

  lemma ByteReadsBack(repeated: bool, b: byte, previous: byte, tail: seq<byte>)
    requires repeated ==> b == previous
    ensures GetByte(PutByte(repeated, b, tail), repeated, previous) == Some((b, tail))
  {
    DropPrefix([b], tail);
  }

  lemma UnitReadsBack(r: Repeats, unit: Unit, previous: Unit, tail: seq<byte>)
    requires r.unit ==> unit == previous
    ensures GetUnit(PutUnit(r, unit, tail), r, previous) == Some((unit, tail))
  {
    var t1 := PutByte(r.tagCount, 0, tail);
    ByteReadsBack(r.unit, UnitByte(unit), UnitByte(previous), PutByte(r.excludedTargets, 0, t1));
    ByteReadsBack(r.excludedTargets, 0, 0, t1);
    ByteReadsBack(r.tagCount, 0, 0, tail);
  }

  lemma ValueReadsBack(value: Int64, tail: seq<byte>)
    ensures GetValue(PutValue(value, tail)) == Some((value, tail))
  {
    DropPrefix([VALUE_TYPE_LONG], StoreBig(8, value) + tail);
    ReadStoredInt64(value, tail);
  }

  lemma RecordReadsBack(w: Writer, f: Ids, x: Record, dict: Dict, tail: seq<byte>)
    requires Covers(dict, w.ids) && Target(After(w, x).ids, f, dict)
    ensures var g := GetRecord(PutRecord(w, x, tail), w.last, dict);
            if Covers(dict, After(w, x).ids) then g == Some((x, tail)) else g == None
  {
    var d := x.descriptor;
    var r := RepeatsOf(w.last, d);
    var previous := if w.last.Some? then w.last.value else BLANK;
    var t1 := PutValue(x.value, tail);
    var t2 := PutUnit(r, d.unit, t1);
    MaskRoundTrip(r);
    DropPrefix([MaskByte(r)], PutFields(w.ids, r, d, t2));
    FieldsReadBack(w.ids, f, r, d, previous, dict, t2);
    UnitReadsBack(r, d.unit, previous.unit, t1);
    ValueReadsBack(x.value, tail);
  }

  lemma {:induction false} WriterGrows(w: Writer, xs: seq<Record>)
    ensures Extends(w.ids, AfterAll(w, xs).ids)
    decreases |xs|
  {
    if xs != [] {
      IdsGrow(w.ids, RepeatsOf(w.last, xs[0].descriptor), xs[0].descriptor);
      WriterGrows(After(w, xs[0]), xs[1..]);
    }
  }

  /** One step of the reader, given what the next record reads as and what the rest reads as. */
  lemma ReaderStep(s: seq<byte>, n: nat, last: Option<Descriptor>, dict: Dict, x: Record, s1: seq<byte>)
    requires n > 0
    ensures GetRecord(s, last, dict) == None ==> GetRecords(s, n, last, dict) == None
    ensures GetRecord(s, last, dict) == Some((x, s1)) ==>
              var g := GetRecords(s1, n - 1, Some(x.descriptor), dict);
              GetRecords(s, n, last, dict) == if g.None? then None else Some(([x] + g.value.0, g.value.1))
  {}

  lemma FirstRecordReadsBack(w: Writer, xs: seq<Record>, dict: Dict, tail: seq<byte>)
    requires xs != [] && Covers(dict, w.ids)
    requires Int32Ids(AfterAll(w, xs).ids) && Agrees(dict, AfterAll(w, xs).ids)
    ensures var w1 := After(w, xs[0]);
            var g := GetRecord(PutRecords(w, xs, tail), w.last, dict);
            if Covers(dict, w1.ids) then g == Some((xs[0], PutRecords(w1, xs[1..], tail)))
            else g == None && !Covers(dict, AfterAll(w, xs).ids)
  {
    var w1, f := After(w, xs[0]), AfterAll(w, xs).ids;
    WriterGrows(w1, xs[1..]);
    TargetShrinks(w1.ids, f, f, dict);
    RecordReadsBack(w, f, xs[0], dict, PutRecords(w1, xs[1..], tail));
  }

  /** The reader follows the writer record by record. With a dictionary that has every id the run used,
      it returns exactly the records written; with one that lacks any of them, it fails. */
  lemma {:induction false} RecordsReadBack(w: Writer, xs: seq<Record>, dict: Dict, tail: seq<byte>)
    requires Covers(dict, w.ids)
    requires Int32Ids(AfterAll(w, xs).ids) && Agrees(dict, AfterAll(w, xs).ids)
    ensures var g := GetRecords(PutRecords(w, xs, tail), |xs|, w.last, dict);
            if Covers(dict, AfterAll(w, xs).ids) then g == Some((xs, tail)) else g == None
    decreases |xs|
  {
    hide GetRecord, PutRecord, Ids4;
    if xs != [] {
      var w1, rest := After(w, xs[0]), xs[1..];
      FirstRecordReadsBack(w, xs, dict, tail);
      ReaderStep(PutRecords(w, xs, tail), |xs|, w.last, dict, xs[0], PutRecords(w1, rest, tail));
      if Covers(dict, w1.ids) {
        RecordsReadBack(w1, rest, dict, tail);
        assert [xs[0]] + rest == xs;
      }
    }
  }

  // ----- Appending a record at the end of the stream -----

  lemma {:induction false} AppendRecord(w: Writer, xs: seq<Record>, x: Record)
    ensures AfterAll(w, xs + [x]) == After(AfterAll(w, xs), x)
    ensures PutRecords(w, xs + [x], []) == PutRecords(w, xs, PutRecord(AfterAll(w, xs), x, []))
    decreases |xs|
  {
    if xs == [] {
      assert xs + [x] == [x] && [x][1..] == [];
    } else {
      assert (xs + [x])[1..] == xs[1..] + [x];
      AppendRecord(After(w, xs[0]), xs[1..], x);
    }
  }

  lemma PutFieldTail(m: Ids, repeated: bool, word: Option<Word>, s: seq<byte>, tail: seq<byte>)
    ensures PutField(m, repeated, word, s) + tail == PutField(m, repeated, word, s + tail)
  {
    if !repeated {
      Assoc(StoreBig(4, FieldId(FieldIds(m, repeated, word), word)), s, tail);
    }
  }

  lemma PutByteTail(repeated: bool, b: byte, s: seq<byte>, tail: seq<byte>)
    ensures PutByte(repeated, b, s) + tail == PutByte(repeated, b, s + tail)
  {
    Assoc([b], s, tail);
  }

  lemma PutFieldsTail(m: Ids, r: Repeats, d: Descriptor, s: seq<byte>, tail: seq<byte>)
    ensures PutFields(m, r, d, s) + tail == PutFields(m, r, d, s + tail)
  {
    var m1, m2, m3 := Ids1(m, r, d), Ids2(m, r, d), Ids3(m, r, d);
    var t3 := PutField(m3, r.value, d.discriminatorValue, s);
    var t2 := PutField(m2, r.discriminator, d.discriminator, t3);
    PutFieldTail(m3, r.value, d.discriminatorValue, s, tail);
    PutFieldTail(m2, r.discriminator, d.discriminator, t3, tail);
    PutFieldTail(m1, r.metric, Some(d.metric), t2, tail);
    PutFieldTail(m, r.prefix, Some(d.prefix), PutField(m1, r.metric, Some(d.metric), t2), tail);
  }

  lemma PutUnitTail(r: Repeats, unit: Unit, s: seq<byte>, tail: seq<byte>)
    ensures PutUnit(r, unit, s) + tail == PutUnit(r, unit, s + tail)
  {
    var t1 := PutByte(r.tagCount, 0, s);
    PutByteTail(r.tagCount, 0, s, tail);
    PutByteTail(r.excludedTargets, 0, t1, tail);
    PutByteTail(r.unit, UnitByte(unit), PutByte(r.excludedTargets, 0, t1), tail);
  }

  lemma PutRecordTail(w: Writer, x: Record, s: seq<byte>, tail: seq<byte>)
    ensures PutRecord(w, x, s) + tail == PutRecord(w, x, s + tail)
  {
    var d := x.descriptor;
    var r := RepeatsOf(w.last, d);
    var t1 := PutValue(x.value, s);
    var t2 := PutUnit(r, d.unit, t1);
    Assoc4([VALUE_TYPE_LONG], StoreBig(8, x.value), s, tail);
    PutUnitTail(r, d.unit, t1, tail);
    PutFieldsTail(w.ids, r, d, t2, tail);
    Assoc([MaskByte(r)], PutFields(w.ids, r, d, t2), tail);
  }

  lemma {:induction false} PutRecordsTail(w: Writer, xs: seq<Record>, s: seq<byte>, tail: seq<byte>)
    ensures PutRecords(w, xs, s) + tail == PutRecords(w, xs, s + tail)
    decreases |xs|
  {
    if xs != [] {
      PutRecordsTail(After(w, xs[0]), xs[1..], s, tail);
      PutRecordTail(w, xs[0], PutRecords(After(w, xs[0]), xs[1..], s), tail);
    }
  }

  // ----- The bytes of a record -----

  /** How long a record is: 29 bytes for the first one, and after another 10 bytes, four for each word that differs
      from the last record's, and one for a unit that does. */
  lemma RecordLength(w: Writer, x: Record)
    ensures w.last.None? ==> |PutRecord(w, x, [])| == 29
    ensures w.last.Some? ==>
              var l, d := w.last.value, x.descriptor;
              |PutRecord(w, x, [])| == 10
                + (if d.prefix == l.prefix then 0 else 4) + (if d.metric == l.metric then 0 else 4)
                + (if d.discriminator == l.discriminator then 0 else 4)
                + (if d.discriminatorValue == l.discriminatorValue then 0 else 4)
                + (if d.unit == l.unit then 0 else 1)
  {
    hide MaskByte, FieldIds, FieldId;
  }

  /** The four bytes that stand for a word of the dictionary, -1 standing for an absent word; nothing if repeated. */
  function WordBytes(repeated: bool, ids: Ids, word: Option<Word>): seq<byte> {
    if repeated then [] else StoreBig(4, if word.Some? && word.value in ids then ids[word.value] else -1)
  }

  /** The unit, no excluded targets and no tags for the first record; later the unit alone, if it differs. */
  function UnitBytes(last: Option<Descriptor>, unit: Unit): seq<byte> {
    if last.None? then [UnitByte(unit), 0, 0] else if last.value.unit == unit then [] else [UnitByte(unit)]
  }

  /** The bytes of a record in the order in which they are written: the mask, the words that differ from the last
      record's, the unit, the value type 0 and the value. */
  lemma RecordBytes(w: Writer, x: Record)
    ensures var d := x.descriptor;
            var l := w.last;
            var m := After(w, x).ids;
            PutRecord(w, x, []) ==
              [MaskByte(RepeatsOf(l, d))]
              + WordBytes(l.Some? && l.value.prefix == d.prefix, m, Some(d.prefix))
              + WordBytes(l.Some? && l.value.metric == d.metric, m, Some(d.metric))
              + WordBytes(l.Some? && l.value.discriminator == d.discriminator, m, d.discriminator)
              + WordBytes(l.Some? && l.value.discriminatorValue == d.discriminatorValue, m, d.discriminatorValue)
              + (UnitBytes(l, d.unit) + ([0] + StoreBig(8, x.value)))
  {
    var d := x.descriptor;
    var r := RepeatsOf(w.last, d);
    var m := Ids4(w.ids, r, d);
    FieldBytes(w.ids, r, d, PutUnit(r, d.unit, PutValue(x.value, [])));
    TailBytes(w.last, d, x.value);
    var k := MaskByte(r);
    var a, b := WordBytes(r.prefix, m, Some(d.prefix)), WordBytes(r.metric, m, Some(d.metric));
    var c, e := WordBytes(r.discriminator, m, d.discriminator), WordBytes(r.value, m, d.discriminatorValue);
    var t := UnitBytes(w.last, d.unit) + ([0] + StoreBig(8, x.value));
    hide StoreBig, WordBytes, PutFields, PutUnit, PutValue, MaskByte;
    Assoc5([k], a, b, c, e + t);
    Assoc([k] + a + b + c, e, t);
  }

  lemma FieldBytes(ids: Ids, r: Repeats, d: Descriptor, t: seq<byte>)
    ensures var m := Ids4(ids, r, d);
            PutFields(ids, r, d, t) ==
              WordBytes(r.prefix, m, Some(d.prefix)) + (WordBytes(r.metric, m, Some(d.metric))
                + (WordBytes(r.discriminator, m, d.discriminator) + (WordBytes(r.value, m, d.discriminatorValue) + t)))
  {
    IdsGrow(ids, r, d);
    OneField(ids, Ids4(ids, r, d), r.prefix, Some(d.prefix), PutField(Ids1(ids, r, d), r.metric, Some(d.metric),
             PutDiscriminator(ids, r, d, t)));
    OneField(Ids1(ids, r, d), Ids4(ids, r, d), r.metric, Some(d.metric), PutDiscriminator(ids, r, d, t));
    OneField(Ids2(ids, r, d), Ids4(ids, r, d), r.discriminator, d.discriminator,
             PutField(Ids3(ids, r, d), r.value, d.discriminatorValue, t));
    OneField(Ids3(ids, r, d), Ids4(ids, r, d), r.value, d.discriminatorValue, t);
    hide WordBytes, PutField;
  }

  lemma OneField(m: Ids, m': Ids, repeated: bool, word: Option<Word>, t: seq<byte>)
    ensures Extends(FieldIds(m, repeated, word), m') ==> PutField(m, repeated, word, t) == WordBytes(repeated, m', word) + t
  {
    hide StoreBig;
    assert [] + t == t;
  }

  lemma TailBytes(last: Option<Descriptor>, d: Descriptor, value: Int64)
    ensures PutUnit(RepeatsOf(last, d), d.unit, PutValue(value, []))
         == UnitBytes(last, d.unit) + ([0] + StoreBig(8, value))
  {
    hide StoreBig, UnitByte;
    assert StoreBig(8, value) + [] == StoreBig(8, value);
  }

  // ----- What a failed add leaves behind -----

  /** The four word fields by number. */
  predicate RepeatedField(r: Repeats, j: nat) {
    if j == 0 then r.prefix else if j == 1 then r.metric else if j == 2 then r.discriminator else r.value
  }

  /** How many bytes the fields before number j take. */
  function FieldsBefore(r: Repeats, j: nat): nat {
    4 * (Bit(j > 0 && !r.prefix) + Bit(j > 1 && !r.metric) + Bit(j > 2 && !r.discriminator))
  }

  /** Nothing, or the mask byte of a record that is not the first. */
  predicate EndOrMask(s: seq<byte>) {
    s == [] || 0x60 <= s[0] < 0x80
  }

  /** A mask and the fields before number j, which is missing; then nothing, or the next mask. */
  predicate CutOffAt(s: seq<byte>, j: nat) {
    && s != [] && j < 4
    && var r := MaskBits(s[0]);
       !RepeatedField(r, j) && 1 + FieldsBefore(r, j) <= |s| && EndOrMask(s[1 + FieldsBefore(r, j)..])
  }

  ghost predicate CutOff(s: seq<byte>) {
    exists j: nat :: CutOffAt(s, j)
  }

  lemma LaterMask(last: Option<Descriptor>, d: Descriptor)
    requires last.Some?
    ensures 0x60 <= MaskByte(RepeatsOf(last, d)) < 0x80
  {}

  lemma EndOrMaskGrows(s: seq<byte>, t: seq<byte>)
    requires EndOrMask(s) && EndOrMask(t)
    ensures EndOrMask(s + t)
  {
    assert s == [] ==> s + t == t;
  }

  lemma CutOffGrows(s: seq<byte>, t: seq<byte>)
    requires CutOff(s) && EndOrMask(t)
    ensures CutOff(s + t)
  {
    hide MaskBits;
    var j: nat :| CutOffAt(s, j);
    var p := 1 + FieldsBefore(MaskBits(s[0]), j);
    EndOrMaskGrows(s[p..], t);
    assert (s + t)[0] == s[0] && (s + t)[p..] == s[p..] + t;
    assert CutOffAt(s + t, j);
  }

  ghost predicate SmallIds(dict: Dict) {
    forall i :: i in dict ==> i < 0x6000_0000
  }

  lemma TopByte(s: seq<byte>)
    requires |s| >= 4 && 0x60 <= s[0] < 0x80
    ensures Signed(s[..4]) >= 0x6000_0000
  {
    PowerValues();
    UnsignedFour(s[..4]);
  }

  /** Read as a field, the next mask byte is the top byte of an id that no dictionary has. */
  lemma MaskIsNoId(s: seq<byte>, previous: Option<Word>, dict: Dict)
    requires EndOrMask(s) && SmallIds(dict)
    ensures GetField(s, false, previous, dict) == None
  {
    if |s| >= 4 {
      TopByte(s);
    }
  }

  lemma FieldTakes(s: seq<byte>, repeated: bool, previous: Option<Word>, dict: Dict)
    ensures var g := GetField(s, repeated, previous, dict);
            g.Some? ==> |s| >= 4 * Bit(!repeated) && g.value.1 == s[4 * Bit(!repeated)..]
  {}

  lemma WordTakes(s: seq<byte>, repeated: bool, previous: Word, dict: Dict)
    ensures var g := GetWord(s, repeated, previous, dict);
            g.Some? ==> |s| >= 4 * Bit(!repeated) && g.value.1 == s[4 * Bit(!repeated)..]
  {
    FieldTakes(s, repeated, Some(previous), dict);
  }

  /** A record that repeats nothing takes 29 bytes, when read as when written. */
  lemma FirstRecordTakes(s: seq<byte>, last: Option<Descriptor>, dict: Dict)
    requires s != [] && s[0] == 0
    ensures var g := GetRecord(s, last, dict); g.Some? ==> |s| >= 29 && g.value.1 == s[29..]
  {
    hide GetUnit, GetValue, GetFields;
    var g := GetRecord(s, last, dict);
    if g.Some? {
      var r := MaskBits(0);
      var previous := if last.Some? then last.value else BLANK;
      FieldsTake(s[1..], r, previous, dict);
      var s1 := GetFields(s[1..], r, previous, dict).value.1;
      UnitTakes(s1, r, previous.unit);
      var s2 := GetUnit(s1, r, previous.unit).value.1;
      ValueTakes(s2);
      assert s2 == s[20..];
    }
  }

  lemma FieldsTake(s: seq<byte>, r: Repeats, previous: Descriptor, dict: Dict)
    requires r == MaskBits(0)
    ensures var g := GetFields(s, r, previous, dict); g.Some? ==> |s| >= 16 && g.value.1 == s[16..]
  {
    hide GetWord, GetField;
    WordTakes(s, false, previous.prefix, dict);
    if |s| >= 4 {
      WordTakes(s[4..], false, previous.metric, dict);
    }
    if |s| >= 8 {
      FieldTakes(s[8..], false, previous.discriminator, dict);
    }
    if |s| >= 12 {
      FieldTakes(s[12..], false, previous.discriminatorValue, dict);
    }
  }

  lemma UnitTakes(s: seq<byte>, r: Repeats, previous: Unit)
    requires r == MaskBits(0)
    ensures var g := GetUnit(s, r, previous); g.Some? ==> |s| >= 3 && g.value.1 == s[3..]
  {}

  lemma ValueTakes(s: seq<byte>)
    ensures var g := GetValue(s); g.Some? ==> |s| >= 9 && g.value.1 == s[9..]
  {}

  lemma FirstRecordLength(ids: Ids, x: Record)
    ensures var s := PutRecord(Writer(ids, None), x, []); |s| == 29 && s[0] == 0
  {
    FirstFieldsLength(ids, x.descriptor, PutUnit(RepeatsOf(None, x.descriptor), x.descriptor.unit, PutValue(x.value, [])));
    hide PutFields;
  }

  lemma FirstFieldsLength(ids: Ids, d: Descriptor, tail: seq<byte>)
    ensures |PutFields(ids, RepeatsOf(None, d), d, tail)| == 16 + |tail|
  {
    hide FieldIds, FieldId;
  }

  lemma CutOffNames(s: seq<byte>, r: Repeats, j: nat, previous: Descriptor, dict: Dict)
    requires SmallIds(dict) && FieldsBefore(r, j) <= |s| && !RepeatedField(r, j) && EndOrMask(s[FieldsBefore(r, j)..])
    ensures j < 2 ==> GetNames(s, r, previous, dict) == None
    ensures GetNames(s, r, previous, dict).Some? ==>
              |s| >= FieldsBefore(r, 2) && GetNames(s, r, previous, dict).value.1 == s[FieldsBefore(r, 2)..]
  {
    hide GetField, EndOrMask, SmallIds;
    var k := 4 * Bit(!r.prefix);
    FieldTakes(s, r.prefix, Some(previous.prefix), dict);
    if j == 0 {
      assert s[0..] == s;
      MaskIsNoId(s, Some(previous.prefix), dict);
    } else if k <= |s| {
      FieldTakes(s[k..], r.metric, Some(previous.metric), dict);
      if j == 1 {
        MaskIsNoId(s[k..], Some(previous.metric), dict);
      }
    }
  }

  lemma CutOffDiscriminator(s: seq<byte>, r: Repeats, j: nat, previous: Descriptor, dict: Dict)
    requires 2 <= j < 4 && SmallIds(dict)
    requires var k := FieldsBefore(r, j) - FieldsBefore(r, 2); k <= |s| && !RepeatedField(r, j) && EndOrMask(s[k..])
    ensures GetDiscriminator(s, r, previous, dict) == None
  {
    hide GetField, EndOrMask, SmallIds;
    FieldTakes(s, r.discriminator, previous.discriminator, dict);
    if j == 2 {
      assert s[0..] == s;
      MaskIsNoId(s, previous.discriminator, dict);
    } else {
      MaskIsNoId(s[4 * Bit(!r.discriminator)..], previous.discriminatorValue, dict);
    }
  }

  /** No record can be read from there. */
  lemma CutOffUnreadable(s: seq<byte>, last: Option<Descriptor>, dict: Dict)
    requires CutOff(s) && SmallIds(dict)
    ensures GetRecord(s, last, dict) == None
  {
    hide GetNames, GetDiscriminator, MaskBits, SmallIds, EndOrMask, GetUnit, GetValue;
    var j: nat :| CutOffAt(s, j);
    var r := MaskBits(s[0]);
    var previous := if last.Some? then last.value else BLANK;
    var p := FieldsBefore(r, j);
    assert s[1..][p..] == s[1 + p..];
    CutOffNames(s[1..], r, j, previous, dict);
    if j >= 2 {
      var q := FieldsBefore(r, 2);
      var t := s[1..][q..];
      assert t[p - q..] == s[1..][p..];
      CutOffDiscriminator(t, r, j, previous, dict);
    }
  }

  /** Reading on behind what reads back. */
  lemma {:induction false} ReadOn(s: seq<byte>, k: nat, n: nat, last: Option<Descriptor>, dict: Dict)
    requires k < n
    ensures var g := GetRecords(s, k, last, dict);
            (g.None? || forall l :: GetRecord(g.value.1, l, dict) == None) ==> GetRecords(s, n, last, dict) == None
    decreases k
  {
    hide GetRecord, GetRecords;
    NoRecords(s, last, dict);
    var h := GetRecord(s, last, dict);
    if h.Some? {
      ReaderStep(s, n, last, dict, h.value.0, h.value.1);
      if k > 0 {
        ReaderStep(s, k, last, dict, h.value.0, h.value.1);
        ReadOn(h.value.1, k - 1, n - 1, Some(h.value.0.descriptor), dict);
      }
    } else {
      ReaderStep(s, n, last, dict, Record(BLANK, 0), []);
    }
  }

  lemma NoRecords(s: seq<byte>, last: Option<Descriptor>, dict: Dict)
    ensures GetRecords(s, 0, last, dict) == Some(([], s))
  {}
}
