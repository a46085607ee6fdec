/** The blob that carries both compressed streams, and its reader. */
module MetricsBlob {
  import opened Bytes
  import opened MetricsDictionary
  import opened MetricsCodec
  import opened Zlib

  /** The records in a pair of uncompressed streams. */
  function ReadStreams(dictionary: seq<byte>, metrics: seq<byte>, count: int): Option<seq<Record>> {
    if count < 0 then None
    else
      var dict :- ReadDictionary(dictionary);
      var (xs, rest) :- GetRecords(metrics, count, None, dict);
      if rest == [] then Some(xs) else None
  }

  ghost function ReadSections(s: seq<byte>): Option<seq<Record>> {
    var (n, s1) :- ReadInt32(s);
    if n < 0 || |s1| < n then None
    else
      var dictionary :- Inflate(s1[..n]);
      var (count, s2) :- ReadInt32(s1[n..]);
      var metrics :- Inflate(s2);
      ReadStreams(dictionary, metrics, count)
  }

  /** Reads a whole blob: a two-byte format version, then the sections. */
  ghost function ReadBlob(blob: seq<byte>): Option<seq<Record>> {
    if |blob| < 2 || blob[0] != 0 || blob[1] != 1 then None else ReadSections(blob[2..])
  }

  const VERSION: seq<byte> := [0, 1]

  /** A blob is read by inflating its two sections. */
  lemma BlobReadsBack(cd: seq<byte>, cm: seq<byte>, count: int)
    requires |cd| <= INT32_MAX && IsInt32(count)
    ensures var r := ReadBlob(VERSION + (StoreBig(4, |cd|) + (cd + (StoreBig(4, count) + cm))));
            if Inflate(cd).Some? && Inflate(cm).Some?
            then r == ReadStreams(Inflate(cd).value, Inflate(cm).value, count)
            else r == None
  {
    hide Inflate, ReadStreams, StoreBig;
    var t2 := StoreBig(4, count) + cm;
    var t1 := cd + t2;
    DropPrefix(VERSION, StoreBig(4, |cd|) + t1);
    ReadStoredInt32(|cd|, t1);
    DropPrefix(cd, t2);
    ReadStoredInt32(count, cm);
  }

  /** A dictionary stream for m, possibly followed by more bytes. */
  ghost predicate StartsWithDictionary(s: seq<byte>, m: Ids) {
    exists order, tail :: IsDictionaryThen(s, m, order, tail)
  }

  ghost predicate IsDictionaryThen(s: seq<byte>, m: Ids, order: seq<Word>, tail: seq<byte>) {
    Enumerates(order, m) && s == StoreBig(4, CastInt32(|m|)) + Entries(order, m, []) + tail
  }

  ghost predicate ProperIds(m: Ids) {
    Dense(m) && Fits(m) && |m| <= INT32_MAX
  }

  predicate WordFits(word: Option<Word>) {
    word.Some? ==> |word.value| <= MAX_WORD_LENGTH
  }

  predicate WordsFit(d: Descriptor) {
    WordFits(Some(d.prefix)) && WordFits(Some(d.metric)) && WordFits(d.discriminator) && WordFits(d.discriminatorValue)
  }

  /** The limit in bytes. */
  lemma WordLimit(w: Word)
    ensures WordFits(Some(w)) <==> |w| <= 255
    ensures WordFits(None)
  {}

  lemma FieldIdsProper(m: Ids, repeated: bool, word: Option<Word>)
    requires ProperIds(m) && WordFits(word) && |FieldIds(m, repeated, word)| <= INT32_MAX
    ensures ProperIds(FieldIds(m, repeated, word))
    ensures !repeated && word.Some? ==> word.value in FieldIds(m, repeated, word) &&
                                        IsInt32(FieldIds(m, repeated, word)[word.value])
  {
    hide Dense, Fits;
    if !repeated && word.Some? {
      InternDense(m, word.value);
      InternFits(m, word.value);
    }
  }

  lemma InternFits(m: Ids, w: Word)
    requires Fits(m) && |w| <= MAX_WORD_LENGTH
    ensures Fits(Intern(m, w)) && w in Intern(m, w) && IsInt32(Intern(m, w)[w])
  {}

  lemma SizeGrows(m: Ids, m': Ids)
    requires Extends(m, m')
    ensures |m| <= |m'|
  {
    assert m.Keys <= m'.Keys;
    SubsetSize(m.Keys, m'.Keys);
  }

  lemma SubsetSize<T>(s: set<T>, t: set<T>)
    requires s <= t
    ensures |s| <= |t|
  {
    assert t == s + (t - s);
  }

  lemma RecordIdsProper(m: Ids, r: Repeats, d: Descriptor)
    requires ProperIds(m) && WordsFit(d) && |Ids4(m, r, d)| <= INT32_MAX
    ensures ProperIds(Ids4(m, r, d))
  {
    hide ProperIds, FieldIds, Extends;
    var m1, m2, m3 := Ids1(m, r, d), Ids2(m, r, d), Ids3(m, r, d);
    IdsGrow(m, r, d);
    SizeGrows(m3, Ids4(m, r, d));
    SizeGrows(m2, m3);
    SizeGrows(m1, m2);
    FieldIdsProper(m, r.prefix, Some(d.prefix));
    FieldIdsProper(m1, r.metric, Some(d.metric));
    FieldIdsProper(m2, r.discriminator, d.discriminator);
    FieldIdsProper(m3, r.value, d.discriminatorValue);
  }

  /** Any run of records with words of at most 255 bytes keeps the ids dense. */
  lemma {:induction false} RunIdsProper(w: Writer, xs: seq<Record>)
    requires ProperIds(w.ids) && (forall x :: x in xs ==> WordsFit(x.descriptor))
    requires |AfterAll(w, xs).ids| <= INT32_MAX
    ensures ProperIds(AfterAll(w, xs).ids)
    decreases |xs|
  {
    hide ProperIds, WordsFit, Ids4, Extends;
    if xs != [] {
      var w1 := After(w, xs[0]);
      WriterGrows(w1, xs[1..]);
      SizeGrows(w1.ids, AfterAll(w1, xs[1..]).ids);
      assert xs[0] in xs;
      RecordIdsProper(w.ids, RepeatsOf(w.last, xs[0].descriptor), xs[0].descriptor);
      RunIdsProper(w1, xs[1..]);
    }
  }

  /** How the reader's dictionary, taken from the first stream, relates to a later state m of the writer's. */
  lemma DictionaryOfEarlierWords(first: Ids, m: Ids, dict: Dict)
    requires Dense(first) && Dense(m) && Extends(first, m)
    requires Covers(dict, first) && forall i :: i in dict <==> 0 <= i < |first|
    ensures Agrees(dict, m)
    ensures Covers(dict, m) <==> first == m
  {
    forall w | w in m && m[w] in dict
      ensures w in first && dict[m[w]] == w
    {
      assert Used(first, m[w]);
      var v :| v in first && first[v] == m[w];
      assert m[v] == m[w];
    }
    if Covers(dict, m) {
      assert first == m;
    }
  }

  lemma FreshWriter(dict: Dict, m: Ids)
    requires Dense(m) && |m| <= INT32_MAX
    ensures Covers(dict, NEW_WRITER.ids) && Int32Ids(m)
  {}

  /** The two streams read back to exactly the records written, unless words have been added since the
      dictionary stream was first written; then they do not read back at all. */
  lemma StreamsReadBack(first: Ids, dictionary: seq<byte>, xs: seq<Record>)
    requires ProperIds(first) && ProperIds(AfterAll(NEW_WRITER, xs).ids)
    ensures StartsWithDictionary(dictionary, first) && Extends(first, AfterAll(NEW_WRITER, xs).ids) ==>
              ReadStreams(dictionary, PutRecords(NEW_WRITER, xs, []), |xs|)
              == if first == AfterAll(NEW_WRITER, xs).ids then Some(xs) else None
  {
    hide GetRecords, PutRecords, AfterAll, Covers, Agrees, Dense;
    if !StartsWithDictionary(dictionary, first) || !Extends(first, AfterAll(NEW_WRITER, xs).ids) {
      return;
    }
    var order, tail :| IsDictionaryThen(dictionary, first, order, tail);
    DictionaryRoundTrip(order, first, tail);
    var dict := ReadDictionary(dictionary).value;
    DictionaryOfEarlierWords(first, AfterAll(NEW_WRITER, xs).ids, dict);
    FreshWriter(dict, AfterAll(NEW_WRITER, xs).ids);
    RecordsReadBack(NEW_WRITER, xs, dict, []);
  }

  /** End to end: for every run of records, the dictionary written in any order and both streams compressed,
      the blob reads back to exactly the run. */
  lemma RunReadsBack(xs: seq<Record>, order: seq<Word>, cd: seq<byte>, cm: seq<byte>)
    requires forall x :: x in xs ==> WordsFit(x.descriptor)
    requires |cd| <= INT32_MAX && |xs| <= INT32_MAX
    ensures IsCompressedDictionary(cd, AfterAll(NEW_WRITER, xs).ids, order)
            && Inflate(cm) == Some(PutRecords(NEW_WRITER, xs, []))
            ==> ReadBlob(VERSION + (StoreBig(4, |cd|) + (cd + (StoreBig(4, |xs|) + cm)))) == Some(xs)
  {
    hide AfterAll, PutRecords, Inflate, ReadBlob, ReadStreams, Entries, WordsFit, ProperIds;
    var m := AfterAll(NEW_WRITER, xs).ids;
    if IsCompressedDictionary(cd, m, order) && Inflate(cm) == Some(PutRecords(NEW_WRITER, xs, [])) {
      var dictionary := StoreBig(4, CastInt32(|m|)) + Entries(order, m, []);
      NoIdsProper();
      RunIdsProper(NEW_WRITER, xs);
      assert dictionary == dictionary + [];
      assert IsDictionaryThen(dictionary, m, order, []);
      StreamsReadBack(m, dictionary, xs);
      BlobReadsBack(cd, cm, |xs|);
    }
  }

  /** cd is the compressed dictionary stream for m, written in the given order. */
  ghost predicate IsCompressedDictionary(cd: seq<byte>, m: Ids, order: seq<Word>) {
    && |m| <= INT32_MAX && Enumerates(order, m)
    && Inflate(cd) == Some(StoreBig(4, CastInt32(|m|)) + Entries(order, m, []))
  }

  lemma NoIdsProper()
    ensures ProperIds(NEW_WRITER.ids)
  {}

  /** A failed add after at least one record: whatever is added or fails later, the streams never read back, as
      long as the dictionary has at most 0x6000_0000 words. m is the writer's dictionary now, `first` the one
      when the dictionary stream was first written. */
  lemma FailedAddSpoilsRun(first: Ids, m: Ids, dictionary: seq<byte>, xs: seq<Record>, cut: seq<byte>, n: nat)
    requires ProperIds(first) && ProperIds(m) && |m| <= 0x6000_0000 && xs != [] && |xs| <= n && CutOff(cut)
    ensures StartsWithDictionary(dictionary, first) && Extends(first, m) && Extends(AfterAll(NEW_WRITER, xs).ids, m) ==>
              ReadStreams(dictionary, PutRecords(NEW_WRITER, xs, cut), n) == None
  {
    hide GetRecords, PutRecords, AfterAll, Covers, Agrees, Dense, CutOff, Extends;
    var m' := AfterAll(NEW_WRITER, xs).ids;
    if !StartsWithDictionary(dictionary, first) || !Extends(first, m) || !Extends(m', m) {
      return;
    }
    var order, tail :| IsDictionaryThen(dictionary, first, order, tail);
    DictionaryRoundTrip(order, first, tail);
    var dict := ReadDictionary(dictionary).value;
    DictionaryOfEarlierWords(first, m, dict);
    FreshWriter(dict, m);
    SizeGrows(first, m);
    EarlierIds(m', m, dict);
    CutOffRuns(xs, cut, n, dict);
  }

  lemma EarlierIds(m: Ids, m': Ids, dict: Dict)
    requires Extends(m, m')
    ensures Agrees(dict, m') ==> Agrees(dict, m)
    ensures Int32Ids(m') ==> Int32Ids(m)
  {}

  lemma CutOffRuns(xs: seq<Record>, cut: seq<byte>, n: nat, dict: Dict)
    requires |xs| <= n && CutOff(cut) && SmallIds(dict)
    requires Int32Ids(AfterAll(NEW_WRITER, xs).ids) && Agrees(dict, AfterAll(NEW_WRITER, xs).ids)
    ensures var g := GetRecords(PutRecords(NEW_WRITER, xs, cut), n, None, dict); g.None? || g.value.1 != []
  {
    hide GetRecord, PutRecords, AfterAll, Agrees, Int32Ids, SmallIds;
    RecordsReadBack(NEW_WRITER, xs, dict, cut);
    if n > |xs| {
      forall l
        ensures GetRecord(cut, l, dict) == None
      {
        CutOffUnreadable(cut, l, dict);
      }
      ReadOn(PutRecords(NEW_WRITER, xs, cut), |xs|, n, None, dict);
    }
  }

  // ----- What the record stream of a compressor holds -----

  ghost predicate IsCut(xs: seq<Record>, s: seq<byte>) {
    exists cut :: CutOff(cut) && s == PutRecords(NEW_WRITER, xs, cut)
  }

  /** The stream s of a writer w after the records xs. Without a failed add it is their encoding. After one it is the
      encoding of those before the first failure, `clean` many, and breaks off in the middle of what comes next; if
      there were none before it, it starts with the mask of the failed add. */
  ghost predicate StreamOk(xs: seq<Record>, intact: bool, clean: nat, w: Writer, s: seq<byte>) {
    if intact then w == AfterAll(NEW_WRITER, xs) && s == PutRecords(NEW_WRITER, xs, [])
    else
      && clean <= |xs| && (xs != [] <==> w.last.Some?)
      && (clean > 0 ==> Extends(AfterAll(NEW_WRITER, xs[..clean]).ids, w.ids) && IsCut(xs[..clean], s))
      && (clean == 0 ==> s != [] && s[0] == 0 && (xs != [] ==> |s| > 29))
  }

  lemma {:induction false} LastIsSome(w: Writer, xs: seq<Record>)
    ensures AfterAll(w, xs).last.Some? <==> xs != [] || w.last.Some?
    decreases |xs|
  {
    if xs != [] {
      LastIsSome(After(w, xs[0]), xs[1..]);
    }
  }

  lemma ExtendsTwice(m: Ids, m': Ids, m'': Ids)
    requires Extends(m, m') && Extends(m', m'')
    ensures Extends(m, m'')
  {}

  /** A record is added. */
  lemma StreamAfterAdd(xs: seq<Record>, intact: bool, clean: nat, w: Writer, s: seq<byte>, x: Record)
    requires StreamOk(xs, intact, clean, w, s)
    ensures StreamOk(xs + [x], intact, clean, After(w, x), s + PutRecord(w, x, []))
  {
    hide PutRecord, Ids4, AfterAll, PutRecords, IsCut, Extends;
    var added := PutRecord(w, x, []);
    if intact {
      AppendRecord(NEW_WRITER, xs, x);
      PutRecordsTail(NEW_WRITER, xs, [], added);
      assert [] + added == added;
    } else if clean > 0 {
      assert (xs + [x])[..clean] == xs[..clean];
      IdsGrowTo(w, x);
      ExtendsTwice(AfterAll(NEW_WRITER, xs[..clean]).ids, w.ids, After(w, x).ids);
      AddedMask(w, x);
      StillCut(xs[..clean], s, added);
    } else if xs == [] {
      FirstRecordLength(w.ids, x);
    }
  }

  lemma IdsGrowTo(w: Writer, x: Record)
    ensures Extends(w.ids, After(w, x).ids)
  {
    WriterGrows(w, [x]);
    assert [x][1..] == [];
  }

  lemma AddedMask(w: Writer, x: Record)
    requires w.last.Some?
    ensures EndOrMask(PutRecord(w, x, []))
  {
    LaterMask(w.last, x.descriptor);
    hide MaskByte;
  }

  lemma StillCut(xs: seq<Record>, s: seq<byte>, more: seq<byte>)
    requires IsCut(xs, s) && EndOrMask(more)
    ensures IsCut(xs, s + more)
  {
    hide PutRecords, CutOff;
    var cut :| CutOff(cut) && s == PutRecords(NEW_WRITER, xs, cut);
    PutRecordsTail(NEW_WRITER, xs, cut, more);
    CutOffGrows(cut, more);
  }

  /** What an add that fails leaves behind: a mask and some fields. */
  ghost predicate FailedAdd(last: Option<Descriptor>, cut: seq<byte>) {
    CutOff(cut) && exists d :: cut[0] == MaskByte(RepeatsOf(last, d))
  }

  /** An add fails. */
  lemma StreamAfterFail(xs: seq<Record>, intact: bool, clean: nat, w: Writer, s: seq<byte>, ids: Ids, cut: seq<byte>)
    requires StreamOk(xs, intact, clean, w, s) && FailedAdd(w.last, cut) && Extends(w.ids, ids)
    ensures StreamOk(xs, false, if intact then |xs| else clean, Writer(ids, w.last), s + cut)
  {
    hide AfterAll, PutRecords, CutOff, Extends, IsCut;
    var n := if intact then |xs| else clean;
    FailedMask(w.last, cut);
    if intact {
      LastIsSome(NEW_WRITER, xs);
      assert xs[..|xs|] == xs;
      FirstCut(xs, cut);
    } else if clean > 0 {
      ExtendsTwice(AfterAll(NEW_WRITER, xs[..clean]).ids, w.ids, ids);
      StillCut(xs[..clean], s, cut);
    }
  }

  lemma FirstCut(xs: seq<Record>, cut: seq<byte>)
    requires CutOff(cut)
    ensures IsCut(xs, PutRecords(NEW_WRITER, xs, []) + cut)
    ensures xs == [] ==> PutRecords(NEW_WRITER, xs, []) == []
  {
    hide CutOff;
    PutRecordsTail(NEW_WRITER, xs, [], cut);
    assert [] + cut == cut;
  }

  lemma FailedMask(last: Option<Descriptor>, cut: seq<byte>)
    requires FailedAdd(last, cut)
    ensures cut != [] && (last.Some? ==> EndOrMask(cut)) && (last.None? ==> cut[0] == 0)
  {
    var d :| cut[0] == MaskByte(RepeatsOf(last, d));
    if last.Some? {
      LaterMask(last, d);
    }
  }

  /** What both streams read back to: the records, if no add has failed and no word was added since the dictionary
      stream was first written; nothing, if an add has failed after at least one record, or with at most one after
      it. m is the writer's dictionary. */
  lemma StreamReads(first: Ids, dictionary: seq<byte>, xs: seq<Record>, intact: bool, clean: nat, w: Writer,
                    s: seq<byte>)
    requires ProperIds(first) && ProperIds(w.ids)
    requires StreamOk(xs, intact, clean, w, s)
    ensures StartsWithDictionary(dictionary, first) && Extends(first, w.ids) ==>
              var r := ReadStreams(dictionary, s, |xs|);
              && (intact ==> r == if first == w.ids then Some(xs) else None)
              && (!intact && clean > 0 && |w.ids| <= 0x6000_0000 ==> r == None)
              && (!intact && |xs| <= 1 && clean == 0 ==> r == None)
  {
    hide ProperIds, StartsWithDictionary, AfterAll, PutRecords, ReadStreams, Extends, CutOff;
    if StartsWithDictionary(dictionary, first) && Extends(first, w.ids) {
      if intact {
        StreamsReadBack(first, dictionary, xs);
      } else if clean > 0 && |w.ids| <= 0x6000_0000 {
        var cut :| CutOff(cut) && s == PutRecords(NEW_WRITER, xs[..clean], cut);
        FailedAddSpoilsRun(first, w.ids, dictionary, xs[..clean], cut, |xs|);
      } else if clean == 0 && |xs| <= 1 {
        FirstAddFailed(dictionary, s, |xs|);
      }
    }
  }

  /** After a failed first add, a stream with at most one record never reads back: a whole record is shorter. */
  lemma FirstAddFailed(dictionary: seq<byte>, s: seq<byte>, n: nat)
    requires n <= 1 && s != [] && s[0] == 0 && (n == 1 ==> |s| > 29)
    ensures ReadStreams(dictionary, s, n) == None
  {
    hide GetRecord, ReadDictionary;
    var dict := ReadDictionary(dictionary);
    if dict.Some? && n == 1 {
      FirstRecordTakes(s, None, dict.value);
    }
  }

  // ----- The record after a failed first add -----

  /** The ids of the first record's words. */
  lemma FirstIds(d: Descriptor)
    ensures var r := RepeatsOf(None, d);
            var i1 := FieldId(Ids2(map[], r, d), Some(d.metric));
            var i2 := FieldId(Ids3(map[], r, d), d.discriminator);
            var i3 := FieldId(Ids4(map[], r, d), d.discriminatorValue);
            && FieldId(Ids1(map[], r, d), Some(d.prefix)) == 0
            && 0 <= i1 <= 1 && (i1 == 0 <==> d.metric == d.prefix)
            && -1 <= i2 <= 2 && (i2 == 0 <==> d.discriminator == Some(d.prefix)) && (i2 == -1 <==> d.discriminator.None?)
            && -1 <= i3 <= 3 && (i3 == -1 <==> d.discriminatorValue.None?)
            && 1 <= |Ids4(map[], r, d)| <= 4
  {
    var r := RepeatsOf(None, d);
    var m1: Ids := map[d.prefix := 0];
    assert Ids1(map[], r, d) == m1;
    NextFirstId(m1, d.prefix, Some(d.metric));
    NextFirstId(Ids2(map[], r, d), d.prefix, d.discriminator);
    NextFirstId(Ids3(map[], r, d), d.prefix, d.discriminatorValue);
    hide FieldIds, FieldId;
  }

  /** Ids below the size, the first word's being 0. */
  ghost predicate FewIds(m: Ids, w: Word) {
    |m| <= 4 && w in m && m[w] == 0 && forall v :: v in m ==> 0 <= m[v] < |m| && (m[v] == 0 ==> v == w)
  }

  lemma NextFirstId(m: Ids, w: Word, word: Option<Word>)
    requires FewIds(m, w) && |m| <= 3
    ensures var m' := FieldIds(m, false, word);
            var i := FieldId(m', word);
            && FewIds(m', w) && |m| <= |m'| <= |m| + 1 && -1 <= i < |m'|
            && (i == 0 <==> word == Some(w)) && (i == -1 <==> word.None?)
  {
    if word.Some? {
      assert Intern(m, word.value).Keys == m.Keys + {word.value};
    }
  }

  lemma StoredSmall(i: int)
    requires -1 <= i <= 3
    ensures StoreBig(4, i) == if i == -1 then [255, 255, 255, 255] else [0, 0, 0, i]
  {
    assert StoreBig(2, if i == -1 then -1 else 0) == if i == -1 then [255, 255] else [0, 0];
    assert StoreBig(3, if i == -1 then -1 else 0) == if i == -1 then [255, 255, 255] else [0, 0, 0];
    assert i >= 0 ==> i / 256 == 0 && i % 256 == i;
  }

  /** An id read one byte early: it is in a small dictionary only if the byte before it is zero and it is an id. */
  lemma ShiftedField(lead: byte, i: int, t: seq<byte>, previous: Option<Word>, dict: Dict)
    requires lead <= 2 && -1 <= i <= 3
    requires 0 in dict && forall k :: k in dict ==> 0 <= k < 4
    ensures var g := GetField([lead] + (StoreBig(4, i) + t), false, previous, dict);
            && (g.Some? <==> lead == 0 && i >= 0)
            && (g.Some? ==> g.value.0.Some? && g.value.1 == [i] + t)
  {
    hide StoreBig, Signed;
    var fill: byte := if i == -1 then 255 else 0;
    ShiftedBytes(lead, i, t);
    ShiftedId(lead, fill);
  }

  lemma ShiftedBytes(lead: byte, i: int, t: seq<byte>)
    requires -1 <= i <= 3
    ensures var fill: byte := if i == -1 then 255 else 0;
            var s := [lead] + (StoreBig(4, i) + t);
            |s| >= 4 && s[..4] == [lead, fill, fill, fill] && s[4..] == [if i == -1 then 255 else i] + t
  {
    StoredSmall(i);
    var fill: byte := if i == -1 then 255 else 0;
    var e: byte := if i == -1 then 255 else i;
    assert StoreBig(4, i) == [fill, fill, fill] + [e];
    hide StoreBig;
    Assoc([fill, fill, fill], [e], t);
    Assoc([lead], [fill, fill, fill], [e] + t);
    assert [lead] + [fill, fill, fill] == [lead, fill, fill, fill];
    DropPrefix([lead, fill, fill, fill], [e] + t);
  }

  lemma ShiftedId(lead: byte, fill: byte)
    requires lead <= 2 && (fill == 0 || fill == 255)
    ensures Signed([lead, fill, fill, fill]) == lead as int * 0x100_0000 + (if fill == 0 then 0 else 0xFF_FFFF)
  {
    UnsignedFour([lead, fill, fill, fill]);
    PowerValues();
    hide Unsigned, Pow256;
  }

  lemma ShiftedFields(d: Descriptor, t: seq<byte>, dict: Dict)
    requires forall k :: k in dict <==> 0 <= k < |Ids4(map[], RepeatsOf(None, d), d)|
    ensures var r := RepeatsOf(None, d);
            var g := GetFields([0] + PutFields(map[], r, d, t), r, BLANK, dict);
            && (g.Some? <==> d.metric == d.prefix && d.discriminator == Some(d.prefix) && d.discriminatorValue.Some?)
            && (g.Some? ==> exists i: byte :: i <= 3 && g.value.1 == [i] + t)
  {
    var r := RepeatsOf(None, d);
    FirstIds(d);
    var i1 := FieldId(Ids2(map[], r, d), Some(d.metric));
    var i2 := FieldId(Ids3(map[], r, d), d.discriminator);
    var i3 := FieldId(Ids4(map[], r, d), d.discriminatorValue);
    hide StoreBig, GetField, Ids1, Ids2, Ids3, Ids4, FieldId;
    var t3 := StoreBig(4, i3) + t;
    var t2 := StoreBig(4, i2) + t3;
    var t1 := StoreBig(4, i1) + t2;
    ShiftedField(0, 0, t1, Some([]), dict);
    ShiftedField(0, i1, t2, Some([]), dict);
    ShiftedField(i1, i2, t3, None, dict);
    if i1 == 0 && i2 >= 0 {
      ShiftedField(i2, i3, t, None, dict);
    }
  }

  lemma ShiftedUnit(i: byte, unit: Unit, t: seq<byte>)
    requires i <= 3
    ensures var r := RepeatsOf(None, BLANK);
            var g := GetUnit([i] + PutUnit(r, unit, t), r, NONE);
            (g.Some? <==> unit == BYTES) && (g.Some? ==> g.value.1 == [0] + t)
  {
    assert PutUnit(RepeatsOf(None, BLANK), unit, t) == [UnitByte(unit), 0, 0] + t;
    var s := [i] + ([UnitByte(unit), 0, 0] + t);
    assert s[1..] == [UnitByte(unit), 0, 0] + t && s[1..][1..] == [0, 0] + t && s[1..][1..][1..] == [0] + t;
  }

  lemma ShiftedValue(value: Int64)
    ensures GetValue([0] + PutValue(value, [])).Some?
  {
    hide StoreBig;
    var s := [0] + PutValue(value, []);
    assert s[1..] == [VALUE_TYPE_LONG] + StoreBig(8, value);
    PowerValues();
    assert IsInt64(Signed(s[1..][..8]));
  }

  /** The record after one failed first add that left only its mask byte behind is read one byte early. It reads as a
      record at all if and only if metric and discriminator are the same word as the prefix, there is a
      discriminator value, and the unit is BYTES. */
  lemma FailedAddSpoilsStream(x: Record, dict: Dict)
    requires forall i :: i in dict <==> 0 <= i < |After(NEW_WRITER, x).ids|
    ensures var d := x.descriptor;
            GetRecord([0] + PutRecord(NEW_WRITER, x, []), None, dict).Some? <==>
              d.metric == d.prefix && d.discriminator == Some(d.prefix) && d.discriminatorValue.Some? && d.unit == BYTES
  {
    var d := x.descriptor;
    var r := RepeatsOf(None, d);
    var v := PutValue(x.value, []);
    var t := PutUnit(r, d.unit, v);
    assert MaskByte(r) == 0 && MaskBits(0) == r;
    hide GetFields, PutFields, GetUnit, PutUnit, GetValue, PutValue, MaskBits, MaskByte, Ids4;
    var f := PutFields(map[], r, d, t);
    assert PutRecord(NEW_WRITER, x, []) == [0] + f;
    assert ([0] + ([0] + f))[1..] == [0] + f;
    ShiftedFields(d, t, dict);
    var g := GetFields([0] + f, r, BLANK, dict);
    if g.Some? {
      var i: byte :| i <= 3 && g.value.1 == [i] + t;
      ShiftedUnit(i, d.unit, v);
      ShiftedValue(x.value);
    }
  }

  const ZERO_RECORD := Record(Descriptor([], [], Some([]), Some([]), BYTES), 0)

  /** So a failed first add may go unnoticed by the next record: this one reads as itself, with one byte too many
      behind it. */
  lemma FailedAddUnnoticed()
    ensures GetRecord([0] + PutRecord(NEW_WRITER, ZERO_RECORD, []), None, map[0 := []]) == Some((ZERO_RECORD, [0]))
  {
    var x, dict := ZERO_RECORD, map[0 := []];
    hide GetRecord, StoreBig;
    ZeroIds();
    RecordReadsBack(NEW_WRITER, map[[] := 0], x, dict, [0]);
    PutRecordTail(NEW_WRITER, x, [], [0]);
    ZeroBytes();
    var s := PutRecord(NEW_WRITER, x, []);
    assert [] + [0] == [0];
    ShiftZeros(s);
  }

  lemma ShiftZeros(s: seq<byte>)
    requires AllZero(s)
    ensures [0] + s == s + [0]
  {}

  lemma ZeroIds()
    ensures After(NEW_WRITER, ZERO_RECORD).ids == map[[] := 0]
  {
    var m: Ids := map[];
    assert Intern(m, []) == map[[] := 0];
  }

  predicate AllZero(s: seq<byte>) { forall i :: 0 <= i < |s| ==> s[i] == 0 }

  lemma ZeroBytes()
    ensures AllZero(PutRecord(NEW_WRITER, ZERO_RECORD, []))
  {
    var d := ZERO_RECORD.descriptor;
    var r := RepeatsOf(None, d);
    var m: Ids := map[];
    var one: Ids := map[[] := 0];
    assert Intern(m, []) == one;
    assert Ids1(m, r, d) == one && Ids2(m, r, d) == one && Ids3(m, r, d) == one;
    ZerosStored(4);
    ZerosStored(8);
    hide StoreBig, AllZero;
    var t5 := PutUnit(r, BYTES, PutValue(0, []));
    ZeroTail();
    var z := StoreBig(4, 0);
    JoinZeros(z, t5);
    JoinZeros(z, z + t5);
    JoinZeros(z, z + (z + t5));
    JoinZeros(z, z + (z + (z + t5)));
    JoinZeros([0], z + (z + (z + (z + t5))));
    assert AllZero([0]) by { OneZero(); }
  }

  lemma OneZero()
    ensures AllZero([0]) && AllZero([])
  {}

  lemma JoinZeros(s: seq<byte>, t: seq<byte>)
    ensures AllZero(s) && AllZero(t) ==> AllZero(s + t)
  {}

  lemma ZeroTail()
    ensures AllZero(PutUnit(RepeatsOf(None, ZERO_RECORD.descriptor), BYTES, PutValue(0, [])))
  {
    ZerosStored(8);
    hide StoreBig;
  }

  lemma {:induction false} ZerosStored(n: nat)
    ensures AllZero(StoreBig(n, 0))
  {
    if n > 0 {
      ZerosStored(n - 1);
    }
  }
}
