/** The metrics compressor with the buffers and the dictionary it updates in place. */
module MetricsCompressor {
  import opened Bytes
  import opened MetricsDictionary
  import opened MetricsCodec
  import opened MetricsBlob
  import Zlib

  class OutputBuffer {
    var buffer: seq<byte>

    constructor ()
      ensures buffer == []
    {
      buffer := [];
    }

    method WriteByte(val: byte)
      modifies this
      ensures buffer == old(buffer) + [val]
    {
      buffer := buffer + [val];
    }

    method WriteInt32(val: int)
      requires IsInt32(val)
      modifies this
      ensures buffer == old(buffer) + StoreBig(4, val)
    {
      buffer := buffer + StoreBig(4, val);
    }

    method WriteInt64(val: int)
      requires IsInt64(val)
      modifies this
      ensures buffer == old(buffer) + StoreBig(8, val)
    {
      buffer := buffer + StoreBig(8, val);
    }

    method WriteString(str: Word)
      modifies this
      ensures buffer == old(buffer) + Chars(str)
    {
      var i := 0;
      ghost var before := buffer;
      while i < |str|
        invariant i <= |str|
        invariant buffer + Chars(str[i..]) == before + Chars(str)
      {
        ghost var written := buffer;
        buffer := buffer + [0];
        buffer := buffer + [str[i]];
        assert buffer == written + [0, str[i]];
        assert str[i..][1..] == str[i + 1..];
        Assoc(written, [0, str[i]], Chars(str[i + 1..]));
        i := i + 1;
      }
    }

    method WriteBytes(vec: seq<byte>)
      modifies this
      ensures buffer == old(buffer) + vec
    {
      buffer := buffer + vec;
    }
  }

  class Dictionary {
    var wordToId: Ids

    constructor ()
      ensures wordToId == map[]
    {
      wordToId := map[];
    }

    /** None stands for the exception thrown on a word that is too long. */
    method GetDictionaryId(word: Word) returns (id: Option<int>)
      modifies this
      ensures id.Some? <==> |word| <= 255
      ensures id.Some? ==> wordToId == Intern(old(wordToId), word) && word in wordToId && id.value == wordToId[word]
      ensures id.None? ==> wordToId == old(wordToId)
    {
      if |word| > MAX_WORD_LENGTH {
        return None;
      }
      if word !in wordToId {
        var nextId := CastInt32(|wordToId|);
        wordToId := wordToId[word := nextId];
        return Some(nextId);
      } else {
        return Some(wordToId[word]);
      }
    }
  }

  class Compressor {
    var metricsCount: int
    var lastDescriptor: Option<Descriptor>
    const dictionary: Dictionary
    const metricsBuffer: OutputBuffer
    const dictionaryBuffer: OutputBuffer

    /** The records added so far, in order. */
    ghost var records: seq<Record>
    /** No add has failed half-way, and if one has, how many records came before the first that did. */
    ghost var intact: bool
    ghost var clean: nat
    /** The dictionary when the first blob was made. */
    ghost var firstIds: Option<Ids>

    ghost predicate Valid()
      reads this, dictionary, metricsBuffer, dictionaryBuffer
    {
      && metricsBuffer != dictionaryBuffer
      && metricsCount == |records| <= INT32_MAX
      && ProperIds(dictionary.wordToId)
      && (lastDescriptor.Some? ==> WordsFit(lastDescriptor.value))
      && StreamOk(records, intact, clean, Writer(dictionary.wordToId, lastDescriptor), metricsBuffer.buffer)
      && DictionaryWritten()
    }

    ghost predicate DictionaryWritten()
      reads this, dictionary, dictionaryBuffer
    {
      match firstIds
      case None => dictionaryBuffer.buffer == []
      case Some(m) => ProperIds(m) && Extends(m, dictionary.wordToId) && StartsWithDictionary(dictionaryBuffer.buffer, m)
    }

    constructor ()
      ensures Valid() && fresh(dictionary) && fresh(metricsBuffer) && fresh(dictionaryBuffer)
      ensures records == [] && intact && firstIds == None
      ensures dictionary.wordToId == map[] && lastDescriptor == None
    {
      metricsCount := 0;
      lastDescriptor := None;
      records, intact, clean, firstIds := [], true, 0, None;
      dictionary := new Dictionary();
      metricsBuffer := new OutputBuffer();
      dictionaryBuffer := new OutputBuffer();
    }

    /** The mask byte, built bit by bit. */
    method CalculateDescriptorMask(descriptor: Descriptor) returns (mask: byte)
      ensures mask == MaskByte(RepeatsOf(lastDescriptor, descriptor))
      ensures MaskBits(mask) == RepeatsOf(lastDescriptor, descriptor)
      ensures lastDescriptor.None? ==> mask == 0
      ensures lastDescriptor.Some? ==>
                var l := lastDescriptor.value;
                && (mask % 2 == 1 <==> descriptor.prefix == l.prefix)
                && ((mask / 2) % 2 == 1 <==> descriptor.metric == l.metric)
                && ((mask / 4) % 2 == 1 <==> descriptor.discriminator == l.discriminator)
                && ((mask / 8) % 2 == 1 <==> descriptor.discriminatorValue == l.discriminatorValue)
                && ((mask / 16) % 2 == 1 <==> descriptor.unit == l.unit)
                && 96 <= mask < 128
    {
      hide MaskBits;
      mask := 0;
      if lastDescriptor.Some? {
        if descriptor.prefix == lastDescriptor.value.prefix { mask := mask + 1; }
        if descriptor.metric == lastDescriptor.value.metric { mask := mask + 2; }
        if descriptor.discriminator == lastDescriptor.value.discriminator { mask := mask + 4; }
        if descriptor.discriminatorValue == lastDescriptor.value.discriminatorValue { mask := mask + 8; }
        if descriptor.unit == lastDescriptor.value.unit { mask := mask + 16; }
        mask := mask + 32;
        mask := mask + 64;
      }
      assert mask == MaskByte(RepeatsOf(lastDescriptor, descriptor));
      hide MaskByte, RepeatsOf;
      MaskRoundTrip(RepeatsOf(lastDescriptor, descriptor));
      MaskMeans(lastDescriptor, descriptor);
    }

    /** One optional word field: an id from the dictionary, or -1 for an absent word. The ghost tail is what
        will follow; writing moves bytes from what is still to come into the buffer. */
    method WriteField(repeated: bool, word: Option<Word>, ghost tail: seq<byte>) returns (ok: bool)
      requires ProperIds(dictionary.wordToId) && |dictionary.wordToId| < INT32_MAX
      modifies dictionary, metricsBuffer
      ensures ok <==> repeated || WordFits(word)
      ensures ok ==> dictionary.wordToId == FieldIds(old(dictionary.wordToId), repeated, word)
      ensures ok ==> metricsBuffer.buffer + tail ==
                       old(metricsBuffer.buffer) + PutField(old(dictionary.wordToId), repeated, word, tail)
      ensures !ok ==> dictionary.wordToId == old(dictionary.wordToId)
      ensures ProperIds(dictionary.wordToId) && |dictionary.wordToId| <= old(|dictionary.wordToId|) + 1
      ensures Extends(old(dictionary.wordToId), dictionary.wordToId)
      ensures old(metricsBuffer.buffer) <= metricsBuffer.buffer
      ensures |metricsBuffer.buffer| == |old(metricsBuffer.buffer)| + if ok then 4 * Bit(!repeated) else 0
    {
      hide ProperIds;
      ghost var m, b := dictionary.wordToId, metricsBuffer.buffer;
      ok := true;
      if !repeated {
        var id := NULL_DICTIONARY_ID;
        if word.Some? {
          var found := dictionary.GetDictionaryId(word.value);
          if found.None? {
            return false;
          }
          id := found.value;
          FieldIdsProper(m, repeated, word);
        }
        metricsBuffer.WriteInt32(id);
        Assoc(b, StoreBig(4, id), tail);
      }
    }

    /** Prefix and metric, stopping at the first word that is too long. */
    method WriteNames(r: Repeats, d: Descriptor, ghost tail: seq<byte>) returns (ok: bool)
      requires ProperIds(dictionary.wordToId) && |dictionary.wordToId| + 2 <= INT32_MAX
      modifies dictionary, metricsBuffer
      ensures ok <==> (r.prefix || WordFits(Some(d.prefix))) && (r.metric || WordFits(Some(d.metric)))
      ensures ok ==> dictionary.wordToId == Ids2(old(dictionary.wordToId), r, d)
      ensures ok ==> metricsBuffer.buffer + tail ==
                       old(metricsBuffer.buffer) + PutNames(old(dictionary.wordToId), r, d, tail)
      ensures ProperIds(dictionary.wordToId) && |dictionary.wordToId| <= old(|dictionary.wordToId|) + 2
      ensures Extends(old(dictionary.wordToId), dictionary.wordToId)
      ensures old(metricsBuffer.buffer) <= metricsBuffer.buffer
      ensures var grown := |metricsBuffer.buffer| - |old(metricsBuffer.buffer)|;
              if ok then grown == FieldsBefore(r, 2) else StopsShort(r, 0, grown) || StopsShort(r, 1, grown)
    {
      hide ProperIds, FieldIds, PutField, Extends, WordFits;
      ghost var m := dictionary.wordToId;
      ok := WriteField(r.prefix, Some(d.prefix), PutField(Ids1(m, r, d), r.metric, Some(d.metric), tail));
      if ok {
        ghost var m1 := dictionary.wordToId;
        ok := WriteField(r.metric, Some(d.metric), tail);
        ExtendsTwice(m, m1, dictionary.wordToId);
      }
    }

    /** Discriminator and its value, likewise. m is the dictionary before the names. */
    method WriteDiscriminator(r: Repeats, d: Descriptor, ghost m: Ids, ghost tail: seq<byte>) returns (ok: bool)
      requires ProperIds(dictionary.wordToId) && |dictionary.wordToId| + 2 <= INT32_MAX
      requires dictionary.wordToId == Ids2(m, r, d)
      modifies dictionary, metricsBuffer
      ensures ok <==> (r.discriminator || WordFits(d.discriminator)) && (r.value || WordFits(d.discriminatorValue))
      ensures ok ==> dictionary.wordToId == Ids4(m, r, d)
      ensures ok ==> metricsBuffer.buffer + tail == old(metricsBuffer.buffer) + PutDiscriminator(m, r, d, tail)
      ensures ProperIds(dictionary.wordToId)
      ensures Extends(old(dictionary.wordToId), dictionary.wordToId)
      ensures old(metricsBuffer.buffer) <= metricsBuffer.buffer
      ensures var grown := FieldsBefore(r, 2) + |metricsBuffer.buffer| - |old(metricsBuffer.buffer)|;
              !ok ==> StopsShort(r, 2, grown) || StopsShort(r, 3, grown)
    {
      hide ProperIds, FieldIds, PutField, Extends, WordFits;
      ghost var m2 := dictionary.wordToId;
      ok := WriteField(r.discriminator, d.discriminator, PutField(Ids3(m, r, d), r.value, d.discriminatorValue, tail));
      if ok {
        ghost var m3 := dictionary.wordToId;
        ok := WriteField(r.value, d.discriminatorValue, tail);
        ExtendsTwice(m2, m3, dictionary.wordToId);
      }
    }

    /** The four word fields. */
    method WriteFields(r: Repeats, d: Descriptor, ghost tail: seq<byte>) returns (ok: bool)
      requires ProperIds(dictionary.wordToId) && |dictionary.wordToId| + 4 <= INT32_MAX
      modifies dictionary, metricsBuffer
      ensures ok <==> (r.prefix || WordFits(Some(d.prefix))) && (r.metric || WordFits(Some(d.metric)))
                      && (r.discriminator || WordFits(d.discriminator)) && (r.value || WordFits(d.discriminatorValue))
      ensures ok ==> dictionary.wordToId == Ids4(old(dictionary.wordToId), r, d)
      ensures ok ==> metricsBuffer.buffer + tail ==
                       old(metricsBuffer.buffer) + PutFields(old(dictionary.wordToId), r, d, tail)
      ensures ProperIds(dictionary.wordToId)
      ensures Extends(old(dictionary.wordToId), dictionary.wordToId)
      ensures old(metricsBuffer.buffer) <= metricsBuffer.buffer
      ensures !ok ==> BreaksOff(r, |metricsBuffer.buffer| - |old(metricsBuffer.buffer)|)
    {
      hide ProperIds, Ids2, Ids4, PutNames, PutDiscriminator, Extends, WordFits, StopsShort;
      ghost var m := dictionary.wordToId;
      ok := WriteNames(r, d, PutDiscriminator(m, r, d, tail));
      if ok {
        ghost var m2 := dictionary.wordToId;
        ok := WriteDiscriminator(r, d, m, tail);
        ExtendsTwice(m, m2, dictionary.wordToId);
      }
    }

    method WriteUnlessRepeated(repeated: bool, b: byte, ghost tail: seq<byte>)
      modifies metricsBuffer
      ensures metricsBuffer.buffer + tail == old(metricsBuffer.buffer) + PutByte(repeated, b, tail)
    {
      if !repeated {
        Assoc(metricsBuffer.buffer, [b], tail);
        metricsBuffer.WriteByte(b);
      }
    }

    /** The unit, and two bytes that are always zero. */
    method WriteUnit(r: Repeats, unit: Unit, ghost tail: seq<byte>)
      modifies metricsBuffer
      ensures metricsBuffer.buffer + tail == old(metricsBuffer.buffer) + PutUnit(r, unit, tail)
    {
      hide PutByte;
      ghost var t1 := PutByte(r.tagCount, 0, tail);
      WriteUnlessRepeated(r.unit, UnitByte(unit), PutByte(r.excludedTargets, 0, t1));
      WriteUnlessRepeated(r.excludedTargets, 0, t1);
      WriteUnlessRepeated(r.tagCount, 0, tail);
    }

    /** Writes a descriptor. False stands for the exception thrown on a word that is too long; by then the
        mask and possibly some fields are in the buffer. */
    method WriteDescriptor(d: Descriptor, ghost tail: seq<byte>) returns (ok: bool)
      requires ProperIds(dictionary.wordToId) && |dictionary.wordToId| + 4 <= INT32_MAX
      requires lastDescriptor.Some? ==> WordsFit(lastDescriptor.value)
      requires 0 <= metricsCount < INT32_MAX
      modifies this`lastDescriptor, this`metricsCount, dictionary, metricsBuffer
      ensures ok <==> WordsFit(d)
      ensures ok ==> dictionary.wordToId == Ids4(old(dictionary.wordToId), RepeatsOf(old(lastDescriptor), d), d)
      ensures ok ==> metricsBuffer.buffer + tail == old(metricsBuffer.buffer) +
                       PutDescriptor(old(Writer(dictionary.wordToId, lastDescriptor)), d, tail)
      ensures ok ==> lastDescriptor == Some(d) && metricsCount == old(metricsCount) + 1
      ensures !ok ==> lastDescriptor == old(lastDescriptor) && metricsCount == old(metricsCount)
      ensures !ok ==> old(metricsBuffer.buffer) < metricsBuffer.buffer &&
                      FailedAdd(old(lastDescriptor), metricsBuffer.buffer[|old(metricsBuffer.buffer)|..])
      ensures ProperIds(dictionary.wordToId) && Extends(old(dictionary.wordToId), dictionary.wordToId)
    {
      hide ProperIds, Ids4, PutFields, PutUnit, MaskByte, MaskBits, FailedAdd, BreaksOff, Extends;
      ghost var b, m := metricsBuffer.buffer, dictionary.wordToId;
      var mask := CalculateDescriptorMask(d);
      var r := MaskBits(mask);
      ghost var t := PutUnit(r, d.unit, tail);
      metricsBuffer.WriteByte(mask);
      Assoc(b, [mask], PutFields(m, r, d, t));
      ok := WriteFields(r, d, t);
      if !ok {
        CutOffHere(metricsBuffer.buffer[|b|..], lastDescriptor, d);
        return;
      }
      WriteUnit(r, d.unit, tail);
      lastDescriptor := Some(d);
      metricsCount := metricsCount + 1;
    }

    method WriteValue(value: Int64)
      modifies metricsBuffer
      ensures metricsBuffer.buffer == old(metricsBuffer.buffer) + PutValue(value, [])
    {
      ghost var b := metricsBuffer.buffer;
      metricsBuffer.WriteByte(VALUE_TYPE_LONG);
      metricsBuffer.WriteInt64(value);
      Assoc(b, [VALUE_TYPE_LONG], StoreBig(8, value));
      assert StoreBig(8, value) + [] == StoreBig(8, value);
    }

    /** Adds a record. It succeeds exactly when every word fits in 255 bytes. */
    method AddLong(d: Descriptor, value: Int64) returns (ok: bool)
      requires Valid()
      requires metricsCount < INT32_MAX && |dictionary.wordToId| + 4 <= INT32_MAX
      modifies this, dictionary, metricsBuffer
      ensures Valid()
      ensures ok <==> WordsFit(d)
      ensures ok ==> records == old(records) + [Record(d, value)] && intact == old(intact)
      ensures ok ==> var l := old(lastDescriptor);
                     |metricsBuffer.buffer| == |old(metricsBuffer.buffer)| +
                       if l.None? then 29
                       else 10 + (if d.prefix == l.value.prefix then 0 else 4)
                            + (if d.metric == l.value.metric then 0 else 4)
                            + (if d.discriminator == l.value.discriminator then 0 else 4)
                            + (if d.discriminatorValue == l.value.discriminatorValue then 0 else 4)
                            + (if d.unit == l.value.unit then 0 else 1)
      ensures !ok ==> records == old(records) && !intact && old(metricsBuffer.buffer) < metricsBuffer.buffer
      ensures clean == if old(intact) && !ok then |records| else old(clean)
      ensures firstIds == old(firstIds) && Extends(old(dictionary.wordToId), dictionary.wordToId)
    {
      hide ProperIds, PutDescriptor, PutValue, Ids4, StreamOk, StartsWithDictionary, FailedAdd, WordsFit, Extends;
      ghost var x := Record(d, value);
      ghost var w, b := Writer(dictionary.wordToId, lastDescriptor), metricsBuffer.buffer;
      ok := WriteDescriptor(d, PutValue(value, []));
      if firstIds.Some? {
        ExtendsTwice(firstIds.value, w.ids, dictionary.wordToId);
      }
      if !ok {
        ghost var cut := metricsBuffer.buffer[|b|..];
        assert metricsBuffer.buffer == b + cut;
        StreamAfterFail(records, intact, clean, w, b, dictionary.wordToId, cut);
        clean := if intact then |records| else clean;
        intact := false;
        return;
      }
      WriteValue(value);
      StreamAfterAdd(records, intact, clean, w, b, x);
      RecordLength(w, x);
      records := records + [x];
    }

    /** One dictionary entry, relative to the word before it. */
    method WriteEntry(lastWord: Word, word: Word, id: int)
      requires IsInt32(id)
      modifies dictionaryBuffer
      ensures dictionaryBuffer.buffer == old(dictionaryBuffer.buffer) + Entry(lastWord, word, id)
    {
      ghost var b := dictionaryBuffer.buffer;
      var commonLen := FindCommonPrefixLength(lastWord, word);
      dictionaryBuffer.WriteInt32(id);
      var lengths := EntryLengths(commonLen, |word|);
      dictionaryBuffer.WriteByte(lengths[0]);
      dictionaryBuffer.WriteByte(lengths[1]);
      dictionaryBuffer.WriteString(word[commonLen..]);
      EntryInSequence(b, lastWord, word, id, dictionaryBuffer.buffer);
    }

    /** Appends the dictionary, in whatever order the words come. */
    method WriteDictionary()
      requires Valid()
      modifies dictionaryBuffer
      ensures exists order :: IsDictionaryAppended(order, old(dictionaryBuffer.buffer))
    {
      hide StreamOk, Dense, StartsWithDictionary, Entry, Entries, CommonPrefix, CastInt32, Extends, LastWord;
      var m := dictionary.wordToId;
      ghost var b0 := dictionaryBuffer.buffer;
      var lastWord: Word := [];
      dictionaryBuffer.WriteInt32(CastInt32(|m|));
      ghost var order: seq<Word> := [];
      var remaining := m.Keys;
      ghost var prefix := StoreBig(4, CastInt32(|m|));
      NoEntries(m, prefix);
      while remaining != {}
        invariant remaining <= m.Keys && |order| + |remaining| == |m|
        invariant forall w :: w in order <==> w in m && w !in remaining
        invariant lastWord == LastWord(order, [])
        invariant dictionaryBuffer.buffer == b0 + (prefix + Entries(order, m, []))
        decreases remaining
      {
        var word :| word in remaining;
        WriteEntry(lastWord, word, m[word]);
        EntryAppended(b0, prefix, order, word, m);
        LastOf(order, word);
        order := order + [word];
        lastWord := word;
        remaining := remaining - {word};
      }
      assert IsDictionaryAppended(order, b0);
    }

    ghost predicate IsDictionaryAppended(order: seq<Word>, before: seq<byte>)
      reads this, dictionary, dictionaryBuffer
    {
      && Enumerates(order, dictionary.wordToId)
      && dictionaryBuffer.buffer == before +
           (StoreBig(4, CastInt32(|dictionary.wordToId|)) + Entries(order, dictionary.wordToId, []))
    }

    /** Makes the blob. Read back, it gives exactly the records added, unless the dictionary has gained words
        since the first blob was made: then it cannot be read. Nor can it if an add has failed, after at least one
        record or with at most one after it. */
    method GetBlob() returns (blob: seq<byte>)
      requires Valid()
      modifies this`firstIds, dictionaryBuffer
      ensures Valid()
      ensures firstIds == if old(firstIds).None? then Some(dictionary.wordToId) else old(firstIds)
      ensures intact && CompressedSize(|dictionaryBuffer.buffer|) <= INT32_MAX ==>
                ReadBlob(blob) == if firstIds.value == dictionary.wordToId then Some(records) else None
      ensures !intact && clean > 0 && |dictionary.wordToId| <= 0x6000_0000
              && CompressedSize(|dictionaryBuffer.buffer|) <= INT32_MAX ==>
                ReadBlob(blob) == None
      ensures !intact && clean == 0 && |records| <= 1 && CompressedSize(|dictionaryBuffer.buffer|) <= INT32_MAX ==>
                ReadBlob(blob) == None
    {
      hide ProperIds, StartsWithDictionary, StreamOk, ReadBlob, ReadStreams, Entries, Extends, Zlib.Inflate, CompressedSize;
      WriteDictionary();
      ghost var order :| IsDictionaryAppended(order, old(dictionaryBuffer.buffer));
      ghost var m := dictionary.wordToId;
      FirstOrAgain(firstIds, m, order, old(dictionaryBuffer.buffer), dictionaryBuffer.buffer);
      if firstIds.None? {
        firstIds := Some(m);
        SameIds(m);
      }
      var compressedDictionary := CompressBytes(dictionaryBuffer.buffer);
      var compressedMetrics := CompressBytes(metricsBuffer.buffer);
      blob := AssembleBlob(compressedDictionary, metricsCount, compressedMetrics);
      if CompressedSize(|dictionaryBuffer.buffer|) <= INT32_MAX {
        BlobReadsBack(compressedDictionary, compressedMetrics, metricsCount);
        StreamReads(firstIds.value, dictionaryBuffer.buffer, records, intact, clean, Writer(m, lastDescriptor),
                    metricsBuffer.buffer);
      }
    }
  }

  method CompressBytes(bytes: seq<byte>) returns (compressed: seq<byte>)
    ensures Zlib.Inflate(compressed) == Some(bytes) && |compressed| == CompressedSize(|bytes|)
  {
    hide Zlib.Inflate, Zlib.WeightedSum, Zlib.ByteSum, Unsigned;
    compressed := Zlib.Compress(bytes);
  }

  /** The size of a compressed stream of n bytes. */
  function CompressedSize(n: nat): nat {
    n + 6 + 5 * if n == 0 then 1 else (n + 65534) / 65535
  }

  /** Field j is due, and grown bytes are just the fields before it. */
  predicate StopsShort(r: Repeats, j: nat, grown: int) {
    j < 4 && !RepeatedField(r, j) && grown == FieldsBefore(r, j)
  }

  ghost predicate BreaksOff(r: Repeats, grown: int) {
    exists j: nat :: StopsShort(r, j, grown)
  }

  lemma CutOffHere(s: seq<byte>, last: Option<Descriptor>, d: Descriptor)
    requires s != [] && s[0] == MaskByte(RepeatsOf(last, d)) && BreaksOff(RepeatsOf(last, d), |s| - 1)
    ensures FailedAdd(last, s)
  {
    MaskRoundTrip(RepeatsOf(last, d));
    hide MaskBits, MaskByte;
    var j: nat :| StopsShort(RepeatsOf(last, d), j, |s| - 1);
    assert CutOffAt(s, j);
  }

  lemma SameIds(m: Ids)
    ensures Extends(m, m)
  {}

  lemma NoEntries(m: Ids, prefix: seq<byte>)
    ensures prefix + Entries([], m, []) == prefix && LastWord([], []) == []
  {}

  lemma LastOf(order: seq<Word>, word: Word)
    ensures LastWord(order + [word], []) == word
  {}

  lemma EntryAppended(b: seq<byte>, prefix: seq<byte>, order: seq<Word>, word: Word, m: Ids)
    requires word in m && forall w :: w in order ==> w in m
    ensures forall w :: w in order + [word] ==> w in m
    ensures b + (prefix + Entries(order, m, [])) + Entry(LastWord(order, []), word, m[word])
            == b + (prefix + Entries(order + [word], m, []))
  {
    hide Entry;
    EntriesAppend(order, word, m, []);
    Assoc4(b, prefix, Entries(order, m, []), Entry(LastWord(order, []), word, m[word]));
  }

  lemma EntryInSequence(b: seq<byte>, last: Word, word: Word, id: int, after: seq<byte>)
    requires var common := CommonPrefix(last, word);
             var lengths := EntryLengths(common, |word|);
             after == b + StoreBig(4, id) + [lengths[0]] + [lengths[1]] + Chars(word[common..])
    ensures after == b + Entry(last, word, id)
  {
    var common := CommonPrefix(last, word);
    var lengths := EntryLengths(common, |word|);
    assert [lengths[0]] + [lengths[1]] == lengths;
    Assoc(b + StoreBig(4, id), [lengths[0]], [lengths[1]]);
    Assoc(b + StoreBig(4, id), lengths, Chars(word[common..]));
    Assoc(b, StoreBig(4, id), lengths + Chars(word[common..]));
  }

  /** The blob: format version, size-prefixed dictionary, record count, records. */
  method AssembleBlob(dictionary: seq<byte>, count: int, metrics: seq<byte>) returns (blob: seq<byte>)
    requires IsInt32(count)
    ensures |dictionary| <= 0x7FFF_FFFF ==>
              blob == [0, 1] + (StoreBig(4, |dictionary|) + (dictionary + (StoreBig(4, count) + metrics)))
  {
    var out := new OutputBuffer();
    out.WriteByte(0);
    out.WriteByte(1);
    assert out.buffer == VERSION;
    var size := CastInt32(|dictionary|);
    out.WriteInt32(size);
    out.WriteBytes(dictionary);
    out.WriteInt32(CastInt32(count));
    out.WriteBytes(metrics);
    blob := out.buffer;
    Assoc5(VERSION, StoreBig(4, size), dictionary, StoreBig(4, count), metrics);
  }

  /** After the first write the buffer is one dictionary; after another it still starts with the first. */
  lemma FirstOrAgain(first: Option<Ids>, m: Ids, order: seq<Word>, before: seq<byte>, after: seq<byte>)
    requires match first { case None => before == [] case Some(f) => StartsWithDictionary(before, f) }
    requires Enumerates(order, m)
    requires after == before + (StoreBig(4, CastInt32(|m|)) + Entries(order, m, []))
    ensures match first { case None => StartsWithDictionary(after, m) case Some(f) => StartsWithDictionary(after, f) }
  {
    var added := StoreBig(4, CastInt32(|m|)) + Entries(order, m, []);
    match first
    case None =>
      assert after == added + [];
      assert IsDictionaryThen(after, m, order, []);
    case Some(f) =>
      var o, t :| IsDictionaryThen(before, f, o, t);
      Assoc(StoreBig(4, CastInt32(|f|)) + Entries(o, f, []), t, added);
      assert IsDictionaryThen(after, f, o, t + added);
  }
}
