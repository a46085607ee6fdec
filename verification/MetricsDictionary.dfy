/** The word dictionary of the metrics compressor: ids in order of first use, and the prefix-compressed
    dictionary stream with its reader. */
module MetricsDictionary {
  import opened Bytes

  type Word = seq<byte>
  type Ids = map<Word, int>

  const MAX_WORD_LENGTH: nat := 255

  /** `static_cast<int>` of a `std::size_t`. */
  function CastInt32(v: int): (r: int)
    ensures IsInt32(r)
    ensures IsInt32(v) ==> r == v
  {
    var u := v % 0x1_0000_0000;
    if u < 0x8000_0000 then u else u - 0x1_0000_0000
  }

  function Intern(m: Ids, w: Word): Ids {
    if w in m then m else m[w := CastInt32(|m|)]
  }

  ghost predicate Used(m: Ids, i: int) { exists w :: w in m && m[w] == i }

  /** The ids are a bijection between the words and 0, ..., |m| - 1. */
  ghost predicate Dense(m: Ids) {
    && (forall w :: w in m ==> 0 <= m[w] < |m|)
    && (forall v, w :: v in m && w in m && m[v] == m[w] ==> v == w)
    && (forall i :: 0 <= i < |m| ==> Used(m, i))
  }

  /** m' keeps every id of m. */
  ghost predicate Extends(m: Ids, m': Ids) {
    forall w :: w in m ==> w in m' && m'[w] == m[w]
  }

  lemma InternDense(m: Ids, w: Word)
    requires Dense(m) && |m| <= INT32_MAX
    ensures Dense(Intern(m, w)) && Extends(m, Intern(m, w)) && w in Intern(m, w)
    ensures Intern(m, w).Keys == m.Keys + {w}
  {
    if w !in m {
      var n := |m|;
      assert CastInt32(n) == n;
      NewIdDense(m, w, n);
    }
  }

  lemma InternSize(m: Ids, w: Word)
    ensures |Intern(m, w)| <= |m| + 1
  {
    assert Intern(m, w).Keys == m.Keys + {w};
  }

  lemma NewIdDense(m: Ids, w: Word, n: nat)
    requires Dense(m) && w !in m && n == |m|
    ensures Dense(m[w := n]) && |m[w := n]| == n + 1
  {
    var m' := m[w := n];
    assert m'.Keys == m.Keys + {w} && |m'.Keys| == |m.Keys| + 1;
    forall i | 0 <= i < |m'|
      ensures Used(m', i)
    {
      if i == n {
        assert m'[w] == i;
      } else {
        assert Used(m, i);
        var v :| v in m && m[v] == i;
        assert m'[v] == i;
      }
    }
  }

  /** The dictionary after a run of lookups. */
  ghost function InternAll(m: Ids, ws: seq<Word>): Ids
    decreases |ws|
  {
    if ws == [] then m else InternAll(Intern(m, ws[0]), ws[1..])
  }

  ghost function Words(ws: seq<Word>): set<Word> { set w | w in ws }

  /** Over every run from a dense dictionary the ids stay dense and no id ever changes. */
  lemma {:induction false} IdsOverRun(m: Ids, ws: seq<Word>)
    requires Dense(m) && |m| + |ws| <= INT32_MAX + 1
    ensures Dense(InternAll(m, ws))
    ensures Extends(m, InternAll(m, ws))
    decreases |ws|
  {
    if ws != [] {
      var m1, rest := Intern(m, ws[0]), ws[1..];
      InternDense(m, ws[0]);
      InternSize(m, ws[0]);
      IdsOverRun(m1, rest);
    }
  }

  lemma {:induction false} KeysOverRun(m: Ids, ws: seq<Word>)
    ensures InternAll(m, ws).Keys == m.Keys + Words(ws)
    decreases |ws|
  {
    if ws != [] {
      KeysOverRun(Intern(m, ws[0]), ws[1..]);
      assert Words(ws) == {ws[0]} + Words(ws[1..]);
    }
  }

  /** A word first looked up at position i gets the number of words known by then. */
  lemma {:induction false} IdIsRank(m: Ids, ws: seq<Word>, i: nat)
    requires Dense(m) && |m| + |ws| <= INT32_MAX + 1
    requires i < |ws| && ws[i] !in InternAll(m, ws[..i])
    ensures ws[i] in InternAll(m, ws) && InternAll(m, ws)[ws[i]] == |InternAll(m, ws[..i])|
    decreases |ws|
  {
    hide Dense, CastInt32;
    var m1, rest := Intern(m, ws[0]), ws[1..];
    InternDense(m, ws[0]);
    InternSize(m, ws[0]);
    if i == 0 {
      IdsOverRun(m1, rest);
    } else {
      assert ws[..i][1..] == rest[..i - 1];
      IdIsRank(m1, rest, i - 1);
    }
  }

  // ----- The dictionary stream -----

  function CommonPrefix(s: Word, t: Word): (n: nat)
    ensures n <= |s| && n <= |t| && s[..n] == t[..n]
  {
    if s == [] || t == [] || s[0] != t[0] then 0 else 1 + CommonPrefix(s[1..], t[1..])
  }

  /** The longest common prefix, by the scanning loop. */
  method FindCommonPrefixLength(s1: Word, s2: Word) returns (len: nat)
    ensures len <= |s1| && len <= |s2| && s1[..len] == s2[..len]
    ensures len < |s1| && len < |s2| ==> s1[len] != s2[len]
    ensures len == CommonPrefix(s1, s2)
  {
    len := 0;
    while len < |s1| && len < |s2| && s1[len] == s2[len]
      invariant len <= |s1| && len <= |s2| && s1[..len] == s2[..len]
      invariant len + CommonPrefix(s1[len..], s2[len..]) == CommonPrefix(s1, s2)
    {
      assert s1[len..][1..] == s1[len + 1..] && s2[len..][1..] == s2[len + 1..];
      len := len + 1;
    }
  }

  /** Each character as two bytes, the first one zero. */
  function Chars(w: Word): (s: seq<byte>)
    ensures |s| == 2 * |w|
  {
    if w == [] then [] else [0, w[0]] + Chars(w[1..])
  }

  /** The two length bytes, each a `static_cast<byte>`. */
  function EntryLengths(common: nat, size: nat): (s: seq<byte>)
    requires common <= size
    ensures |s| == 2 && (size <= MAX_WORD_LENGTH ==> s[0] == common && s[1] == size - common)
  {
    [common % 256, (size - common) % 256]
  }

  function Entry(last: Word, w: Word, id: int): seq<byte> {
    var common := CommonPrefix(last, w);
    StoreBig(4, id) + (EntryLengths(common, |w|) + Chars(w[common..]))
  }

  /** Character i is a zero byte and then itself. */
  lemma {:induction false} CharsAt(w: Word, i: nat)
    requires i < |w|
    ensures Chars(w)[2 * i] == 0 && Chars(w)[2 * i + 1] == w[i]
  {
    if i > 0 {
      CharsAt(w[1..], i - 1);
    }
  }

  /** The bytes of an entry, n being the length of the longest common prefix with the word before it. */
  lemma EntryBytes(last: Word, w: Word, id: int, n: nat)
    requires |w| <= 255 && n <= |last| && n <= |w| && last[..n] == w[..n]
    requires n < |last| && n < |w| ==> last[n] != w[n]
    ensures Entry(last, w, id) == StoreBig(4, id) + ([n, |w| - n] + Chars(w[n..]))
  {
    LongestPrefix(last, w, n);
    hide StoreBig, Chars;
  }

  lemma {:induction false} LongestPrefix(s: Word, t: Word, n: nat)
    requires n <= |s| && n <= |t| && s[..n] == t[..n] && (n < |s| && n < |t| ==> s[n] != t[n])
    ensures CommonPrefix(s, t) == n
    decreases n
  {
    if n > 0 {
      assert s[0] == s[..n][0] == t[..n][0] == t[0];
      assert s[1..][..n - 1] == s[..n][1..] && t[1..][..n - 1] == t[..n][1..];
      LongestPrefix(s[1..], t[1..], n - 1);
    }
  }

  function Entries(order: seq<Word>, m: Ids, last: Word): seq<byte>
    requires forall w :: w in order ==> w in m
  {
    if order == [] then [] else Entry(last, order[0], m[order[0]]) + Entries(order[1..], m, order[0])
  }

  function ReadChars(s: seq<byte>, n: nat): Option<(Word, seq<byte>)> {
    if n == 0 then Some(([], s))
    else if |s| < 2 || s[0] != 0 then None
    else
      var (w, rest) :- ReadChars(s[2..], n - 1);
      Some(([s[1]] + w, rest))
  }

  function ReadEntry(s: seq<byte>, last: Word): Option<((int, Word), seq<byte>)> {
    var (id, s1) :- ReadInt32(s);
    if |s1| < 2 || s1[0] > |last| then None
    else
      var (w, rest) :- ReadChars(s1[2..], s1[1]);
      Some(((id, last[..s1[0]] + w), rest))
  }

  /** Reads n entries, each word relative to the one before it. */
  function ReadEntries(s: seq<byte>, n: nat, last: Word): Option<(map<int, Word>, seq<byte>)>
    decreases n
  {
    if n == 0 then Some((map[], s))
    else
      var ((id, w), s1) :- ReadEntry(s, last);
      var (more, rest) :- ReadEntries(s1, n - 1, w);
      Some((more[id := w], rest))
  }

  /** The reader takes as many entries as the leading count says. */
  function ReadDictionary(s: seq<byte>): Option<map<int, Word>> {
    var (n, s1) :- ReadInt32(s);
    if n < 0 then None
    else
      var (dict, _) :- ReadEntries(s1, n, []);
      Some(dict)
  }

  lemma {:induction false} ReadWrittenChars(w: Word, tail: seq<byte>)
    ensures ReadChars(Chars(w) + tail, |w|) == Some((w, tail))
  {
    if w == [] {
      assert Chars(w) + tail == tail;
    } else {
      var head: seq<byte> := [0, w[0]];
      Assoc(head, Chars(w[1..]), tail);
      DropPrefix(head, Chars(w[1..]) + tail);
      ReadWrittenChars(w[1..], tail);
      assert [w[0]] + w[1..] == w;
    }
  }

  lemma ReadWrittenEntry(last: Word, w: Word, id: int, tail: seq<byte>)
    requires |w| <= MAX_WORD_LENGTH && IsInt32(id)
    ensures ReadEntry(Entry(last, w, id) + tail, last) == Some(((id, w), tail))
  {
    var common := CommonPrefix(last, w);
    var lens, body := EntryLengths(common, |w|), Chars(w[common..]);
    Assoc4(StoreBig(4, id), lens, body, tail);
    ReadStoredInt32(id, lens + (body + tail));
    DropPrefix(lens, body + tail);
    ReadWrittenChars(w[common..], tail);
    SliceJoin(w, 0, common);
  }

  ghost predicate Fits(m: Ids) {
    forall w :: w in m ==> |w| <= MAX_WORD_LENGTH && IsInt32(m[w])
  }

  ghost function InverseOn(order: seq<Word>, m: Ids): map<int, Word>
    requires forall w :: w in order ==> w in m
  {
    if order == [] then map[] else InverseOn(order[1..], m)[m[order[0]] := order[0]]
  }

  /** In whatever order the words are written, they are all rebuilt. */
  lemma {:induction false} ReadWrittenEntries(order: seq<Word>, m: Ids, last: Word, tail: seq<byte>)
    requires forall w :: w in order ==> w in m
    requires Fits(m)
    ensures ReadEntries(Entries(order, m, last) + tail, |order|, last) == Some((InverseOn(order, m), tail))
    decreases |order|
  {
    if order == [] {
      assert Entries(order, m, last) + tail == tail;
    } else {
      var w := order[0];
      var more := Entries(order[1..], m, w) + tail;
      Assoc(Entry(last, w, m[w]), Entries(order[1..], m, w), tail);
      ReadWrittenEntry(last, w, m[w], more);
      ReadWrittenEntries(order[1..], m, w, tail);
    }
  }

  ghost predicate Enumerates(order: seq<Word>, m: Ids) {
    && |order| == |m|
    && (forall w :: w in m <==> w in order)
  }

  /** dict maps the id of every word of m back to the word. */
  ghost predicate Covers(dict: map<int, Word>, m: Ids) {
    forall w :: w in m ==> m[w] in dict && dict[m[w]] == w
  }

  lemma {:induction false} InverseProperties(order: seq<Word>, m: Ids)
    requires forall w :: w in order ==> w in m
    requires Dense(m)
    ensures forall w :: w in order ==> m[w] in InverseOn(order, m) && InverseOn(order, m)[m[w]] == w
    ensures forall i :: i in InverseOn(order, m) ==> 0 <= i < |m|
  {
    if order != [] {
      InverseProperties(order[1..], m);
      assert forall w :: w in order ==> w == order[0] || w in order[1..];
    }
  }

  /** Reading the stream recovers exactly the word-to-id map, for every order of writing it and with any
      bytes after it. */
  lemma DictionaryRoundTrip(order: seq<Word>, m: Ids, tail: seq<byte>)
    requires Dense(m) && Fits(m) && |m| <= INT32_MAX && Enumerates(order, m)
    ensures var r := ReadDictionary(StoreBig(4, CastInt32(|m|)) + Entries(order, m, []) + tail);
            && r.Some? && Covers(r.value, m)
            && forall i :: i in r.value <==> 0 <= i < |m|
  {
    hide StoreBig, Entries, ReadEntries, ReadInt32, CastInt32, InverseOn, Dense;
    var body := Entries(order, m, []) + tail;
    Assoc(StoreBig(4, |m|), Entries(order, m, []), tail);
    ReadStoredInt32(|m|, body);
    ReadWrittenEntries(order, m, [], tail);
    InverseComplete(order, m);
  }

  lemma InverseComplete(order: seq<Word>, m: Ids)
    requires Dense(m) && Enumerates(order, m)
    ensures Covers(InverseOn(order, m), m) && forall i :: i in InverseOn(order, m) <==> 0 <= i < |m|
  {
    hide InverseOn;
    InverseProperties(order, m);
    forall i | 0 <= i < |m|
      ensures i in InverseOn(order, m)
    {
      assert Used(m, i);
      var w :| w in m && m[w] == i;
      assert w in order;
    }
  }

  function LastWord(order: seq<Word>, last: Word): Word {
    if order == [] then last else order[|order| - 1]
  }

  lemma {:induction false} EntriesAppend(order: seq<Word>, w: Word, m: Ids, last: Word)
    requires forall v :: v in order + [w] ==> v in m
    ensures forall v :: v in order ==> v in m
    ensures Entries(order + [w], m, last) == Entries(order, m, last) + Entry(LastWord(order, last), w, m[w])
    decreases |order|
  {
    assert forall v :: v in order ==> v in order + [w];
    assert w in order + [w];
    if order == [] {
      assert order + [w] == [w] && [w][1..] == [];
    } else {
      assert forall v :: v in order[1..] + [w] ==> v in order + [w];
      assert (order + [w])[1..] == order[1..] + [w];
      EntriesAppend(order[1..], w, m, order[0]);
      Assoc(Entry(last, order[0], m[order[0]]), Entries(order[1..], m, order[0]), Entry(LastWord(order, last), w, m[w]));
    }
  }
}
