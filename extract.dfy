/** The catalogue side of `sayable extract` (packages/config/src/commands/extract.ts):
    extracted messages become catalogue entries, entries are filed under
    their hash with duplicates merged, and each locale's catalogue is
    rewritten from the merged entries and the entries already on disk.
    Reading, globbing, watching and writing files are left to the caller. */
module Extract {
  import opened Wrappers
  import opened Text
  import Hash
  import Messages
  import opened Formatter

  // ---------------------------------------------------------------------------
  // Extracted entries

  /** The entry for one extracted message: its ICU text is both the message
      and the (source) translation. The text is the factory's
      `ConvertMessageToIcu`, standing for the extractor plugin's ICU
      generator, which trims nothing and orders branches by key. */
  function ExtractedEntry(c: Messages.CompositeMessage): Message
    requires Messages.WellFormed(Messages.From(Messages.CompositeVariant(c)))
  {
    var icu := Messages.ConvertMessageToIcu(Messages.From(Messages.CompositeVariant(c)));
    Message(icu, Some(icu), c.context, Some(c.comments), Some(c.references))
  }

  /** `extractMessages`, after the extractor has run. */
  function ExtractMessages(cs: seq<Messages.CompositeMessage>): (r: seq<Message>)
    requires forall c <- cs :: Messages.WellFormed(Messages.From(Messages.CompositeVariant(c)))
    ensures |r| == |cs|
    ensures forall i :: 0 <= i < |cs| ==> r[i] == ExtractedEntry(cs[i])
  {
    seq(|cs|, i requires 0 <= i < |cs| => ExtractedEntry(cs[i]))
  }

  /** With the factory's converter as the ICU text, an extracted entry is
      filed under the very id the generated code asks the runtime for, and
      its translation is its message. */
  lemma ExtractedEntryKey(hash: Hasher, sha256: Hash.Sha256, c: Messages.CompositeMessage)
    requires IsGenerateHash(hash, sha256)
    requires Messages.WellFormed(Messages.From(Messages.CompositeVariant(c)))
    ensures Key(hash, ExtractedEntry(c)) == Messages.ToHashString(sha256, Messages.From(Messages.CompositeVariant(c)))
    ensures ExtractedEntry(c).translation == Some(ExtractedEntry(c).message)
    ensures ExtractedEntry(c).comments.Some? && ExtractedEntry(c).references.Some?
  {
    var m := Messages.From(Messages.CompositeVariant(c));
    assert m.composite.value.context == c.context;
  }

  // ---------------------------------------------------------------------------
  // Merging duplicates: the specification

  /** A later duplicate's comments and references appended to the kept entry's. */
  function Absorb(kept: Message, later: Message): (r: Message)
    ensures r.message == kept.message && r.translation == kept.translation && r.context == kept.context
  {
    kept.(comments := Some(kept.comments.GetOr([]) + later.comments.GetOr([])),
          references := Some(kept.references.GetOr([]) + later.references.GetOr([])))
  }

  /** `mapMessages` on values: each entry is filed under its key; the first
      entry with a key is kept and later ones only add their comments and
      references. */
  function MapMessages(hash: Hasher, ms: seq<Message>): (r: map<string, Message>)
    ensures forall h | h in r :: Key(hash, r[h]) == h
    decreases |ms|
  {
    if ms == [] then map[]
    else
      var prev := MapMessages(hash, ms[..|ms| - 1]);
      var m := ms[|ms| - 1];
      var h := Key(hash, m);
      if h in prev then prev[h := Absorb(prev[h], m)] else prev[h := m]
  }

  /** The entry at `i` is the first with its key. */
  predicate FirstOf(hash: Hasher, ms: seq<Message>, i: nat)
    requires i < |ms|
  {
    forall j :: 0 <= j < i ==> Key(hash, ms[j]) != Key(hash, ms[i])
  }

  /** The references of all entries filed under `k`, in order. */
  function GatheredReferences(hash: Hasher, ms: seq<Message>, k: string): seq<string>
    decreases |ms|
  {
    if ms == [] then []
    else
      var m := ms[|ms| - 1];
      GatheredReferences(hash, ms[..|ms| - 1], k)
      + (if Key(hash, m) == k then m.references.GetOr([]) else [])
  }

  /** The comments of all entries filed under `k`, in order. */
  function GatheredComments(hash: Hasher, ms: seq<Message>, k: string): seq<string>
    decreases |ms|
  {
    if ms == [] then []
    else
      var m := ms[|ms| - 1];
      GatheredComments(hash, ms[..|ms| - 1], k)
      + (if Key(hash, m) == k then m.comments.GetOr([]) else [])
  }

  /** The keys are exactly the entries' keys. */
  lemma {:induction false} MapMessagesKeys(hash: Hasher, ms: seq<Message>)
    ensures MapMessages(hash, ms).Keys == set i | 0 <= i < |ms| :: Key(hash, ms[i])
    decreases |ms|
  {
    if ms != [] {
      var prefix := ms[..|ms| - 1];
      MapMessagesKeys(hash, prefix);
      var s := set i | 0 <= i < |ms| :: Key(hash, ms[i]);
      var t := set i | 0 <= i < |prefix| :: Key(hash, prefix[i]);
      assert s == t + {Key(hash, ms[|ms| - 1])} by {
        forall k | k in s ensures k in t + {Key(hash, ms[|ms| - 1])} {
          var i :| 0 <= i < |ms| && k == Key(hash, ms[i]);
          if i < |prefix| {
            assert prefix[i] == ms[i];
          }
        }
        forall k | k in t ensures k in s {
          var i :| 0 <= i < |prefix| && k == Key(hash, prefix[i]);
          assert prefix[i] == ms[i];
        }
      }
    }
  }

  /** The entry filed under a key keeps the message, translation and context
      of the first entry with that key, and gathers the comments and
      references of all of them in order. */
  lemma {:induction false} MapMessagesMerges(hash: Hasher, ms: seq<Message>, i: nat)
    requires i < |ms| && FirstOf(hash, ms, i)
    ensures var k := Key(hash, ms[i]);
      && k in MapMessages(hash, ms)
      && var e := MapMessages(hash, ms)[k];
      && e.message == ms[i].message && e.translation == ms[i].translation && e.context == ms[i].context
      && e.references.GetOr([]) == GatheredReferences(hash, ms, k)
      && e.comments.GetOr([]) == GatheredComments(hash, ms, k)
    decreases |ms|
  {
    var k := Key(hash, ms[i]);
    var prefix := ms[..|ms| - 1];
    if i == |ms| - 1 {
      MapMessagesKeys(hash, prefix);
      assert forall j :: 0 <= j < |prefix| ==> Key(hash, prefix[j]) != k by {
        forall j | 0 <= j < |prefix| ensures Key(hash, prefix[j]) != k {
          assert prefix[j] == ms[j];
        }
      }
      GatheredNone(hash, prefix, k);
    } else {
      assert prefix[i] == ms[i];
      assert FirstOf(hash, prefix, i) by {
        forall j | 0 <= j < i ensures Key(hash, prefix[j]) != Key(hash, prefix[i]) {
          assert prefix[j] == ms[j];
        }
      }
      MapMessagesMerges(hash, prefix, i);
    }
  }

  /** Nothing is gathered under a key no entry has. */
  lemma {:induction false} GatheredNone(hash: Hasher, ms: seq<Message>, k: string)
    requires forall j :: 0 <= j < |ms| ==> Key(hash, ms[j]) != k
    ensures GatheredReferences(hash, ms, k) == [] && GatheredComments(hash, ms, k) == []
    decreases |ms|
  {
    if ms != [] {
      var prefix := ms[..|ms| - 1];
      assert forall j :: 0 <= j < |prefix| ==> prefix[j] == ms[j];
      GatheredNone(hash, prefix, k);
    }
  }

  /** The value of the entry at `i` after one in-place `mapMessages`: the
      first entry of its key holds the merged entry, the others are untouched. */
  function AbsorbedAt(hash: Hasher, ms: seq<Message>, i: nat): Message
    requires i < |ms|
  {
    if FirstOf(hash, ms, i) then
      MapMessagesKeys(hash, ms);
      MapMessages(hash, ms)[Key(hash, ms[i])]
    else ms[i]
  }

  function Absorbed(hash: Hasher, ms: seq<Message>): (r: seq<Message>)
    ensures |r| == |ms|
  {
    seq(|ms|, i requires 0 <= i < |ms| => AbsorbedAt(hash, ms, i))
  }

  lemma AbsorbedIndex(hash: Hasher, ms: seq<Message>, i: nat)
    requires i < |ms|
    ensures Absorbed(hash, ms)[i] == AbsorbedAt(hash, ms, i)
  {
  }

  /** One more entry: how the map grows, and when the entry is the first of its key. */
  lemma MapMessagesStep(hash: Hasher, ms: seq<Message>, i: nat)
    requires i < |ms|
    ensures var prev := MapMessages(hash, ms[..i]);
      var h := Key(hash, ms[i]);
      && MapMessages(hash, ms[..i + 1]) == (if h in prev then prev[h := Absorb(prev[h], ms[i])] else prev[h := ms[i]])
      && (FirstOf(hash, ms, i) <==> h !in prev)
  {
    var prefix := ms[..i];
    assert ms[..i + 1][..i] == prefix;
    MapMessagesKeys(hash, prefix);
    if !FirstOf(hash, ms, i) {
      var j :| 0 <= j < i && Key(hash, ms[j]) == Key(hash, ms[i]);
      assert prefix[j] == ms[j];
    }
  }

  /** The entry values after `k` in-place `mapMessages` calls over the same objects. */
  function AbsorbedTimes(hash: Hasher, ms: seq<Message>, k: nat): (r: seq<Message>)
    ensures |r| == |ms|
  {
    if k == 0 then ms else Absorbed(hash, AbsorbedTimes(hash, ms, k - 1))
  }

  // ---------------------------------------------------------------------------
  // Merging duplicates, as written: in place on the entry objects

  /** An entry object as the extractor hands it over; `mapMessages` grows the
      comment and reference arrays of the first entry of each key. */
  class Entry {
    const message: string
    const translation: Option<string>
    const context: Option<string>
    var comments: Option<seq<string>>
    var references: Option<seq<string>>

    constructor (m: Message)
      ensures Value() == m
    {
      message := m.message;
      translation := m.translation;
      context := m.context;
      comments := m.comments;
      references := m.references;
    }

    function Value(): Message
      reads this
    {
      Message(message, translation, context, comments, references)
    }

    /** Pushes a later duplicate's comments and references onto this entry's
        arrays, creating them when absent. */
    method AbsorbDuplicate(later: Message)
      modifies this
      ensures Value() == Absorb(old(Value()), later)
    {
      comments := Some(comments.GetOr([]) + later.comments.GetOr([]));
      references := Some(references.GetOr([]) + later.references.GetOr([]));
    }
  }

  function Values(es: seq<Entry>): (r: seq<Message>)
    reads es
    ensures |r| == |es| && forall i :: 0 <= i < |es| ==> r[i] == es[i].Value()
  {
    seq(|es|, i reads es requires 0 <= i < |es| => es[i].Value())
  }

  /** The value of the entry at `j` after the in-place loop has seen `i` entries. */
  function Target(hash: Hasher, ms: seq<Message>, i: nat, j: nat): Message
    requires i <= |ms| && j < |ms|
  {
    if j < i && FirstOf(hash, ms, j) then
      MapMessagesKeys(hash, ms[..i]);
      assert ms[..i][j] == ms[j];
      MapMessages(hash, ms[..i])[Key(hash, ms[j])]
    else ms[j]
  }

  /** Seeing entry `i` changes only the first entry of its key, and only
      when `i` is a duplicate. */
  lemma TargetStep(hash: Hasher, ms: seq<Message>, i: nat, j: nat)
    requires i < |ms| && j < |ms|
    ensures if !FirstOf(hash, ms, i) && j < i && FirstOf(hash, ms, j) && Key(hash, ms[j]) == Key(hash, ms[i])
      then Target(hash, ms, i + 1, j) == Absorb(Target(hash, ms, i, j), ms[i])
      else Target(hash, ms, i + 1, j) == Target(hash, ms, i, j)
  {
    MapMessagesStep(hash, ms, i);
    MapMessagesKeys(hash, ms[..i]);
    if j < i {
      assert ms[..i][j] == ms[j];
    }
  }

  /** After the loop, the values are those of `Absorbed`. */
  lemma TargetAbsorbed(hash: Hasher, ms: seq<Message>, j: nat)
    requires j < |ms|
    ensures Target(hash, ms, |ms|, j) == AbsorbedAt(hash, ms, j)
  {
    assert ms[..|ms|] == ms;
  }

  /** What the in-place loop keeps after `i` entries: the map holds the first
      entry object of each key seen, and every object holds its `Target` value. */
  ghost predicate InPlaceInvariant(hash: Hasher, entries: seq<Entry>, v0: seq<Message>, i: nat,
                                   mapped: map<string, Entry>, first: map<string, nat>)
    reads entries
    requires |v0| == |entries|
  {
    && KeyIndex(hash, entries, v0, i, mapped, first)
    && (forall j :: 0 <= j < |entries| ==> entries[j].Value() == Target(hash, v0, i, j))
  }

  /** The map part of `InPlaceInvariant`: which entry object each key seen
      is filed under. */
  ghost predicate KeyIndex(hash: Hasher, entries: seq<Entry>, v0: seq<Message>, i: nat,
                           mapped: map<string, Entry>, first: map<string, nat>)
    requires |v0| == |entries|
  {
    && i <= |entries|
    && mapped.Keys == first.Keys == MapMessages(hash, v0[..i]).Keys
    && (forall k | k in mapped :: first[k] < i && FirstOf(hash, v0, first[k]) && Key(hash, v0[first[k]]) == k && mapped[k] == entries[first[k]])
  }

  /** Entry `i` is filed under its key when the key is new. */
  lemma KeyIndexStep(hash: Hasher, entries: seq<Entry>, v0: seq<Message>, i: nat,
                     mapped: map<string, Entry>, first: map<string, nat>)
    requires |v0| == |entries| && i < |entries|
    requires KeyIndex(hash, entries, v0, i, mapped, first)
    ensures var h := Key(hash, v0[i]);
      if h in mapped then KeyIndex(hash, entries, v0, i + 1, mapped, first)
      else KeyIndex(hash, entries, v0, i + 1, mapped[h := entries[i]], first[h := i])
  {
    var h := Key(hash, v0[i]);
    MapMessagesStep(hash, v0, i);
    if h in mapped {
      KeyIndexKept(hash, entries, v0, i, mapped, first);
    } else {
      KeyIndexFiled(hash, entries, v0, i, mapped, first);
    }
  }

  lemma KeyIndexKept(hash: Hasher, entries: seq<Entry>, v0: seq<Message>, i: nat,
                     mapped: map<string, Entry>, first: map<string, nat>)
    requires |v0| == |entries| && i < |entries|
    requires KeyIndex(hash, entries, v0, i, mapped, first) && Key(hash, v0[i]) in mapped
    requires MapMessages(hash, v0[..i + 1]).Keys == MapMessages(hash, v0[..i]).Keys + {Key(hash, v0[i])}
    ensures KeyIndex(hash, entries, v0, i + 1, mapped, first)
  {
  }

  lemma KeyIndexFiled(hash: Hasher, entries: seq<Entry>, v0: seq<Message>, i: nat,
                      mapped: map<string, Entry>, first: map<string, nat>)
    requires |v0| == |entries| && i < |entries|
    requires KeyIndex(hash, entries, v0, i, mapped, first) && Key(hash, v0[i]) !in mapped
    requires MapMessages(hash, v0[..i + 1]).Keys == MapMessages(hash, v0[..i]).Keys + {Key(hash, v0[i])}
    requires FirstOf(hash, v0, i)
    ensures var h := Key(hash, v0[i]);
      KeyIndex(hash, entries, v0, i + 1, mapped[h := entries[i]], first[h := i])
  {
    var h := Key(hash, v0[i]);
    var mapped', first' := mapped[h := entries[i]], first[h := i];
    forall k | k in mapped'
      ensures first'[k] < i + 1 && FirstOf(hash, v0, first'[k]) && Key(hash, v0[first'[k]]) == k
           && mapped'[k] == entries[first'[k]]
    {
      if k != h {
        assert first'[k] == first[k] && mapped'[k] == mapped[k];
      }
    }
    assert mapped'.Keys == first'.Keys == MapMessages(hash, v0[..i + 1]).Keys;
  }

  /** One round of the `mapMessages` loop. */
  method MapOne(hash: Hasher, entries: seq<Entry>, i: nat, mapped: map<string, Entry>,
                ghost v0: seq<Message>, ghost first: map<string, nat>)
    returns (mapped': map<string, Entry>, ghost first': map<string, nat>)
    requires forall a, b :: 0 <= a < b < |entries| ==> entries[a] != entries[b]
    requires |v0| == |entries| && i < |entries|
    requires InPlaceInvariant(hash, entries, v0, i, mapped, first)
    modifies entries
    ensures InPlaceInvariant(hash, entries, v0, i + 1, mapped', first')
  {
    MapMessagesStep(hash, v0, i);
    var entry := entries[i];
    assert entry.Value() == v0[i];
    var h := hash(entry.message, entry.context);
    assert h == Key(hash, v0[i]);
    mapped', first' := mapped, first;
    KeyIndexStep(hash, entries, v0, i, mapped, first);
    if h in mapped {
      var existing := mapped[h];
      ghost var f := first[h];
      existing.AbsorbDuplicate(entry.Value());
      assert forall j :: 0 <= j < |entries| ==> entries[j].Value() == Target(hash, v0, i + 1, j) by {
        forall j | 0 <= j < |entries|
          ensures entries[j].Value() == Target(hash, v0, i + 1, j)
        {
          TargetStep(hash, v0, i, j);
          if j != f {
            assert entries[j] != existing;
          }
        }
      }
    } else {
      mapped' := mapped[h := entry];
      first' := first[h := i];
      assert forall j :: 0 <= j < |entries| ==> entries[j].Value() == Target(hash, v0, i + 1, j) by {
        forall j | 0 <= j < |entries|
          ensures entries[j].Value() == Target(hash, v0, i + 1, j)
        {
          TargetStep(hash, v0, i, j);
        }
      }
    }
  }

  /** `mapMessages` as written: the map holds the first entry object of each
      key, and the later duplicates' comments and references are pushed onto
      that object's own arrays. */
  method MapMessagesInPlace(hash: Hasher, entries: seq<Entry>) returns (mapped: map<string, Entry>)
    requires forall i, j :: 0 <= i < j < |entries| ==> entries[i] != entries[j]
    modifies entries
    ensures mapped.Keys == MapMessages(hash, old(Values(entries))).Keys
    ensures forall k | k in mapped :: mapped[k] in entries && mapped[k].Value() == MapMessages(hash, old(Values(entries)))[k]
    ensures Values(entries) == Absorbed(hash, old(Values(entries)))
  {
    ghost var v0 := Values(entries);
    ghost var first: map<string, nat> := map[];
    mapped := map[];
    var i := 0;
    while i < |entries|
      invariant InPlaceInvariant(hash, entries, v0, i, mapped, first)
    {
      mapped, first := MapOne(hash, entries, i, mapped, v0, first);
      i := i + 1;
    }
    InPlaceDone(hash, entries, v0, mapped, first);
  }

  /** After the last entry: the entries are absorbed and the map is `MapMessages`. */
  lemma InPlaceDone(hash: Hasher, entries: seq<Entry>, v0: seq<Message>,
                    mapped: map<string, Entry>, first: map<string, nat>)
    requires |v0| == |entries| && InPlaceInvariant(hash, entries, v0, |entries|, mapped, first)
    ensures Values(entries) == Absorbed(hash, v0)
    ensures mapped.Keys == MapMessages(hash, v0).Keys
    ensures forall k | k in mapped :: mapped[k] in entries && mapped[k].Value() == MapMessages(hash, v0)[k]
  {
    assert v0[..|entries|] == v0;
    assert Values(entries) == Absorbed(hash, v0) by {
      forall j | 0 <= j < |entries|
        ensures entries[j].Value() == Absorbed(hash, v0)[j]
      {
        TargetAbsorbed(hash, v0, j);
        AbsorbedIndex(hash, v0, j);
      }
    }
    forall k | k in mapped
      ensures mapped[k] in entries && mapped[k].Value() == MapMessages(hash, v0)[k]
    {
      TargetAbsorbed(hash, v0, first[k]);
    }
  }

  /** One locale of `writeAllMessages`: `mapMessages` over the entry objects,
      and the entries of its map at that moment, which `writeMessages`
      receives. */
  method MapForLocale(hash: Hasher, entries: seq<Entry>, ghost current: seq<Message>)
    returns (snapshot: map<string, Message>, ghost next: seq<Message>)
    requires forall i, j :: 0 <= i < j < |entries| ==> entries[i] != entries[j]
    requires Values(entries) == current
    modifies entries
    ensures snapshot == MapMessages(hash, current)
    ensures next == Absorbed(hash, current) && Values(entries) == next
  {
    var mapped := MapMessagesInPlace(hash, entries);
    snapshot := map k | k in mapped :: mapped[k].Value();
    assert snapshot.Keys == MapMessages(hash, current).Keys;
    next := Absorbed(hash, current);
  }

  /** `writeAllMessages`: for each locale, `mapMessages` runs over the same
      entry objects. Each run sees the arrays the previous runs grew. */
  method MessagesPerLocaleAsWritten(hash: Hasher, entries: seq<Entry>, locales: seq<string>)
    returns (written: seq<map<string, Message>>)
    requires forall i, j :: 0 <= i < j < |entries| ==> entries[i] != entries[j]
    modifies entries
    ensures |written| == |locales|
    ensures forall n :: 0 <= n < |locales| ==> written[n] == MapMessages(hash, AbsorbedTimes(hash, old(Values(entries)), n))
  {
    ghost var v0 := Values(entries);
    ghost var current := v0;
    written := [];
    var n := 0;
    while n < |locales|
      invariant 0 <= n <= |locales| && |written| == n
      invariant current == AbsorbedTimes(hash, v0, n)
      invariant Values(entries) == current
      invariant forall k :: 0 <= k < n ==> written[k] == MapMessages(hash, AbsorbedTimes(hash, v0, k))
    {
      var snapshot;
      ghost var prior := written;
      snapshot, current := MapForLocale(hash, entries, current);
      written := written + [snapshot];
      forall k | 0 <= k < n + 1
        ensures written[k] == MapMessages(hash, AbsorbedTimes(hash, v0, k))
      {
        if k < n {
          assert written[k] == prior[k];
        } else {
          assert written[k] == snapshot;
        }
      }
      n := n + 1;
    }
  }

  /** The same message found in `a.ts` and then in `b.ts`. */
  const SightingA: Message := Message("Hi", Some("Hi"), None, Some([]), Some(["a.ts:1"]))
  const SightingB: Message := Message("Hi", Some("Hi"), None, Some([]), Some(["b.ts:2"]))

  /** As written, the first locale's catalogue lists both references, the
      second lists `b.ts:2` twice. */
  lemma SecondLocaleRepeatsReferences(hash: Hasher)
    ensures var k := Key(hash, SightingA);
      var first := MapMessages(hash, AbsorbedTimes(hash, [SightingA, SightingB], 0));
      var second := MapMessages(hash, AbsorbedTimes(hash, [SightingA, SightingB], 1));
      && k in first && first[k].references == Some(["a.ts:1", "b.ts:2"])
      && k in second && second[k].references == Some(["a.ts:1", "b.ts:2", "b.ts:2"])
  {
    var ms := [SightingA, SightingB];
    var k := Key(hash, SightingA);
    assert Key(hash, SightingB) == k;
    var merged := Absorb(SightingA, SightingB);
    assert ["a.ts:1"] + ["b.ts:2"] == ["a.ts:1", "b.ts:2"];
    assert merged.references == Some(["a.ts:1", "b.ts:2"]);
    PairMerged(hash, SightingA, SightingB);
    assert MapMessages(hash, ms) == map[k := merged];
    assert FirstOf(hash, ms, 0);
    assert !FirstOf(hash, ms, 1) by {
      assert Key(hash, ms[0]) == Key(hash, ms[1]);
    }
    var once := Absorbed(hash, ms);
    assert once == [merged, SightingB] by {
      AbsorbedIndex(hash, ms, 0);
      AbsorbedIndex(hash, ms, 1);
      assert once[0] == AbsorbedAt(hash, ms, 0) == merged;
      assert once[1] == AbsorbedAt(hash, ms, 1) == SightingB;
    }
    PairMerged(hash, merged, SightingB);
    assert ["a.ts:1", "b.ts:2"] + ["b.ts:2"] == ["a.ts:1", "b.ts:2", "b.ts:2"];
    assert Absorb(merged, SightingB).references == Some(["a.ts:1", "b.ts:2", "b.ts:2"]);
    assert AbsorbedTimes(hash, ms, 1) == once;
  }

  /** Two entries with the same key merge into one. */
  lemma PairMerged(hash: Hasher, a: Message, b: Message)
    requires Key(hash, a) == Key(hash, b)
    ensures MapMessages(hash, [a, b]) == map[Key(hash, a) := Absorb(a, b)]
  {
    assert [a, b][..1] == [a];
    assert [a][..0] == [];
    assert MapMessages(hash, [a]) == map[Key(hash, a) := a];
  }

  // ---------------------------------------------------------------------------
  // Updating a locale's catalogue

  /** One merged entry: message and translation as on disk when the entry is
      there, else the new message and no translation; context, comments and
      references always from the new entry. */
  function MergeEntry(existing: Option<Message>, incoming: Message): Message {
    match existing
    case None => Message(incoming.message, None, incoming.context, incoming.comments, incoming.references)
    case Some(e) => Message(e.message, e.translation, incoming.context, incoming.comments, incoming.references)
  }

  /** The merged catalogue: exactly the incoming ids; an id new to the file
      starts untranslated, one already there keeps its text and translation. */
  function Updated(existing: map<string, Message>, incoming: map<string, Message>): (r: map<string, Message>)
    ensures r.Keys == incoming.Keys
    ensures forall id :: id in r && id !in existing ==> r[id].translation.None? && r[id].message == incoming[id].message
    ensures forall id :: id in r && id in existing ==>
      r[id].translation == existing[id].translation && r[id].message == existing[id].message
  {
    map id | id in incoming :: MergeEntry(if id in existing then Some(existing[id]) else None, incoming[id])
  }

  /** `updateMessages`. */
  method UpdateMessages(existing: map<string, Message>, incoming: map<string, Message>)
    returns (merged: map<string, Message>)
    ensures merged == Updated(existing, incoming)
  {
    merged := map[];
    var todo := incoming.Keys;
    while todo != {}
      invariant todo <= incoming.Keys
      invariant merged.Keys == incoming.Keys - todo
      invariant forall id | id in merged :: merged[id] == Updated(existing, incoming)[id]
      decreases |todo|
    {
      var id :| id in todo;
      var existingMessage := if id in existing then Some(existing[id]) else None;
      merged := merged[id := MergeEntry(existingMessage, incoming[id])];
      todo := todo - {id};
    }
  }

  /** The updated catalogue has exactly the new keys, so stale entries go;
      translations already made survive, and everything that locates the
      message in the code is refreshed. */
  lemma UpdatedEntries(existing: map<string, Message>, incoming: map<string, Message>, id: string)
    ensures id in Updated(existing, incoming) <==> id in incoming
    ensures id in incoming ==>
      var u := Updated(existing, incoming)[id];
      && u.context == incoming[id].context && u.comments == incoming[id].comments && u.references == incoming[id].references
      && (id in existing ==> u.message == existing[id].message && u.translation == existing[id].translation)
      && (id !in existing ==> u.message == incoming[id].message && u.translation.None?)
  {
  }

  /** Updating twice with the same new entries is updating once. */
  lemma UpdateIdempotent(existing: map<string, Message>, incoming: map<string, Message>)
    ensures Updated(Updated(existing, incoming), incoming) == Updated(existing, incoming)
  {
    var once := Updated(existing, incoming);
    forall id | id in incoming
      ensures Updated(once, incoming)[id] == once[id]
    {
      if id !in existing {
        assert once[id].translation.None?;
      }
    }
  }

  /** The `writeMessages` decision: the source locale takes the new entries
      as they are, the others merge them into what is on disk. Either way the
      catalogue ends up with exactly the new keys. */
  function MessagesToWrite(locale: string, sourceLocale: string,
                           existing: map<string, Message>, incoming: map<string, Message>): (r: map<string, Message>)
    ensures r.Keys == incoming.Keys
    ensures locale == sourceLocale ==> r == incoming
    ensures locale != sourceLocale ==> r == Updated(existing, incoming)
  {
    if locale != sourceLocale then Updated(existing, incoming) else incoming
  }

  // ---------------------------------------------------------------------------
  // The output path

  /** `resolveOutputFilePath`, before `path.resolve`: every `{locale}` and
      every `{extension}` is replaced. */
  function ResolveOutputFilePath(output: string, locale: string, extension: string): (r: string)
    ensures '{' !in output ==> r == output
  {
    if '{' !in output then
      BracelessUnchanged(output, "{locale}", locale);
      BracelessUnchanged(output, "{extension}", extension);
      ReplaceAll(ReplaceAll(output, "{locale}", locale), "{extension}", extension)
    else
      ReplaceAll(ReplaceAll(output, "{locale}", locale), "{extension}", extension)
  }

  /** An output template read as plain text joined by placeholders. */
  datatype Placeholder = LocalePlaceholder | ExtensionPlaceholder
  datatype Piece = Plain(text: string) | Slot(placeholder: Placeholder)

  function PlaceholderText(p: Placeholder): (r: string)
    ensures |r| >= 2 && r[0] == '{' && '{' !in r[1..]
  {
    match p
    case LocalePlaceholder => "{locale}"
    case ExtensionPlaceholder => "{extension}"
  }

  function PieceText(piece: Piece): string {
    match piece
    case Plain(t) => t
    case Slot(p) => PlaceholderText(p)
  }

  /** The template as written in the configuration. */
  function Template(pieces: seq<Piece>): string {
    if pieces == [] then [] else PieceText(pieces[0]) + Template(pieces[1..])
  }

  /** The path the template names for a locale and an extension. */
  function Filled(pieces: seq<Piece>, locale: string, extension: string): string {
    if pieces == [] then []
    else
      var head := match pieces[0]
        case Plain(t) => t
        case Slot(LocalePlaceholder) => locale
        case Slot(ExtensionPlaceholder) => extension;
      head + Filled(pieces[1..], locale, extension)
  }

  /** The plain text opens no placeholder. */
  predicate PlainBraceless(pieces: seq<Piece>) {
    forall piece <- pieces :: piece.Plain? ==> '{' !in piece.text
  }

  /** The template after one placeholder is replaced everywhere. */
  function FillSlot(pieces: seq<Piece>, p: Placeholder, rep: string): (r: seq<Piece>)
    ensures |r| == |pieces|
  {
    if pieces == [] then []
    else [if pieces[0] == Slot(p) then Plain(rep) else pieces[0]] + FillSlot(pieces[1..], p, rep)
  }

  /** Every `{locale}` and every `{extension}` is replaced, in any number and
      any order, provided the plain text and the locale open no placeholder
      and neither value holds a `$` pattern of `replaceAll`. */
  lemma ResolveOutputFilePathFills(pieces: seq<Piece>, locale: string, extension: string)
    requires PlainBraceless(pieces) && '{' !in locale && '$' !in locale && '$' !in extension
    ensures ResolveOutputFilePath(Template(pieces), locale, extension) == Filled(pieces, locale, extension)
  {
    var once := FillSlot(pieces, LocalePlaceholder, locale);
    SlotsReplaced(pieces, LocalePlaceholder, locale);
    FillSlotBraceless(pieces, LocalePlaceholder, locale);
    SlotsReplaced(once, ExtensionPlaceholder, extension);
    FillBoth(pieces, locale, extension);
  }

  lemma {:induction false} FillSlotBraceless(pieces: seq<Piece>, p: Placeholder, rep: string)
    requires PlainBraceless(pieces) && '{' !in rep
    ensures PlainBraceless(FillSlot(pieces, p, rep))
    decreases |pieces|
  {
    if pieces != [] {
      assert PlainBraceless(pieces[1..]);
      FillSlotBraceless(pieces[1..], p, rep);
    }
  }

  lemma {:induction false} FillBoth(pieces: seq<Piece>, locale: string, extension: string)
    ensures Template(FillSlot(FillSlot(pieces, LocalePlaceholder, locale), ExtensionPlaceholder, extension))
         == Filled(pieces, locale, extension)
    decreases |pieces|
  {
    if pieces != [] {
      FillBoth(pieces[1..], locale, extension);
    }
  }

  /** One `replaceAll` of a placeholder replaces each of its slots, and
      nothing else, in the template. */
  lemma SlotsReplaced(pieces: seq<Piece>, p: Placeholder, rep: string)
    requires '$' !in rep && PlainBraceless(pieces)
    ensures ReplaceAll(Template(pieces), PlaceholderText(p), rep) == Template(FillSlot(pieces, p, rep))
  {
    var s := Template(pieces);
    TemplateConcat(pieces);
    TemplateConcat(FillSlot(pieces, p, rep));
    TextsBraced(pieces, p);
    FillSlotTexts(pieces, p, rep);
    assert s[0..] == s;
    ReplaceAllFromParts(s, PlaceholderText(p), rep, 0, Texts(pieces));
  }

  /** The text of each piece, in order. */
  function Texts(pieces: seq<Piece>): (r: seq<string>)
    ensures |r| == |pieces|
  {
    if pieces == [] then [] else [PieceText(pieces[0])] + Texts(pieces[1..])
  }

  lemma {:induction false} TemplateConcat(pieces: seq<Piece>)
    ensures Template(pieces) == Concat(Texts(pieces))
    decreases |pieces|
  {
    if pieces != [] {
      TemplateConcat(pieces[1..]);
      assert Texts(pieces)[1..] == Texts(pieces[1..]);
    }
  }

  lemma {:induction false} TextsBraced(pieces: seq<Piece>, p: Placeholder)
    requires PlainBraceless(pieces)
    ensures BracedParts(Texts(pieces), PlaceholderText(p))
    decreases |pieces|
  {
    if pieces != [] {
      assert PlainBraceless(pieces[1..]);
      TextsBraced(pieces[1..], p);
      assert Texts(pieces)[1..] == Texts(pieces[1..]);
      if pieces[0] != Slot(p) {
        PieceBraced(pieces[0], p);
      }
    }
  }

  lemma {:induction false} FillSlotTexts(pieces: seq<Piece>, p: Placeholder, rep: string)
    requires PlainBraceless(pieces)
    ensures Texts(FillSlot(pieces, p, rep)) == SubstParts(Texts(pieces), PlaceholderText(p), rep)
    decreases |pieces|
  {
    if pieces != [] {
      assert PlainBraceless(pieces[1..]);
      FillSlotTexts(pieces[1..], p, rep);
      assert Texts(pieces)[1..] == Texts(pieces[1..]);
      assert FillSlot(pieces, p, rep)[1..] == FillSlot(pieces[1..], p, rep);
      var pat := PlaceholderText(p);
      match pieces[0]
      case Plain(t) =>
        if t != [] {
          assert t[0] in t;
        }
        assert t != pat;
      case Slot(q) =>
        assert q != p ==> |PlaceholderText(q)| != |pat|;
    }
  }

  /** A piece other than the placeholder's slot cannot start that placeholder. */
  lemma PieceBraced(piece: Piece, p: Placeholder)
    requires piece != Slot(p) && (piece.Plain? ==> '{' !in piece.text)
    ensures var w, pat := PieceText(piece), PlaceholderText(p);
      |pat| >= 2 && pat[0] == '{'
      && (w != [] ==> '{' !in w[1..])
      && (w != [] && w[0] == '{' ==> |w| >= 2 && w[1] != pat[1])
  {
    var w := PieceText(piece);
    if piece.Plain? && w != [] {
      assert w[0] in piece.text && forall c <- w[1..] :: c in piece.text;
    }
  }

  /** A template naming the locale twice gets the locale twice. */
  lemma ResolveOutputFilePathExample()
    ensures ResolveOutputFilePath("{locale}/{locale}", "fr", ".po") == "fr/fr"
  {
    var pieces := [Slot(LocalePlaceholder), Plain("/"), Slot(LocalePlaceholder)];
    assert Template(pieces) == "{locale}/{locale}" by {
      assert pieces[1..][1..][1..] == [];
    }
    assert Filled(pieces, "fr", ".po") == "fr/fr" by {
      assert pieces[1..][1..][1..] == [];
    }
    ResolveOutputFilePathFills(pieces, "fr", ".po");
  }
}
