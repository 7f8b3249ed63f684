/** Localised command options of the Carbon integration
    (packages/integration-carbon/src/utils/combine-command-options.ts): one
    command-options object per locale is merged into a single object. Arrays
    are merged element by element, objects key by key; a `name` or
    `description` key keeps the default locale's value and gains a
    `<key>Localizations` object holding the other locales' values; any other
    value is the default locale's own. */
module CommandOptions {
  import opened Wrappers
  import opened Text

  // ---------------------------------------------------------------------------
  // JavaScript values

  /** The values the records hold. A string, number, boolean or function is a
      `Scalar`, known by an opaque text; an object's own keys are kept in
      insertion order. */
  datatype Value =
    | Undefined
    | Null
    | Scalar(s: string)
    | Arr(items: seq<Value>)
    | Obj(fields: seq<Field>)

  datatype Field = Field(key: string, value: Value)

  /** `typeof v === 'object' && v !== null`. */
  predicate IsObject(v: Value) {
    v.Arr? || v.Obj?
  }

  function Max(xs: seq<nat>): (r: nat)
    ensures forall k :: 0 <= k < |xs| ==> xs[k] <= r
    ensures xs != [] ==> exists k :: 0 <= k < |xs| && xs[k] == r
  {
    if xs == [] then 0
    else
      var m := Max(xs[1..]);
      assert forall k :: 1 <= k < |xs| ==> xs[k] == xs[1..][k - 1];
      if xs[0] >= m then xs[0] else m
  }

  /** The nesting depth: 1 for a leaf and an empty array or object. */
  function Depth(v: Value): (r: nat)
    ensures r >= 1
  {
    match v
    case Arr(items) => 1 + Max(seq(|items|, k requires 0 <= k < |items| => Depth(items[k])))
    case Obj(fields) => 1 + Max(seq(|fields|, k requires 0 <= k < |fields| => Depth(fields[k].value)))
    case _ => 1
  }

  /** The deepest of `values`: the measure the merge descends on. */
  function Height(values: seq<Value>): nat {
    Max(seq(|values|, k requires 0 <= k < |values| => Depth(values[k])))
  }

  lemma HeightBelow(values: seq<Value>, h: nat)
    requires h >= 1
    requires forall k :: 0 <= k < |values| ==> Depth(values[k]) < h
    ensures Height(values) < h
  {
    var ds := seq(|values|, k requires 0 <= k < |values| => Depth(values[k]));
    if values != [] {
      var k :| 0 <= k < |ds| && ds[k] == Max(ds);
      assert ds[k] == Depth(values[k]);
    }
  }

  lemma DepthAtMostHeight(values: seq<Value>, k: nat)
    requires k < |values|
    ensures Depth(values[k]) <= Height(values)
  {
    var ds := seq(|values|, k requires 0 <= k < |values| => Depth(values[k]));
    assert ds[k] == Depth(values[k]);
  }

  /** The first index of a field named `key`. */
  function FieldIndex(fields: seq<Field>, key: string): (r: Option<nat>)
    ensures r.Some? ==> r.value < |fields| && fields[r.value].key == key
                        && forall k :: 0 <= k < r.value ==> fields[k].key != key
    ensures r.None? ==> forall k :: 0 <= k < |fields| ==> fields[k].key != key
  {
    if fields == [] then None
    else if fields[0].key == key then Some(0)
    else
      match FieldIndex(fields[1..], key)
      case None => None
      case Some(k) => Some(k + 1)
  }

  /** The index `i < |items|` whose decimal text is `key`. */
  function ItemIndex(items: seq<Value>, key: string, i: nat): (r: Option<nat>)
    ensures r.Some? ==> i <= r.value < |items| && NatToString(r.value) == key
    ensures r.None? ==> forall k :: i <= k < |items| ==> NatToString(k) != key
    decreases |items| - i
  {
    if i >= |items| then None
    else if NatToString(i) == key then Some(i)
    else ItemIndex(items, key, i + 1)
  }

  /** `v?.[key]`: an own property of an object, an element of an array by its
      decimal index, and `undefined` otherwise. */
  function Get(v: Value, key: string): Value {
    match v
    case Obj(fields) =>
      (match FieldIndex(fields, key)
       case None => Undefined
       case Some(k) => fields[k].value)
    case Arr(items) =>
      (match ItemIndex(items, key, 0)
       case None => Undefined
       case Some(k) => items[k])
    case _ => Undefined
  }

  /** A property is nested less deeply than its holder. */
  lemma GetLower(v: Value, key: string)
    ensures Get(v, key) == Undefined || Depth(Get(v, key)) < Depth(v)
  {
    match v {
      case Obj(fields) =>
        match FieldIndex(fields, key) {
          case None =>
          case Some(k) =>
            assert seq(|fields|, k requires 0 <= k < |fields| => Depth(fields[k].value))[k] == Depth(fields[k].value);
        }
      case Arr(items) =>
        match ItemIndex(items, key, 0) {
          case None =>
          case Some(k) =>
            assert seq(|items|, k requires 0 <= k < |items| => Depth(items[k]))[k] == Depth(items[k]);
        }
      case _ =>
    }
  }

  /** `Object.keys(v)`: an object's keys in order, an array's indices. */
  function Keys(v: Value): (r: seq<string>)
    ensures v.Obj? ==> |r| == |v.fields| && forall k :: 0 <= k < |r| ==> r[k] == v.fields[k].key
    ensures v.Arr? ==> |r| == |v.items| && forall k :: 0 <= k < |r| ==> r[k] == NatToString(k)
    ensures !IsObject(v) ==> r == []
  {
    match v
    case Obj(fields) => seq(|fields|, k requires 0 <= k < |fields| => fields[k].key)
    case Arr(items) => seq(|items|, k requires 0 <= k < |items| => NatToString(k))
    case _ => []
  }

  /** The value of an object's own key `key`, if it has one. */
  function Lookup(fields: seq<Field>, key: string): Option<Value> {
    match FieldIndex(fields, key)
    case None => None
    case Some(i) => Some(fields[i].value)
  }

  /** `result[key] = value`: an existing key keeps its place and takes the new
      value, a new key goes last; every other key keeps its value. */
  function Put(fields: seq<Field>, key: string, value: Value): (r: seq<Field>)
    ensures Lookup(r, key) == Some(value)
    ensures forall k :: k != key ==> Lookup(r, k) == Lookup(fields, k)
    ensures |fields| <= |r| <= |fields| + 1
    ensures forall k :: 0 <= k < |fields| ==> r[k].key == fields[k].key
    ensures |r| == |fields| + 1 ==> r[|fields|].key == key
  {
    match FieldIndex(fields, key)
    case Some(i) =>
      var r := fields[i := Field(key, value)];
      PutSameIndex(fields, key, value, i);
      r
    case None =>
      var r := fields + [Field(key, value)];
      assert forall k :: 0 <= k < |fields| ==> r[k] == fields[k];
      PutNewIndex(fields, key, value);
      r
  }

  lemma PutSameIndex(fields: seq<Field>, key: string, value: Value, i: nat)
    requires FieldIndex(fields, key) == Some(i)
    ensures var r := fields[i := Field(key, value)];
      FieldIndex(r, key) == Some(i) && forall k :: k != key ==> FieldIndex(r, k) == FieldIndex(fields, k)
  {
    var r := fields[i := Field(key, value)];
    forall k | k != key
      ensures FieldIndex(r, k) == FieldIndex(fields, k)
    {
      FieldIndexSameKeys(fields, r, k);
    }
    FieldIndexSameKeys(fields, r, key);
  }

  lemma PutNewIndex(fields: seq<Field>, key: string, value: Value)
    requires FieldIndex(fields, key).None?
    ensures var r := fields + [Field(key, value)];
      FieldIndex(r, key) == Some(|fields|) && forall k :: k != key ==> FieldIndex(r, k) == FieldIndex(fields, k)
  {
    var r := fields + [Field(key, value)];
    forall k | k != key
      ensures FieldIndex(r, k) == FieldIndex(fields, k)
    {
      match FieldIndex(fields, k)
      case Some(j) =>
        FieldIndexAt(r, k, j);
      case None =>
        FieldIndexNone(r, k);
    }
    FieldIndexAt(r, key, |fields|);
  }

  lemma FieldIndexSameKeys(a: seq<Field>, b: seq<Field>, key: string)
    requires |a| == |b| && forall k :: 0 <= k < |a| ==> a[k].key == b[k].key
    ensures FieldIndex(a, key) == FieldIndex(b, key)
  {
    match FieldIndex(a, key)
    case Some(j) => FieldIndexAt(b, key, j);
    case None => FieldIndexNone(b, key);
  }

  lemma {:induction false} FieldIndexAt(fields: seq<Field>, key: string, j: nat)
    requires j < |fields| && fields[j].key == key && forall k :: 0 <= k < j ==> fields[k].key != key
    ensures FieldIndex(fields, key) == Some(j)
  {
    if j > 0 {
      FieldIndexAt(fields[1..], key, j - 1);
    }
  }

  lemma {:induction false} FieldIndexNone(fields: seq<Field>, key: string)
    requires forall k :: 0 <= k < |fields| ==> fields[k].key != key
    ensures FieldIndex(fields, key) == None
  {
    if fields != [] {
      FieldIndexNone(fields[1..], key);
    }
  }

  // ---------------------------------------------------------------------------
  // Keys of several values

  predicate Distinct(ks: seq<string>) {
    forall i, j :: 0 <= i < j < |ks| ==> ks[i] != ks[j]
  }

  /** Adds the keys of `ks` not yet in `acc`, in order. */
  function AddKeys(acc: seq<string>, ks: seq<string>): (r: seq<string>)
    requires Distinct(acc)
    ensures Distinct(r) && |acc| <= |r| && r[..|acc|] == acc
    ensures forall k :: k in r <==> k in acc || k in ks
    decreases ks
  {
    if ks == [] then acc
    else
      var next := if ks[0] in acc then acc else acc + [ks[0]];
      var r := AddKeys(next, ks[1..]);
      assert r[..|acc|] == r[..|next|][..|acc|];
      assert forall k :: k in ks <==> k == ks[0] || k in ks[1..];
      r
  }

  /** `new Set(values.flatMap((v) => Object.keys(v || {})))` over the first
      `n` values: each key once, in the order first met. */
  function UnionKeys(values: seq<Value>, n: nat): (r: seq<string>)
    requires n <= |values|
    ensures Distinct(r)
    ensures forall k :: k in r <==> exists j :: 0 <= j < n && k in Keys(values[j])
  {
    if n == 0 then []
    else
      AddKeys(UnionKeys(values, n - 1), Keys(values[n - 1]))
  }

  /** First-seen order: the keys of the first `n` values keep their places
      when more values are added, and new keys come after them. */
  lemma {:induction false} UnionKeysExtends(values: seq<Value>, m: nat, n: nat)
    requires m <= n <= |values|
    ensures |UnionKeys(values, m)| <= |UnionKeys(values, n)|
    ensures UnionKeys(values, n)[..|UnionKeys(values, m)|] == UnionKeys(values, m)
    decreases n - m
  {
    if m < n {
      UnionKeysExtends(values, m, n - 1);
      UnionKeysStep(values, n);
      PrefixOfPrefix(UnionKeys(values, m), UnionKeys(values, n - 1), UnionKeys(values, n));
    }
  }

  /** One more value only appends keys. */
  lemma UnionKeysStep(values: seq<Value>, n: nat)
    requires 0 < n <= |values|
    ensures |UnionKeys(values, n - 1)| <= |UnionKeys(values, n)|
    ensures UnionKeys(values, n)[..|UnionKeys(values, n - 1)|] == UnionKeys(values, n - 1)
  {
    var earlier := UnionKeys(values, n - 1);
    assert UnionKeys(values, n) == AddKeys(earlier, Keys(values[n - 1]));
  }

  lemma PrefixOfPrefix(a: seq<string>, b: seq<string>, c: seq<string>)
    requires |a| <= |b| <= |c| && b[..|a|] == a && c[..|b|] == b
    ensures c[..|a|] == a
  {
    assert c[..|a|] == c[..|b|][..|a|];
  }

  // ---------------------------------------------------------------------------
  // Columns

  /** `v?.[i] ?? {}` for an array `v`. */
  function ItemOrEmpty(v: Value, i: nat): Value
    requires v.Arr?
  {
    if i < |v.items| && !v.items[i].Undefined? && !v.items[i].Null? then v.items[i] else Obj([])
  }

  /** `values.map((v) => v?.[i] ?? {})`. */
  function Column(values: seq<Value>, i: nat): (r: seq<Value>)
    requires forall j :: 0 <= j < |values| ==> values[j].Arr?
    ensures |r| == |values|
  {
    seq(|values|, j requires 0 <= j < |values| => ItemOrEmpty(values[j], i))
  }

  /** `values.map((v) => v?.[key])`. */
  function KeyColumn(values: seq<Value>, key: string): (r: seq<Value>)
    ensures |r| == |values| && forall j :: 0 <= j < |values| ==> r[j] == Get(values[j], key)
  {
    seq(|values|, j requires 0 <= j < |values| => Get(values[j], key))
  }

  lemma ColumnLower(values: seq<Value>, i: nat)
    requires values != [] && forall j :: 0 <= j < |values| ==> values[j].Arr?
    requires i < |values[0].items|
    ensures Height(Column(values, i)) < Height(values)
  {
    var items := values[0].items;
    assert seq(|items|, k requires 0 <= k < |items| => Depth(items[k]))[0] == Depth(items[0]);
    DepthAtMostHeight(values, 0);
    var column := Column(values, i);
    forall j | 0 <= j < |column|
      ensures Depth(column[j]) < Height(values)
    {
      DepthAtMostHeight(values, j);
      var v := values[j];
      if i < |v.items| {
        assert seq(|v.items|, k requires 0 <= k < |v.items| => Depth(v.items[k]))[i] == Depth(v.items[i]);
      }
    }
    HeightBelow(column, Height(values));
  }

  lemma KeyedDepth(v: Value, key: string)
    requires key in Keys(v)
    ensures Depth(v) >= 2
  {
    if v.Obj? {
      assert seq(|v.fields|, k requires 0 <= k < |v.fields| => Depth(v.fields[k].value))[0] == Depth(v.fields[0].value);
    } else {
      assert seq(|v.items|, k requires 0 <= k < |v.items| => Depth(v.items[k]))[0] == Depth(v.items[0]);
    }
  }

  lemma KeyColumnLower(values: seq<Value>, key: string)
    requires key in UnionKeys(values, |values|)
    ensures Height(KeyColumn(values, key)) < Height(values)
  {
    var j :| 0 <= j < |values| && key in Keys(values[j]);
    KeyedDepth(values[j], key);
    DepthAtMostHeight(values, j);
    var h := Height(values);
    var column := KeyColumn(values, key);
    forall i | 0 <= i < |column|
      ensures Depth(column[i]) < h
    {
      DepthAtMostHeight(values, i);
      GetLower(values[i], key);
    }
    HeightBelow(column, h);
  }

  // ---------------------------------------------------------------------------
  // Assignments

  /** The object that a run of `result[key] = value` assignments leaves,
      starting from `fields`. */
  function ApplyWrites(fields: seq<Field>, writes: seq<Field>): seq<Field>
    decreases |writes|
  {
    if writes == [] then fields
    else
      var last := writes[|writes| - 1];
      Put(ApplyWrites(fields, writes[..|writes| - 1]), last.key, last.value)
  }

  /** The value last assigned to `key`. */
  function LastWrite(writes: seq<Field>, key: string): (r: Option<Value>)
    ensures r.None? <==> forall j :: 0 <= j < |writes| ==> writes[j].key != key
    decreases |writes|
  {
    if writes == [] then None
    else if writes[|writes| - 1].key == key then Some(writes[|writes| - 1].value)
    else
      var r := LastWrite(writes[..|writes| - 1], key);
      assert forall j :: 0 <= j < |writes| - 1 ==> writes[..|writes| - 1][j] == writes[j];
      r
  }

  /** A key holds the value last assigned to it, or its value before. */
  lemma {:induction false} ApplyWritesLookup(fields: seq<Field>, writes: seq<Field>, key: string)
    ensures Lookup(ApplyWrites(fields, writes), key) ==
      if LastWrite(writes, key).Some? then LastWrite(writes, key) else Lookup(fields, key)
    decreases |writes|
  {
    if writes != [] {
      ApplyWritesLookup(fields, writes[..|writes| - 1], key);
    }
  }

  lemma {:induction false} ApplyWritesAppend(fields: seq<Field>, a: seq<Field>, b: seq<Field>)
    ensures ApplyWrites(fields, a + b) == ApplyWrites(ApplyWrites(fields, a), b)
    decreases |b|
  {
    if b == [] {
      assert a + b == a;
    } else {
      assert (a + b)[..|a + b| - 1] == a + b[..|b| - 1];
      ApplyWritesAppend(fields, a, b[..|b| - 1]);
    }
  }

  /** The writes of several passes, one after the other. */
  function Flatten(passes: seq<seq<Field>>): seq<Field>
    decreases |passes|
  {
    if passes == [] then [] else Flatten(passes[..|passes| - 1]) + passes[|passes| - 1]
  }

  lemma FlattenSnoc(passes: seq<seq<Field>>, n: nat)
    requires n < |passes|
    ensures Flatten(passes[..n + 1]) == Flatten(passes[..n]) + passes[n]
  {
    assert passes[..n + 1][..n] == passes[..n];
  }

  lemma FlattenAll(passes: seq<seq<Field>>)
    ensures Flatten(passes[..|passes|]) == Flatten(passes)
  {
    assert passes[..|passes|] == passes;
  }

  lemma LastWriteAppend(a: seq<Field>, b: seq<Field>, key: string)
    ensures LastWrite(a + b, key) == if LastWrite(b, key).Some? then LastWrite(b, key) else LastWrite(a, key)
    decreases |b|
  {
    if b != [] {
      assert (a + b)[..|a + b| - 1] == a + b[..|b| - 1];
      LastWriteAppend(a, b[..|b| - 1], key);
    } else {
      assert a + b == a;
    }
  }

  /** When only the `i`-th pass assigns `key`, its value is the one it holds;
      when no pass does, nothing is assigned to `key`. */
  lemma {:induction false} FlattenLastWrite(passes: seq<seq<Field>>, key: string, i: nat)
    requires forall j :: 0 <= j < |passes| && j != i ==> LastWrite(passes[j], key).None?
    ensures LastWrite(Flatten(passes), key) == if i < |passes| then LastWrite(passes[i], key) else None
    decreases |passes|
  {
    if passes != [] {
      var n := |passes| - 1;
      FlattenLastWrite(passes[..n], key, i);
      LastWriteAppend(Flatten(passes[..n]), passes[n], key);
    }
  }

  // ---------------------------------------------------------------------------
  // The merge

  /** The first index of `locale` (`locales.indexOf(locale)`, -1 being `None`). */
  function LocaleIndex(locales: seq<string>, locale: string): (r: Option<nat>)
    ensures r.Some? ==> r.value < |locales| && locales[r.value] == locale
                        && forall k :: 0 <= k < r.value ==> locales[k] != locale
    ensures r.None? <==> locale !in locales
  {
    if locales == [] then None
    else if locales[0] == locale then Some(0)
    else
      match LocaleIndex(locales[1..], locale)
      case None => None
      case Some(k) => Some(k + 1)
  }

  /** `values[locales.indexOf(defaultLocale)]`: `undefined` at index -1. */
  function DefaultOf(locales: seq<string>, defaultLocale: string, values: seq<Value>): Value
    requires |values| == |locales|
  {
    match LocaleIndex(locales, defaultLocale)
    case None => Undefined
    case Some(i) => values[i]
  }

  /** The assignments `localisationMap[locales[i]] = current[key]` of the
      first `n` passes: every locale other than the default whose value has
      `key` defined. */
  function LocaleWrites(locales: seq<string>, defaultLocale: string, values: seq<Value>, key: string, n: nat): seq<Field>
    requires |values| == |locales| && n <= |values|
  {
    if n == 0 then []
    else
      var current := Get(values[n - 1], key);
      LocaleWrites(locales, defaultLocale, values, key, n - 1)
        + if current != Undefined && locales[n - 1] != defaultLocale then [Field(locales[n - 1], current)] else []
  }

  /** The `<key>Localizations` object. */
  function Localisations(locales: seq<string>, defaultLocale: string, values: seq<Value>, key: string): seq<Field>
    requires |values| == |locales|
  {
    ApplyWrites([], LocaleWrites(locales, defaultLocale, values, key, |values|))
  }

  /** `recurse(values)`, `locales` being the selected locales: arrays merge
      into an array as long as the first, arrays and objects that are not all
      arrays into an object, and anything else into one of the values or
      `undefined`. */
  function Merge(locales: seq<string>, defaultLocale: string, values: seq<Value>): (r: Value)
    requires |values| == |locales| > 0
    ensures (forall j :: 0 <= j < |values| ==> values[j].Arr?) ==> r.Arr? && |r.items| == |values[0].items|
    ensures (forall j :: 0 <= j < |values| ==> IsObject(values[j])) && (exists j :: 0 <= j < |values| && values[j].Obj?) ==> r.Obj?
    ensures (exists j :: 0 <= j < |values| && !IsObject(values[j])) ==> r == Undefined || r in values
    decreases Height(values), 1
  {
    if forall j :: 0 <= j < |values| ==> values[j].Arr? then
      var n := |values[0].items|;
      Arr(seq(n, i requires 0 <= i < n => MergeColumn(locales, defaultLocale, values, i)))
    else if forall j :: 0 <= j < |values| ==> IsObject(values[j]) then
      var keys := UnionKeys(values, |values|);
      Obj(ApplyWrites([], Flatten(seq(|keys|, i requires 0 <= i < |keys| => KeyWrites(locales, defaultLocale, values, keys[i])))))
    else
      DefaultOf(locales, defaultLocale, values)
  }

  /** `recurse(values.map((v) => v?.[i] ?? {}))`. */
  function MergeColumn(locales: seq<string>, defaultLocale: string, values: seq<Value>, i: nat): Value
    requires |values| == |locales| > 0 && forall j :: 0 <= j < |values| ==> values[j].Arr?
    requires i < |values[0].items|
    decreases Height(values), 0
  {
    ColumnLower(values, i);
    Merge(locales, defaultLocale, Column(values, i))
  }

  predicate IsLocalised(key: string) {
    key == "name" || key == "description"
  }

  /** The assignments to `result` of one pass of `for (const key of keys)`. */
  function KeyWrites(locales: seq<string>, defaultLocale: string, values: seq<Value>, key: string): seq<Field>
    requires |values| == |locales| > 0 && forall j :: 0 <= j < |values| ==> IsObject(values[j])
    requires key in UnionKeys(values, |values|)
    decreases Height(values), 0
  {
    if IsLocalised(key) then
      var defaultValue := Get(DefaultOf(locales, defaultLocale, values), key);
      (if defaultValue != Undefined then [Field(key, defaultValue)] else [])
        + [Field(key + "Localizations", Obj(Localisations(locales, defaultLocale, values, key)))]
    else
      KeyColumnLower(values, key);
      [Field(key, Merge(locales, defaultLocale, KeyColumn(values, key)))]
  }

  /** The records of the Carbon locales and of the default locale, in order. */
  function Selected(records: seq<Field>, defaultLocale: string, allowed: set<string>): seq<Field>
  {
    if records == [] then []
    else
      var rest := Selected(records[1..], defaultLocale, allowed);
      if records[0].key in allowed || records[0].key == defaultLocale then [records[0]] + rest else rest
  }

  /** A record is selected exactly when it is one of the records and its
      locale is allowed or is the default one. */
  lemma {:induction false} SelectedExactly(records: seq<Field>, defaultLocale: string, allowed: set<string>, f: Field)
    ensures f in Selected(records, defaultLocale, allowed) <==> f in records && (f.key in allowed || f.key == defaultLocale)
    decreases |records|
  {
    if records != [] {
      SelectedExactly(records[1..], defaultLocale, allowed, f);
      assert f in records <==> f == records[0] || f in records[1..] by { SplitFirst(records, []); }
    }
  }

  /** Filtering keeps the order: the records selected from `a + b` are those
      selected from `a`, followed by those selected from `b`. */
  lemma {:induction false} SelectedAppend(a: seq<Field>, b: seq<Field>, defaultLocale: string, allowed: set<string>)
    ensures Selected(a + b, defaultLocale, allowed) == Selected(a, defaultLocale, allowed) + Selected(b, defaultLocale, allowed)
    decreases |a|
  {
    if a != [] {
      var f := a[0];
      var h: seq<Field> := if f.key in allowed || f.key == defaultLocale then [f] else [];
      assert a + b == [f] + (a[1..] + b) by { SplitFirst(a, b); }
      assert a == [f] + a[1..] by { SplitFirst(a, []); }
      SelectedCons(f, a[1..] + b, defaultLocale, allowed);
      SelectedCons(f, a[1..], defaultLocale, allowed);
      SelectedAppend(a[1..], b, defaultLocale, allowed);
      Regroup(Selected(a + b, defaultLocale, allowed), Selected(a, defaultLocale, allowed), h,
        Selected(a[1..], defaultLocale, allowed), Selected(b, defaultLocale, allowed));
    } else {
      assert a + b == b;
    }
  }

  lemma SplitFirst(a: seq<Field>, b: seq<Field>)
    requires a != []
    ensures a + b == [a[0]] + (a[1..] + b)
  {
  }

  lemma Regroup(x: seq<Field>, y: seq<Field>, h: seq<Field>, sa: seq<Field>, sb: seq<Field>)
    requires x == h + (sa + sb) && y == h + sa
    ensures x == y + sb
  {
  }

  /** The first record is kept or dropped, and the rest is filtered alone. */
  lemma SelectedCons(f: Field, rest: seq<Field>, defaultLocale: string, allowed: set<string>)
    ensures Selected([f] + rest, defaultLocale, allowed)
      == (if f.key in allowed || f.key == defaultLocale then [f] else []) + Selected(rest, defaultLocale, allowed)
  {
    assert ([f] + rest)[0] == f;
    assert ([f] + rest)[1..] == rest;
  }


  /** One record is kept exactly when its locale is allowed or the default. */
  lemma SelectedOne(f: Field, defaultLocale: string, allowed: set<string>)
    ensures Selected([f], defaultLocale, allowed) == if f.key in allowed || f.key == defaultLocale then [f] else []
  {
    assert [f][1..] == [];
  }

  /** `combineCommandOptions`: with no locale selected, `values[0].map`
      throws on `undefined`. */
  function Combined(records: seq<Field>, defaultLocale: string, allowed: set<string>): (r: Result<Value, string>)
    ensures r.Err? <==> forall f :: f in records ==> f.key !in allowed && f.key != defaultLocale
  {
    var selected := Selected(records, defaultLocale, allowed);
    assert selected == [] <==> forall f :: f in records ==> f.key !in allowed && f.key != defaultLocale by {
      if selected != [] {
        SelectedExactly(records, defaultLocale, allowed, selected[0]);
      } else {
        forall f | f in records
          ensures f.key !in allowed && f.key != defaultLocale
        {
          SelectedExactly(records, defaultLocale, allowed, f);
        }
      }
    }
    if selected == [] then Err("TypeError")
    else
      Ok(Merge(seq(|selected|, k requires 0 <= k < |selected| => selected[k].key), defaultLocale,
               seq(|selected|, k requires 0 <= k < |selected| => selected[k].value)))
  }

  /** `recurse`. */
  method Recurse(locales: seq<string>, defaultLocale: string, values: seq<Value>) returns (r: Value)
    requires |values| == |locales| > 0
    ensures r == Merge(locales, defaultLocale, values)
    decreases Height(values), 2
  {
    if forall j :: 0 <= j < |values| ==> values[j].Arr? {
      var items := RecurseItems(locales, defaultLocale, values);
      return Arr(items);
    }
    if forall j :: 0 <= j < |values| ==> IsObject(values[j]) {
      var fields := RecurseFields(locales, defaultLocale, values);
      return Obj(fields);
    }
    return DefaultOf(locales, defaultLocale, values);
  }

  /** `values[0].map((_, i) => recurse(values.map((v) => v?.[i] ?? {})))`. */
  method RecurseItems(locales: seq<string>, defaultLocale: string, values: seq<Value>) returns (items: seq<Value>)
    requires |values| == |locales| > 0 && forall j :: 0 <= j < |values| ==> values[j].Arr?
    ensures |items| == |values[0].items|
    ensures forall k :: 0 <= k < |items| ==> items[k] == MergeColumn(locales, defaultLocale, values, k)
    decreases Height(values), 1
  {
    items := [];
    var i := 0;
    while i < |values[0].items|
      invariant i <= |values[0].items| && |items| == i
      invariant forall k :: 0 <= k < i ==> items[k] == MergeColumn(locales, defaultLocale, values, k)
    {
      ColumnLower(values, i);
      var item := Recurse(locales, defaultLocale, Column(values, i));
      items := items + [item];
      i := i + 1;
    }
  }

  /** The `for (const key of keys)` loop filling `result`. */
  method RecurseFields(locales: seq<string>, defaultLocale: string, values: seq<Value>) returns (result: seq<Field>)
    requires |values| == |locales| > 0 && forall j :: 0 <= j < |values| ==> IsObject(values[j])
    ensures var keys := UnionKeys(values, |values|);
      result == ApplyWrites([], Flatten(seq(|keys|, i requires 0 <= i < |keys| => KeyWrites(locales, defaultLocale, values, keys[i]))))
    decreases Height(values), 1
  {
    var keys := UnionKeys(values, |values|);
    ghost var passes := seq(|keys|, i requires 0 <= i < |keys| => KeyWrites(locales, defaultLocale, values, keys[i]));
    result := [];
    for n := 0 to |keys|
      invariant result == ApplyWrites([], Flatten(passes[..n]))
    {
      var key := keys[n];
      ghost var before := result;
      if IsLocalised(key) {
        var defaultValue := Get(DefaultOf(locales, defaultLocale, values), key);
        if defaultValue != Undefined {
          result := Put(result, key, defaultValue);
        }
        var localisationMap := LocalisationMap(locales, defaultLocale, values, key);
        result := Put(result, key + "Localizations", Obj(localisationMap));
        LocalisedPassApplied(locales, defaultLocale, values, before, key, result);
      } else {
        KeyColumnLower(values, key);
        var merged := Recurse(locales, defaultLocale, KeyColumn(values, key));
        result := Put(result, key, merged);
        PlainPassApplied(locales, defaultLocale, values, before, key, result);
      }
      FlattenSnoc(passes, n);
      ApplyWritesAppend([], Flatten(passes[..n]), passes[n]);
    }
    FlattenAll(passes);
  }

  /** The inner `for` loop filling `localisationMap`. */
  method LocalisationMap(locales: seq<string>, defaultLocale: string, values: seq<Value>, key: string) returns (localisationMap: seq<Field>)
    requires |values| == |locales|
    ensures localisationMap == Localisations(locales, defaultLocale, values, key)
  {
    localisationMap := [];
    for i := 0 to |values|
      invariant localisationMap == ApplyWrites([], LocaleWrites(locales, defaultLocale, values, key, i))
    {
      var current := Get(values[i], key);
      LocaleWritesStep(locales, defaultLocale, values, key, i);
      if current != Undefined && locales[i] != defaultLocale {
        localisationMap := Put(localisationMap, locales[i], current);
      }
    }
  }

  /** One pass of the inner loop: the locale's value is assigned when it is
      defined and the locale is not the default. */
  lemma LocaleWritesStep(locales: seq<string>, defaultLocale: string, values: seq<Value>, key: string, i: nat)
    requires |values| == |locales| && i < |values|
    ensures var before := ApplyWrites([], LocaleWrites(locales, defaultLocale, values, key, i));
      var current := Get(values[i], key);
      ApplyWrites([], LocaleWrites(locales, defaultLocale, values, key, i + 1))
        == if current != Undefined && locales[i] != defaultLocale then Put(before, locales[i], current) else before
  {
    var writes := LocaleWrites(locales, defaultLocale, values, key, i);
    var current := Get(values[i], key);
    if current != Undefined && locales[i] != defaultLocale {
      assert LocaleWrites(locales, defaultLocale, values, key, i + 1) == writes + [Field(locales[i], current)];
      assert (writes + [Field(locales[i], current)])[..|writes|] == writes;
    } else {
      assert LocaleWrites(locales, defaultLocale, values, key, i + 1) == writes + [];
      assert writes + [] == writes;
    }
  }

  lemma ApplyOne(fields: seq<Field>, w: Field)
    ensures ApplyWrites(fields, [w]) == Put(fields, w.key, w.value)
  {
    assert [w][..0] == [];
  }

  lemma ApplyTwo(fields: seq<Field>, w: Field, w': Field)
    ensures ApplyWrites(fields, [w, w']) == Put(Put(fields, w.key, w.value), w'.key, w'.value)
  {
    assert [w, w'][..1] == [w];
    ApplyOne(fields, w);
  }

  /** The body of a `name` or `description` pass performs the assignments of
      `KeyWrites`. */
  lemma LocalisedPassApplied(locales: seq<string>, defaultLocale: string, values: seq<Value>, before: seq<Field>, key: string, after: seq<Field>)
    requires |values| == |locales| > 0 && forall j :: 0 <= j < |values| ==> IsObject(values[j])
    requires key in UnionKeys(values, |values|) && IsLocalised(key)
    requires
      var defaultValue := Get(DefaultOf(locales, defaultLocale, values), key);
      var withDefault := if defaultValue != Undefined then Put(before, key, defaultValue) else before;
      after == Put(withDefault, key + "Localizations", Obj(Localisations(locales, defaultLocale, values, key)))
    ensures after == ApplyWrites(before, KeyWrites(locales, defaultLocale, values, key))
  {
    ApplyLocalised(before, key, Get(DefaultOf(locales, defaultLocale, values), key),
                   Obj(Localisations(locales, defaultLocale, values, key)));
  }

  /** Writing the default value, when there is one, then the localisations. */
  lemma ApplyLocalised(before: seq<Field>, key: string, defaultValue: Value, localisations: Value)
    ensures ApplyWrites(before, (if defaultValue != Undefined then [Field(key, defaultValue)] else [])
                                + [Field(key + "Localizations", localisations)])
         == Put(if defaultValue != Undefined then Put(before, key, defaultValue) else before,
                key + "Localizations", localisations)
  {
    var last := Field(key + "Localizations", localisations);
    if defaultValue != Undefined {
      assert [Field(key, defaultValue)] + [last] == [Field(key, defaultValue), last];
      ApplyTwo(before, Field(key, defaultValue), last);
    } else {
      assert [] + [last] == [last];
      ApplyOne(before, last);
    }
  }

  /** The body of any other pass performs the assignment of `KeyWrites`. */
  lemma PlainPassApplied(locales: seq<string>, defaultLocale: string, values: seq<Value>, before: seq<Field>, key: string, after: seq<Field>)
    requires |values| == |locales| > 0 && forall j :: 0 <= j < |values| ==> IsObject(values[j])
    requires key in UnionKeys(values, |values|) && !IsLocalised(key)
    requires Height(KeyColumn(values, key)) < Height(values)
    requires after == Put(before, key, Merge(locales, defaultLocale, KeyColumn(values, key)))
    ensures after == ApplyWrites(before, KeyWrites(locales, defaultLocale, values, key))
  {
    ApplyOne(before, Field(key, Merge(locales, defaultLocale, KeyColumn(values, key))));
  }

  /** `combineCommandOptions`. */
  method CombineCommandOptions(records: seq<Field>, defaultLocale: string, allowed: set<string>) returns (r: Result<Value, string>)
    ensures r == Combined(records, defaultLocale, allowed)
  {
    var selected := Selected(records, defaultLocale, allowed);
    var locales := seq(|selected|, k requires 0 <= k < |selected| => selected[k].key);
    var sources := seq(|selected|, k requires 0 <= k < |selected| => selected[k].value);
    if selected == [] {
      return Err("TypeError");
    }
    var merged := Recurse(locales, defaultLocale, sources);
    return Ok(merged);
  }

  // ---------------------------------------------------------------------------
  // What the merge promises

  /** All arrays: the merged array is as long as the first locale's, and its
      `i`-th element merges the locales' `i`-th elements, `{}` standing in
      for a missing or nullish one. */
  lemma MergeArrays(locales: seq<string>, defaultLocale: string, values: seq<Value>)
    requires |values| == |locales| > 0 && forall j :: 0 <= j < |values| ==> values[j].Arr?
    ensures var r := Merge(locales, defaultLocale, values);
      && r.Arr? && |r.items| == |values[0].items|
      && forall i :: 0 <= i < |r.items| ==> r.items[i] == Merge(locales, defaultLocale, Column(values, i))
  {
  }

  /** Values that are neither all arrays nor all objects: the default
      locale's value (the first position of the default locale), `undefined`
      when the default locale was not selected. */
  lemma MergeLeaf(locales: seq<string>, defaultLocale: string, values: seq<Value>)
    requires |values| == |locales| > 0
    requires exists j :: 0 <= j < |values| && !IsObject(values[j])
    ensures var r := Merge(locales, defaultLocale, values);
      && (defaultLocale !in locales ==> r == Undefined)
      && (forall i :: (0 <= i < |locales| && locales[i] == defaultLocale
                       && forall k :: 0 <= k < i ==> locales[k] != defaultLocale) ==> r == values[i])
  {
  }

  /** The keys a pass for `key` assigns. */
  predicate Writes(key: string, k: string) {
    k == key || (IsLocalised(key) && k == key + "Localizations")
  }

  lemma KeyWritesOnly(locales: seq<string>, defaultLocale: string, values: seq<Value>, key: string, k: string)
    requires |values| == |locales| > 0 && forall j :: 0 <= j < |values| ==> IsObject(values[j])
    requires key in UnionKeys(values, |values|) && !Writes(key, k)
    ensures LastWrite(KeyWrites(locales, defaultLocale, values, key), k).None?
  {
    if IsLocalised(key) {
      LocalisedWritesKeys(locales, defaultLocale, values, key);
    } else {
      PlainWritesKeys(locales, defaultLocale, values, key);
    }
  }

  /** A `name` or `description` pass assigns only that key and its
      `Localizations` key. */
  lemma LocalisedWritesKeys(locales: seq<string>, defaultLocale: string, values: seq<Value>, key: string)
    requires |values| == |locales| > 0 && forall j :: 0 <= j < |values| ==> IsObject(values[j])
    requires key in UnionKeys(values, |values|) && IsLocalised(key)
    ensures var writes := KeyWrites(locales, defaultLocale, values, key);
      forall j :: 0 <= j < |writes| ==> Writes(key, writes[j].key)
  {
  }

  /** Any other pass assigns only its own key. */
  lemma PlainWritesKeys(locales: seq<string>, defaultLocale: string, values: seq<Value>, key: string)
    requires |values| == |locales| > 0 && forall j :: 0 <= j < |values| ==> IsObject(values[j])
    requires key in UnionKeys(values, |values|) && !IsLocalised(key)
    ensures var writes := KeyWrites(locales, defaultLocale, values, key);
      forall j :: 0 <= j < |writes| ==> writes[j].key == key
  {
  }

  /** The passes of the `for (const key of keys)` loop. */
  function Passes(locales: seq<string>, defaultLocale: string, values: seq<Value>): (r: seq<seq<Field>>)
    requires |values| == |locales| > 0 && forall j :: 0 <= j < |values| ==> IsObject(values[j])
    ensures var keys := UnionKeys(values, |values|);
      |r| == |keys| && forall i :: 0 <= i < |keys| ==> r[i] == KeyWrites(locales, defaultLocale, values, keys[i])
  {
    var keys := UnionKeys(values, |values|);
    seq(|keys|, i requires 0 <= i < |keys| => KeyWrites(locales, defaultLocale, values, keys[i]))
  }

  /** What the merged object holds for `k` when only the pass for `keys[i]`
      (or no pass, `i` past the end) assigns it. */
  lemma MergedObjectAt(locales: seq<string>, defaultLocale: string, values: seq<Value>, k: string, i: nat)
    requires |values| == |locales| > 0 && forall j :: 0 <= j < |values| ==> IsObject(values[j])
    requires exists j :: 0 <= j < |values| && values[j].Obj?
    requires var keys := UnionKeys(values, |values|);
      forall j :: 0 <= j < |keys| && j != i ==> !Writes(keys[j], k)
    ensures var r := Merge(locales, defaultLocale, values);
      var keys := UnionKeys(values, |values|);
      && r.Obj?
      && Lookup(r.fields, k) == if i < |keys| then LastWrite(KeyWrites(locales, defaultLocale, values, keys[i]), k) else None
  {
    var keys := UnionKeys(values, |values|);
    var passes := Passes(locales, defaultLocale, values);
    forall j | 0 <= j < |passes| && j != i
      ensures LastWrite(passes[j], k).None?
    {
      KeyWritesOnly(locales, defaultLocale, values, keys[j], k);
    }
    FlattenLastWrite(passes, k, i);
    ApplyWritesLookup([], Flatten(passes), k);
    assert Merge(locales, defaultLocale, values) == Obj(ApplyWrites([], Flatten(passes)));
  }

  /** All objects: every key met in some locale, other than `name`,
      `description` and their `Localizations` keys, holds the merge of the
      locales' values for it, and no other such key is present. */
  lemma MergeObjectKey(locales: seq<string>, defaultLocale: string, values: seq<Value>, k: string)
    requires |values| == |locales| > 0 && forall j :: 0 <= j < |values| ==> IsObject(values[j])
    requires exists j :: 0 <= j < |values| && values[j].Obj?
    requires !IsLocalised(k) && k != "nameLocalizations" && k != "descriptionLocalizations"
    ensures var r := Merge(locales, defaultLocale, values);
      && r.Obj?
      && Lookup(r.fields, k) ==
           if exists j :: 0 <= j < |values| && k in Keys(values[j])
           then Some(Merge(locales, defaultLocale, KeyColumn(values, k))) else None
  {
    var keys := UnionKeys(values, |values|);
    var i := if k in keys then IndexIn(keys, k) else |keys|;
    forall j | 0 <= j < |keys| && j != i
      ensures !Writes(keys[j], k)
    {
      NotLocalisationKey(keys[j], k);
    }
    MergedObjectAt(locales, defaultLocale, values, k, i);
    if i < |keys| {
      KeyWritesPlain(locales, defaultLocale, values, k);
    }
  }

  function IndexIn(ks: seq<string>, k: string): (i: nat)
    requires k in ks
    ensures i < |ks| && ks[i] == k
  {
    if ks[0] == k then 0 else 1 + IndexIn(ks[1..], k)
  }

  lemma NotLocalisationKey(key: string, k: string)
    requires k != "nameLocalizations" && k != "descriptionLocalizations"
    ensures IsLocalised(key) ==> k != key + "Localizations"
  {
    assert "name" + "Localizations" == "nameLocalizations";
    assert "description" + "Localizations" == "descriptionLocalizations";
  }

  /** All objects: `name` and `description` take the default locale's value
      when it is defined, and `<key>Localizations` is the object of the other
      locales' values (when no locale has that key itself, which the loop
      could then overwrite). */
  lemma MergeLocalisedKey(locales: seq<string>, defaultLocale: string, values: seq<Value>, key: string)
    requires |values| == |locales| > 0 && forall j :: 0 <= j < |values| ==> IsObject(values[j])
    requires exists j :: 0 <= j < |values| && values[j].Obj?
    requires IsLocalised(key) && exists j :: 0 <= j < |values| && key in Keys(values[j])
    requires forall j :: 0 <= j < |values| ==> key + "Localizations" !in Keys(values[j])
    ensures var r := Merge(locales, defaultLocale, values);
      var defaultValue := Get(DefaultOf(locales, defaultLocale, values), key);
      && r.Obj?
      && Lookup(r.fields, key + "Localizations") == Some(Obj(Localisations(locales, defaultLocale, values, key)))
      && Lookup(r.fields, key) == if defaultValue != Undefined then Some(defaultValue) else None
  {
    var keys := UnionKeys(values, |values|);
    var owner :| 0 <= owner < |values| && key in Keys(values[owner]);
    assert key in keys;
    var i :| 0 <= i < |keys| && keys[i] == key;
    var target := key + "Localizations";
    AbsentFromUnion(values, target);
    assert Distinct(keys);
    forall j | 0 <= j < |keys| && j != i
      ensures !Writes(keys[j], target) && !Writes(keys[j], key)
    {
      assert keys[j] != key && keys[j] != target;
      if IsLocalised(keys[j]) {
        LocalisedSuffixes(keys[j], key);
      }
    }
    MergedObjectAt(locales, defaultLocale, values, target, i);
    MergedObjectAt(locales, defaultLocale, values, key, i);
    KeyWritesLocalised(locales, defaultLocale, values, key);
  }

  /** A key no value has is not among the keys of all values. */
  lemma AbsentFromUnion(values: seq<Value>, k: string)
    requires forall j :: 0 <= j < |values| ==> k !in Keys(values[j])
    ensures k !in UnionKeys(values, |values|)
  {
  }

  /** `nameLocalizations` and `descriptionLocalizations` differ from each
      other and from `name` and `description`. */
  lemma LocalisedSuffixes(a: string, b: string)
    requires IsLocalised(a) && IsLocalised(b) && a != b
    ensures a + "Localizations" != b + "Localizations" && a + "Localizations" != b
  {
    assert (a + "Localizations")[0] == a[0] && (b + "Localizations")[0] == b[0];
    assert |a + "Localizations"| != |b|;
  }

  lemma KeyWritesLocalised(locales: seq<string>, defaultLocale: string, values: seq<Value>, key: string)
    requires |values| == |locales| > 0 && forall j :: 0 <= j < |values| ==> IsObject(values[j])
    requires key in UnionKeys(values, |values|) && IsLocalised(key)
    ensures var writes := KeyWrites(locales, defaultLocale, values, key);
      var defaultValue := Get(DefaultOf(locales, defaultLocale, values), key);
      && LastWrite(writes, key + "Localizations") == Some(Obj(Localisations(locales, defaultLocale, values, key)))
      && LastWrite(writes, key) == if defaultValue != Undefined then Some(defaultValue) else None
  {
    var defaultValue := Get(DefaultOf(locales, defaultLocale, values), key);
    var last := Field(key + "Localizations", Obj(Localisations(locales, defaultLocale, values, key)));
    assert |key + "Localizations"| != |key|;
    if defaultValue != Undefined {
      assert KeyWrites(locales, defaultLocale, values, key) == [Field(key, defaultValue), last];
      assert [Field(key, defaultValue), last][..1] == [Field(key, defaultValue)];
    } else {
      assert KeyWrites(locales, defaultLocale, values, key) == [last];
      assert [last][..0] == [];
    }
  }

  lemma KeyWritesPlain(locales: seq<string>, defaultLocale: string, values: seq<Value>, key: string)
    requires |values| == |locales| > 0 && forall j :: 0 <= j < |values| ==> IsObject(values[j])
    requires key in UnionKeys(values, |values|) && !IsLocalised(key)
    ensures LastWrite(KeyWrites(locales, defaultLocale, values, key), key) == Some(Merge(locales, defaultLocale, KeyColumn(values, key)))
  {
  }

  /** The `Localizations` object: with distinct locales (the keys of one
      object), each locale other than the default maps to its value for
      `key` when that is defined, and nothing else is in it. */
  lemma LocalisationsHold(locales: seq<string>, defaultLocale: string, values: seq<Value>, key: string)
    requires |values| == |locales| && Distinct(locales)
    ensures var m := Localisations(locales, defaultLocale, values, key);
      && (forall i :: 0 <= i < |locales| ==>
            Lookup(m, locales[i]) ==
              if locales[i] != defaultLocale && Get(values[i], key) != Undefined then Some(Get(values[i], key)) else None)
      && (forall l :: l !in locales ==> Lookup(m, l) == None)
  {
    var writes := LocaleWrites(locales, defaultLocale, values, key, |values|);
    forall l
      ensures Lookup(ApplyWrites([], writes), l) == LastWrite(writes, l)
    {
      ApplyWritesLookup([], writes, l);
    }
    LocaleWritesHold(locales, defaultLocale, values, key, |values|);
    assert locales[..|values|] == locales;
  }

  lemma LocaleWritesHold(locales: seq<string>, defaultLocale: string, values: seq<Value>, key: string, n: nat)
    requires |values| == |locales| && n <= |values| && Distinct(locales)
    ensures var writes := LocaleWrites(locales, defaultLocale, values, key, n);
      && (forall i :: 0 <= i < n ==>
            LastWrite(writes, locales[i]) ==
              if locales[i] != defaultLocale && Get(values[i], key) != Undefined then Some(Get(values[i], key)) else None)
      && (forall l :: l !in locales[..n] ==> LastWrite(writes, l) == None)
  {
    forall i | 0 <= i < n
      ensures LastWrite(LocaleWrites(locales, defaultLocale, values, key, n), locales[i]) ==
        if locales[i] != defaultLocale && Get(values[i], key) != Undefined then Some(Get(values[i], key)) else None
    {
      LocaleWriteAt(locales, defaultLocale, values, key, n, i);
    }
    forall l | l !in locales[..n]
      ensures LastWrite(LocaleWrites(locales, defaultLocale, values, key, n), l) == None
    {
      LocaleWriteAbsent(locales, defaultLocale, values, key, n, l);
    }
  }

  /** The `i`-th locale is assigned by its own pass only. */
  lemma {:induction false} LocaleWriteAt(locales: seq<string>, defaultLocale: string, values: seq<Value>, key: string, n: nat, i: nat)
    requires |values| == |locales| && i < n <= |values| && Distinct(locales)
    ensures LastWrite(LocaleWrites(locales, defaultLocale, values, key, n), locales[i]) ==
      if locales[i] != defaultLocale && Get(values[i], key) != Undefined then Some(Get(values[i], key)) else None
  {
    if i == n - 1 {
      LocaleWriteOwn(locales, defaultLocale, values, key, i);
    } else {
      LocaleWriteAt(locales, defaultLocale, values, key, n - 1, i);
      assert locales[i] != locales[n - 1];
      LocaleWritesLast(locales, defaultLocale, values, key, n, locales[i]);
    }
  }

  lemma LocaleWriteOwn(locales: seq<string>, defaultLocale: string, values: seq<Value>, key: string, i: nat)
    requires |values| == |locales| && i < |values| && Distinct(locales)
    ensures LastWrite(LocaleWrites(locales, defaultLocale, values, key, i + 1), locales[i]) ==
      if locales[i] != defaultLocale && Get(values[i], key) != Undefined then Some(Get(values[i], key)) else None
  {
    assert locales[i] !in locales[..i];
    LocaleWriteAbsent(locales, defaultLocale, values, key, i, locales[i]);
    LocaleWritesLast(locales, defaultLocale, values, key, i + 1, locales[i]);
  }

  /** A key that is none of the first `n` locales is never assigned. */
  lemma {:induction false} LocaleWriteAbsent(locales: seq<string>, defaultLocale: string, values: seq<Value>, key: string, n: nat, l: string)
    requires |values| == |locales| && n <= |values| && l !in locales[..n]
    ensures LastWrite(LocaleWrites(locales, defaultLocale, values, key, n), l) == None
  {
    if n > 0 {
      assert l != locales[..n][n - 1];
      assert locales[..n - 1] == locales[..n][..n - 1];
      LocaleWriteAbsent(locales, defaultLocale, values, key, n - 1, l);
      LocaleWritesLast(locales, defaultLocale, values, key, n, l);
    }
  }

  /** The `n`-th pass assigns `l` when `l` is its locale and the value is
      defined; otherwise `l` keeps its last assignment. */
  lemma LocaleWritesLast(locales: seq<string>, defaultLocale: string, values: seq<Value>, key: string, n: nat, l: string)
    requires |values| == |locales| && 0 < n <= |values|
    ensures var current := Get(values[n - 1], key);
      LastWrite(LocaleWrites(locales, defaultLocale, values, key, n), l) ==
        if current != Undefined && locales[n - 1] != defaultLocale && locales[n - 1] == l then Some(current)
        else LastWrite(LocaleWrites(locales, defaultLocale, values, key, n - 1), l)
  {
    var before := LocaleWrites(locales, defaultLocale, values, key, n - 1);
    var current := Get(values[n - 1], key);
    if current != Undefined && locales[n - 1] != defaultLocale {
      var w := before + [Field(locales[n - 1], current)];
      assert LocaleWrites(locales, defaultLocale, values, key, n) == w;
      assert w[..|w| - 1] == before;
    } else {
      assert LocaleWrites(locales, defaultLocale, values, key, n) == before + [];
      assert before + [] == before;
    }
  }
}
