/** Decoding of JSX-safe property names (packages/integration-react/src/types.ts).
    JSX attribute names cannot be numbers, so the code generator writes a
    numeric binding `12` as `_12`; the `<Say>` component maps every key of the
    form `_<digits>` back before it looks the bindings up.

    A JS object is modelled by its entries in enumeration order, with
    distinct keys; the result object is a map, in which a later write to the
    same key replaces an earlier one. */
module JsxSafeKeys {
  import opened Text

  /** The keys `^_\d+$` accepts. */
  predicate IsUnderscoreDigits(key: string) {
    |key| >= 2 && key[0] == '_' && AllDigits(key[1..])
  }

  /** The name a key stands for: `_<digits>` loses its underscore, every
      other key is itself. */
  function DecodeKey(key: string): (r: string)
    ensures IsUnderscoreDigits(key) <==> r != key
    ensures r != key ==> "_" + r == key && r != [] && AllDigits(r)
  {
    if IsUnderscoreDigits(key) then key[1..] else key
  }

  predicate DistinctKeys<V>(props: seq<(string, V)>) {
    forall i, j :: 0 <= i < j < |props| ==> props[i].0 != props[j].0
  }

  /** The decoded object: each entry written under its decoded key, in order. */
  function Decoded<V>(props: seq<(string, V)>): map<string, V> {
    if props == [] then map[]
    else
      var last := props[|props| - 1];
      Decoded(props[..|props| - 1])[DecodeKey(last.0) := last.1]
  }

  /** `decodeJsxSafePropKeys`. */
  method DecodeJsxSafePropKeys<V>(props: seq<(string, V)>) returns (result: map<string, V>)
    requires DistinctKeys(props)
    ensures result == Decoded(props)
  {
    result := map[];
    var i := 0;
    while i < |props|
      invariant 0 <= i <= |props|
      invariant result == Decoded(props[..i])
    {
      var key := props[i].0;
      assert props[..i + 1][..i] == props[..i];
      if IsUnderscoreDigits(key) {
        result := result[key[1..] := props[i].1];
      } else {
        result := result[key := props[i].1];
      }
      i := i + 1;
    }
    assert props[..|props|] == props;
  }

  /** The decoded keys are exactly the decoded names of the given keys. */
  lemma {:induction false} DecodedKeys<V>(props: seq<(string, V)>)
    ensures Decoded(props).Keys == set i | 0 <= i < |props| :: DecodeKey(props[i].0)
    decreases |props|
  {
    if props != [] {
      DecodedKeys(props[..|props| - 1]);
      DecodedNamesSnoc(props, props[..|props| - 1]);
    }
  }

  lemma DecodedNamesSnoc<V>(props: seq<(string, V)>, prefix: seq<(string, V)>)
    requires props != [] && prefix == props[..|props| - 1]
    ensures (set i | 0 <= i < |props| :: DecodeKey(props[i].0))
      == (set i | 0 <= i < |prefix| :: DecodeKey(prefix[i].0)) + {DecodeKey(props[|props| - 1].0)}
  {
    var s := set i | 0 <= i < |props| :: DecodeKey(props[i].0);
    var t := set i | 0 <= i < |prefix| :: DecodeKey(prefix[i].0);
    forall k | k in s ensures k in t + {DecodeKey(props[|props| - 1].0)} {
      var i :| 0 <= i < |props| && k == DecodeKey(props[i].0);
      if i < |prefix| {
        assert prefix[i] == props[i];
      }
    }
    forall k | k in t ensures k in s {
      var i :| 0 <= i < |prefix| && k == DecodeKey(prefix[i].0);
      assert prefix[i] == props[i];
    }
  }

  /** Every value is kept: an entry whose decoded name no later entry
      shares is found under that name. */
  lemma {:induction false} DecodedValue<V>(props: seq<(string, V)>, i: nat)
    requires i < |props|
    requires forall j :: i < j < |props| ==> DecodeKey(props[j].0) != DecodeKey(props[i].0)
    ensures DecodeKey(props[i].0) in Decoded(props)
    ensures Decoded(props)[DecodeKey(props[i].0)] == props[i].1
    decreases |props|
  {
    if i < |props| - 1 {
      var prefix := props[..|props| - 1];
      assert prefix[i] == props[i];
      DecodedValue(prefix, i);
    }
  }

  /** When no two keys decode to the same name, the result holds every
      value under its key's decoded name. */
  lemma DecodedInjective<V>(props: seq<(string, V)>, i: nat)
    requires i < |props|
    requires forall j, k :: 0 <= j < k < |props| ==> DecodeKey(props[j].0) != DecodeKey(props[k].0)
    ensures DecodeKey(props[i].0) in Decoded(props) && Decoded(props)[DecodeKey(props[i].0)] == props[i].1
  {
    DecodedValue(props, i);
  }

  lemma DecodeExamples()
    ensures DecodeKey("_12") == "12"
    ensures DecodeKey("_") == "_"
    ensures DecodeKey("_1a") == "_1a"
    ensures DecodeKey("count") == "count"
  {
    assert !AllDigits("1a") by {
      assert !IsAsciiDigit("1a"[1]);
    }
  }
}
