/** The code generator for matched JSX messages
    (packages/factory/src/features/jsx/generator.rs): a matched `<Say>`
    element is replaced by a self-closing `<Say id="..." name={...} />` whose
    attributes are the id and the bindings of the message tree. Attribute
    names that Rust parses as an `f64` are written with a leading `_`; the
    `<Say>` component strips it again only from `_<digits>` (`JsxSafeKeys`). */
module JsxGenerator {
  import opened Wrappers
  import opened Text
  import opened Syntax
  import opened Messages
  import Hash
  import Context
  import JsxParser
  import opened JsGenerator
  import opened JsxSafeKeys

  // ---------------------------------------------------------------------------
  // JSX-safe names

  /** Lines 32-34 as written: every name that Rust parses as an `f64` gets a
      leading underscore. Besides numbers this catches the identifiers `inf`,
      `infinity` and `nan` in any letter case (`NaN`, `Infinity`). */
  function JsxSafeNameAsWritten(name: string): (r: string)
    ensures r == name || r == "_" + name
  {
    if ParsesAsF64(name) then "_" + name else name
  }

  /** The prefix as the decoder expects it: only numeric names, the ones JSX
      cannot take as attribute names, get a leading underscore. */
  function JsxSafeName(name: string): (r: string)
    ensures r == name || r == "_" + name
  {
    if name != [] && AllDigits(name) then "_" + name else name
  }

  /** Both rules prefix the numeric names the identifier store hands out. */
  lemma SafeNameOfNumber(name: string)
    requires name != [] && AllDigits(name)
    ensures JsxSafeName(name) == "_" + name
    ensures JsxSafeNameAsWritten(name) == JsxSafeName(name)
  {
    DigitsParseAsF64(name);
  }

  /** The prefixed name decodes back to the binding's own name, unless the
      binding is itself spelled `_<digits>`, which no encoding can tell
      apart from a prefixed number. */
  lemma SafeNameRoundTrip(name: string)
    requires !IsUnderscoreDigits(name)
    ensures DecodeKey(JsxSafeName(name)) == name
  {
    if name != [] && AllDigits(name) {
      assert ("_" + name)[1..] == name;
      assert IsUnderscoreDigits("_" + name);
    }
  }

  /** The binding of the JS global `NaN`, as in `<Say>{NaN}</Say>`. */
  lemma AsWrittenNaNIsLost()
    ensures JsxSafeNameAsWritten("NaN") == "_NaN"
    ensures DecodeKey(JsxSafeNameAsWritten("NaN")) == "_NaN"
    ensures JsxSafeName("NaN") == "NaN"
  {
    assert AsciiLowerString("NaN") == "nan" by {
      assert AsciiLower('N') == 'n';
    }
    assert !IsAsciiDigit("NaN"[0]);
    assert !AllDigits("NaN"[1..]) by {
      assert !IsAsciiDigit("NaN"[1..][0]);
    }
  }

  // ---------------------------------------------------------------------------
  // The generated element

  /** One binding as an attribute `name={expression}`, named by the rule of
      lines 32-34 as written. */
  function AttributeAsWritten(b: Binding): JsxAttrOrSpread {
    Attr(AttrIdent(JsxSafeNameAsWritten(b.0)), Some(ValueContainer(JsxExprItem(b.1))))
  }

  function AttributesAsWritten(bindings: seq<Binding>): (r: seq<JsxAttrOrSpread>)
    ensures |r| == |bindings|
    ensures forall i :: 0 <= i < |bindings| ==> r[i] == AttributeAsWritten(bindings[i])
  {
    seq(|bindings|, i requires 0 <= i < |bindings| => AttributeAsWritten(bindings[i]))
  }

  /** The same attribute named by the corrected rule. */
  function SafeAttribute(b: Binding): JsxAttrOrSpread {
    Attr(AttrIdent(JsxSafeName(b.0)), Some(ValueContainer(JsxExprItem(b.1))))
  }

  /** The two rules agree on every name except the non-numeric ones Rust
      still parses as an `f64` (`NaN`, `inf`, `Infinity`, ...). */
  lemma AttributeRulesAgree(b: Binding)
    requires (b.0 != [] && AllDigits(b.0)) || !ParsesAsF64(b.0)
    ensures AttributeAsWritten(b) == SafeAttribute(b)
  {
    if b.0 != [] && AllDigits(b.0) {
      SafeNameOfNumber(b.0);
    } else {
      assert JsxSafeNameAsWritten(b.0) == b.0;
    }
  }

  /** The `id` attribute: always the hash of the ICU text salted with the
      context; a descriptor id is not consulted. */
  function IdBinding(sha256: Hash.Sha256, message: CompositeMessage): (r: Binding)
    requires WellFormed(From(CompositeVariant(message)))
    ensures r.0 == "id" && r.1.Lit? && r.1.lit.Str? && |r.1.lit.value| == 6
  {
    ("id", Lit(Str(ToHashString(sha256, From(CompositeVariant(message))))))
  }

  /** `generate_say_jsx_element`; the accessor of a JSX message is always an
      identifier (`Say`), any other is unreachable. */
  method GenerateSayJsxElement(sha256: Hash.Sha256, message: CompositeMessage) returns (e: JsxElement)
    requires message.accessor.Ident?
    requires WellFormed(From(CompositeVariant(message)))
    ensures e.name == NameIdent(message.accessor.sym)
    ensures e.selfClosing && e.children == [] && e.closing.None?
    ensures var bindings := [IdBinding(sha256, message)] + ChildExpressions(message.children);
      && |e.attrs| == |bindings|
      && forall i :: 0 <= i < |bindings| ==> e.attrs[i] == AttributeAsWritten(bindings[i])
  {
    var nested := GenerateChildExpressions(message.children);
    var children: seq<Binding> := [IdBinding(sha256, message)] + nested;
    e := JsxElement(NameIdent(message.accessor.sym), AttributesAsWritten(children), [], true, None, 0);
  }

  /** The first attribute is `id`, unprefixed, holding a six-character hash. */
  lemma IdAttributeFirst(sha256: Hash.Sha256, message: CompositeMessage)
    requires WellFormed(From(CompositeVariant(message)))
    ensures var a := AttributeAsWritten(IdBinding(sha256, message));
      && a.name == AttrIdent("id")
      && a.value == Some(ValueContainer(JsxExprItem(Lit(Str(ToHashString(sha256, From(CompositeVariant(message))))))))
  {
    IdIsNoNumber();
  }

  lemma IdIsNoNumber()
    ensures !ParsesAsF64("id")
  {
    assert AsciiLowerString("id") == "id" by {
      assert AsciiLower('i') == 'i' && AsciiLower('d') == 'd';
    }
    assert !IsMantissa("id") by {
      assert !IsAsciiDigit("id"[0]) && "id"[0] != '.';
    }
    assert forall k :: 0 <= k < |"id"| ==> "id"[k] != 'e';
  }

  /** Every attribute after `id`, named by the corrected rule, decodes at the
      `<Say>` component to the name of a placeholder of the message's ICU
      text (names spelled `_<digits>` aside). */
  lemma AttributeNamesDecodeToPlaceholders(message: CompositeMessage, b: Binding)
    requires WellFormed(From(CompositeVariant(message)))
    requires b in ChildExpressions(message.children) && !IsUnderscoreDigits(b.0)
    ensures var key := SafeAttribute(b).name.sym;
      DecodeKey(key) == b.0 && Referenced(Render(From(CompositeVariant(message))), DecodeKey(key))
      && Opened(ConvertMessageToIcu(From(CompositeVariant(message))), DecodeKey(key))
  {
    SafeNameRoundTrip(b.0);
    CallBindingsReferenced(message, b);
  }

  /** The same holds for the element as written, except for a binding whose
      non-numeric name parses as an `f64` (see `AsWrittenNaNIsLost`). */
  lemma AsWrittenNamesDecodeToPlaceholders(message: CompositeMessage, b: Binding)
    requires WellFormed(From(CompositeVariant(message)))
    requires b in ChildExpressions(message.children) && !IsUnderscoreDigits(b.0)
    requires (b.0 != [] && AllDigits(b.0)) || !ParsesAsF64(b.0)
    ensures var key := AttributeAsWritten(b).name.sym;
      DecodeKey(key) == b.0 && Referenced(Render(From(CompositeVariant(message))), DecodeKey(key))
      && Opened(ConvertMessageToIcu(From(CompositeVariant(message))), DecodeKey(key))
  {
    AttributeRulesAgree(b);
    AttributeNamesDecodeToPlaceholders(message, b);
  }

  /** A generated `<Say ... />` is not matched again: as a self-closing element
      without a kind it is no choice, and it is no container. */
  lemma GeneratedElementNotMatched(env: Context.Env, e: JsxElement, n: nat)
    requires e.name.NameIdent? && e.selfClosing
    ensures JsxParser.JsxElementMessage(env, e, false, n) == (None, n)
  {
  }
}
