/** The message tree (packages/factory/src/core/messages/types.rs) and its ICU
    serialiser (packages/factory/src/core/messages/convert.rs).

    A `Message` is a record of five optional variants, of which exactly one is
    meant to be set; the serialiser panics on any other shape, so every
    operation that reaches it requires `WellFormed`. The syntax-tree
    expressions a message keeps for code generation are carried along as
    `Expr` values and never inspected here. */
module Messages {
  import opened Wrappers
  import opened Text
  import opened Syntax
  import Hash

  /** Static text. */
  datatype LiteralMessage = LiteralMessage(text: string)

  /** A placeholder `{identifier}` bound to an expression of the host program. */
  datatype ArgumentMessage = ArgumentMessage(identifier: string, expression: Expr)

  /** A tagged part `<identifier>children</identifier>`. */
  datatype ElementMessage = ElementMessage(identifier: string, children: seq<Message>, expression: Expr)

  datatype ChoiceMessageBranch = ChoiceMessageBranch(key: string, value: Message)

  /** A select/plural/ordinal choice over the value bound to `identifier`. */
  datatype ChoiceMessage = ChoiceMessage(
    kind: string,
    identifier: string,
    branches: seq<ChoiceMessageBranch>,
    expression: Expr)

  /** A whole message as written at one call site. `id` stands for the
      descriptor id that the call generator consults (the record in
      types.rs declares no such field); the pattern matchers never set it. */
  datatype CompositeMessage = CompositeMessage(
    id: Option<string>,
    context: Option<string>,
    comments: seq<string>,
    references: seq<string>,
    children: seq<Message>,
    accessor: Expr)

  datatype Message = Message(
    literal: Option<LiteralMessage>,
    argument: Option<ArgumentMessage>,
    element: Option<ElementMessage>,
    choice: Option<ChoiceMessage>,
    composite: Option<CompositeMessage>)

  /** One variant, as wrapped by the five `From` conversions. */
  datatype Variant =
    | LiteralVariant(literal: LiteralMessage)
    | ArgumentVariant(argument: ArgumentMessage)
    | ElementVariant(element: ElementMessage)
    | ChoiceVariant(choice: ChoiceMessage)
    | CompositeVariant(composite: CompositeMessage)

  /** How many of the five fields are set. */
  function VariantCount(m: Message): (n: nat)
    ensures n <= 5
  {
    (if m.literal.Some? then 1 else 0) + (if m.argument.Some? then 1 else 0)
    + (if m.element.Some? then 1 else 0) + (if m.choice.Some? then 1 else 0)
    + (if m.composite.Some? then 1 else 0)
  }

  /** `From<XMessage> for Message`: the matching field set, the others left at
      their default `None`. */
  function From(v: Variant): (m: Message)
    ensures VariantCount(m) == 1
  {
    match v
    case LiteralVariant(x) => Message(Some(x), None, None, None, None)
    case ArgumentVariant(x) => Message(None, Some(x), None, None, None)
    case ElementVariant(x) => Message(None, None, Some(x), None, None)
    case ChoiceVariant(x) => Message(None, None, None, Some(x), None)
    case CompositeVariant(x) => Message(None, None, None, None, Some(x))
  }

  /** The one variant a single-variant message holds. */
  function VariantOf(m: Message): Variant
    requires VariantCount(m) == 1
  {
    if m.literal.Some? then LiteralVariant(m.literal.value)
    else if m.argument.Some? then ArgumentVariant(m.argument.value)
    else if m.element.Some? then ElementVariant(m.element.value)
    else if m.choice.Some? then ChoiceVariant(m.choice.value)
    else CompositeVariant(m.composite.value)
  }

  /** `From` and `VariantOf` are inverse: single-variant messages are exactly the
      images of `From`. */
  lemma FromVariantOf(v: Variant, m: Message)
    ensures VariantOf(From(v)) == v
    ensures VariantCount(m) == 1 ==> From(VariantOf(m)) == m
  {
  }

  /** Exactly one variant at every level of the tree: the shape the serialiser
      accepts without reaching its `unreachable!`. */
  predicate WellFormed(m: Message) {
    VariantCount(m) == 1
    && (m.element.Some? ==> forall c <- m.element.value.children :: WellFormed(c))
    && (m.choice.Some? ==> forall b <- m.choice.value.branches :: WellFormed(b.value))
    && (m.composite.Some? ==> forall c <- m.composite.value.children :: WellFormed(c))
  }

  predicate AllWellFormed(ms: seq<Message>) {
    forall c <- ms :: WellFormed(c)
  }

  // ---------------------------------------------------------------------------
  // ICU serialisation

  /** A branch key that parses as a 32-bit integer is written `=<n>` in canonical
      decimal; any other key (a plural category, a select value) is kept. */
  function BranchKey(key: string): string {
    match ParseI32(key)
    case Some(n) => "=" + IntToString(n)
    case None => key
  }

  /** The ICU format keyword for a choice kind. */
  function IcuFormat(kind: string): string {
    if kind == "ordinal" then "selectordinal" else kind
  }

  /** `internal_convert_message_to_icu`: the untrimmed ICU text of a message. */
  function Render(m: Message): (r: string)
    requires WellFormed(m)
    ensures r == [] ==> m.literal.Some? || m.composite.Some?
    ensures m.argument.Some? || m.choice.Some? ==> r[0] == '{' && r[|r| - 1] == '}'
    ensures m.element.Some? ==> r[0] == '<' && r[|r| - 1] == '>'
    decreases m
  {
    match (m.literal, m.argument, m.element, m.choice, m.composite)
    case (Some(x), None, None, None, None) => x.text
    case (None, Some(x), None, None, None) => "{" + x.identifier + "}"
    case (None, None, Some(x), None, None) =>
      var children := RenderAll(x.children);
      if children == [] then "<" + x.identifier + "/>"
      else "<" + x.identifier + ">" + children + "</" + x.identifier + ">"
    case (None, None, None, Some(x), None) =>
      "{" + x.identifier + ", " + IcuFormat(x.kind) + ",\n" + RenderBranches(x.branches) + "}"
    case (None, None, None, None, Some(x)) => RenderAll(x.children)
  }

  /** The rendered messages, concatenated in order with no separator. */
  function RenderAll(ms: seq<Message>): (r: string)
    requires AllWellFormed(ms)
    ensures |ms| == 1 ==> r == Render(ms[0])
    ensures r == [] ==> forall i :: 0 <= i < |ms| ==> ms[i].literal.Some? || ms[i].composite.Some?
    decreases ms
  {
    if ms == [] then "" else Render(ms[0]) + RenderAll(ms[1..])
  }

  function RenderBranch(b: ChoiceMessageBranch): string
    requires WellFormed(b.value)
    decreases b
  {
    "  " + BranchKey(b.key) + " {" + Render(b.value) + "}\n"
  }

  function RenderBranches(bs: seq<ChoiceMessageBranch>): (r: string)
    requires forall b <- bs :: WellFormed(b.value)
    ensures |r| >= 6 * |bs|
    ensures bs != [] ==> r[|r| - 1] == '\n'
    decreases bs
  {
    if bs == [] then "" else RenderBranch(bs[0]) + RenderBranches(bs[1..])
  }

  /** `convert_message_to_icu`: the ICU text, trimmed once at the top. */
  function ConvertMessageToIcu(m: Message): (r: string)
    requires WellFormed(m)
    ensures r == RustTrim(Render(m))
    ensures RustTrim(r) == r
  {
    RustTrimIdempotent(Render(m));
    RustTrim(Render(m))
  }

  /** `XMessage::to_icu_string`: convert the variant wrapped as a message. A
      literal gives its text trimmed, an argument its braced identifier, and
      a composite its children's renderings trimmed once as a whole. */
  function ToIcuString(v: Variant): (r: string)
    requires WellFormed(From(v))
    ensures r == ConvertMessageToIcu(From(v))
    ensures v.LiteralVariant? ==> r == RustTrim(v.literal.text)
    ensures v.ArgumentVariant? ==> r == "{" + v.argument.identifier + "}"
    ensures v.CompositeVariant? ==> r == RustTrim(RenderAll(v.composite.children))
  {
    match v
    case LiteralVariant(x) => LiteralIcu(x); ConvertMessageToIcu(From(v))
    case ArgumentVariant(x) => ArgumentIcu(x); ConvertMessageToIcu(From(v))
    case CompositeVariant(x) => CompositeIcu(x); ConvertMessageToIcu(From(v))
    case _ => ConvertMessageToIcu(From(v))
  }

  lemma LiteralIcu(x: LiteralMessage)
    ensures WellFormed(From(LiteralVariant(x)))
    ensures ConvertMessageToIcu(From(LiteralVariant(x))) == RustTrim(x.text)
  {
  }

  lemma ArgumentIcu(x: ArgumentMessage)
    ensures WellFormed(From(ArgumentVariant(x)))
    ensures ConvertMessageToIcu(From(ArgumentVariant(x))) == "{" + x.identifier + "}"
  {
    var s := "{" + x.identifier + "}";
    assert Render(From(ArgumentVariant(x))) == s;
    assert s[0] == '{' && s[|s| - 1] == '}';
    TrimmedAlready(s);
  }

  lemma CompositeIcu(x: CompositeMessage)
    requires WellFormed(From(CompositeVariant(x)))
    ensures ConvertMessageToIcu(From(CompositeVariant(x))) == RustTrim(RenderAll(x.children))
  {
    var m := From(CompositeVariant(x));
    assert m == Message(None, None, None, None, Some(x));
    assert AllWellFormed(x.children);
    assert Render(m) == RenderAll(x.children);
  }

  /** `Message::to_hash_string`: the identifier of the ICU text, salted with the
      context when the message is a composite. */
  function ToHashString(sha256: Hash.Sha256, m: Message): (r: string)
    requires WellFormed(m)
    ensures |r| == 6
    ensures m.composite.None? ==> r == Hash.GenerateHash(sha256, ConvertMessageToIcu(m), None)
    ensures m.composite.Some? ==> r == Hash.GenerateHash(sha256, ConvertMessageToIcu(m), m.composite.value.context)
  {
    match m.composite
    case Some(c) => Hash.GenerateHash(sha256, ConvertMessageToIcu(m), c.context)
    case None => Hash.GenerateHash(sha256, ConvertMessageToIcu(m), None)
  }

  // ---------------------------------------------------------------------------
  // Properties of the serialiser

  /** Rendering a sequence distributes over concatenation. */
  lemma {:induction false} RenderAllAppend(a: seq<Message>, b: seq<Message>)
    requires AllWellFormed(a) && AllWellFormed(b)
    ensures AllWellFormed(a + b)
    ensures RenderAll(a + b) == RenderAll(a) + RenderAll(b)
    decreases |a|
  {
    if a == [] {
      assert a + b == b;
    } else {
      assert (a + b)[0] == a[0];
      assert (a + b)[1..] == a[1..] + b;
      RenderAllAppend(a[1..], b);
    }
  }

  /** A composite renders as the concatenation of its children, each rendered on
      its own and kept untrimmed. */
  lemma {:induction false} RenderAllPieces(ms: seq<Message>, k: nat)
    requires AllWellFormed(ms) && k < |ms|
    ensures AllWellFormed(ms[..k]) && AllWellFormed(ms[k + 1..])
    ensures RenderAll(ms) == RenderAll(ms[..k]) + Render(ms[k]) + RenderAll(ms[k + 1..])
  {
    assert ms == ms[..k] + ([ms[k]] + ms[k + 1..]);
    RenderAllAppend(ms[..k], [ms[k]] + ms[k + 1..]);
    assert ([ms[k]] + ms[k + 1..])[1..] == ms[k + 1..];
  }

  /** An element renders self-closed exactly when its children render to nothing. */
  lemma ElementShape(x: ElementMessage)
    requires WellFormed(From(ElementVariant(x)))
    ensures Render(From(ElementVariant(x))) == "<" + x.identifier + "/>" <==> RenderAll(x.children) == []
  {
    var m := From(ElementVariant(x));
    if RenderAll(x.children) != [] {
      var children := RenderAll(x.children);
      assert Render(m) == "<" + x.identifier + ">" + children + "</" + x.identifier + ">";
      assert |Render(m)| > |"<" + x.identifier + "/>"|;
    }
  }

  /** Children render to nothing exactly when each child does. */
  lemma {:induction false} RenderAllEmpty(ms: seq<Message>)
    requires AllWellFormed(ms)
    ensures RenderAll(ms) == [] <==> forall c <- ms :: Render(c) == []
    decreases |ms|
  {
    if ms != [] {
      RenderAllEmpty(ms[1..]);
      assert RenderAll(ms) == Render(ms[0]) + RenderAll(ms[1..]);
      if RenderAll(ms) == [] {
        assert Render(ms[0]) == [] && RenderAll(ms[1..]) == [];
        forall c <- ms
          ensures Render(c) == []
        {
          if c != ms[0] {
            assert c in ms[1..];
          }
        }
      } else if Render(ms[0]) == [] {
        var c :| c in ms[1..] && Render(c) != [];
        assert c in ms;
      }
    }
  }

  /** A key printed from a 32-bit integer in canonical decimal gains the `=`
      prefix and nothing else changes. */
  lemma NumericBranchKey(n: int)
    requires I32Min <= n <= I32Max
    ensures BranchKey(IntToString(n)) == "=" + IntToString(n)
  {
    ParseI32OfPrinted(n);
  }

  /** A key that does not parse as a 32-bit integer is written unchanged. */
  lemma NonNumericBranchKey(key: string)
    requires ParseI32(key).None?
    ensures BranchKey(key) == key
  {
  }

  /** `ordinal` is the only kind that is renamed. */
  lemma IcuFormatRenamesOrdinalOnly(kind: string)
    ensures IcuFormat(kind) == "selectordinal" <==> kind == "ordinal" || kind == "selectordinal"
    ensures kind != "ordinal" ==> IcuFormat(kind) == kind
  {
  }

  /** Branches are rendered one after another, in order. */
  lemma BranchesAppendWellFormed(a: seq<ChoiceMessageBranch>, b: seq<ChoiceMessageBranch>)
    requires forall x <- a :: WellFormed(x.value)
    requires forall x <- b :: WellFormed(x.value)
    ensures forall x <- a + b :: WellFormed(x.value)
  {
    assert forall x <- a + b :: x in a || x in b;
  }

  lemma {:induction false} RenderBranchesAppend(a: seq<ChoiceMessageBranch>, b: seq<ChoiceMessageBranch>)
    requires forall x <- a :: WellFormed(x.value)
    requires forall x <- b :: WellFormed(x.value)
    ensures forall x <- a + b :: WellFormed(x.value)
    ensures RenderBranches(a + b) == RenderBranches(a) + RenderBranches(b)
    decreases |a|
  {
    BranchesAppendWellFormed(a, b);
    if a == [] {
      assert a + b == b;
    } else {
      var head, rest := RenderBranch(a[0]), a[1..];
      BranchesTailWellFormed(a);
      assert RenderBranches(a + b) == head + (RenderBranches(rest) + RenderBranches(b)) by {
        RenderBranchesAppend(rest, b);
        RenderBranchesCons(a, b);
      }
      ConcatAssoc(head, RenderBranches(rest), RenderBranches(b), "");
    }
  }

  lemma BranchesTailWellFormed(a: seq<ChoiceMessageBranch>)
    requires a != [] && forall x <- a :: WellFormed(x.value)
    ensures forall x <- a[1..] :: WellFormed(x.value)
  {
    assert forall x <- a[1..] :: x in a;
  }

  /** The first branch of a non-empty front is rendered first. */
  lemma RenderBranchesCons(a: seq<ChoiceMessageBranch>, b: seq<ChoiceMessageBranch>)
    requires a != []
    requires forall x <- a + b :: WellFormed(x.value)
    requires forall x <- a[1..] + b :: WellFormed(x.value)
    ensures RenderBranches(a + b) == RenderBranch(a[0]) + RenderBranches(a[1..] + b)
  {
    assert (a + b)[0] == a[0] && (a + b)[1..] == a[1..] + b;
  }

  // ---------------------------------------------------------------------------
  // The inline examples of convert.rs

  const Dummy: Expr := OtherExpr("")

  function Lit(text: string): Message {
    From(LiteralVariant(LiteralMessage(text)))
  }

  lemma LiteralExample()
    ensures ConvertMessageToIcu(Lit("Hello, world!")) == "Hello, world!"
  {
    ConvertUntouched(Lit("Hello, world!"), "Hello, world!");
  }

  lemma ArgumentExample()
    ensures ConvertMessageToIcu(From(ArgumentVariant(ArgumentMessage("name", Dummy)))) == "{name}"
  {
    ConvertUntouched(From(ArgumentVariant(ArgumentMessage("name", Dummy))), "{name}");
  }

  lemma ElementExample()
    ensures ConvertMessageToIcu(From(ElementVariant(ElementMessage("0", [Lit("Hello, world!")], Dummy))))
         == "<0>Hello, world!</0>"
  {
    var x := ElementMessage("0", [Lit("Hello, world!")], Dummy);
    RenderAllOne(Lit("Hello, world!"));
    ElementRender(x);
    ConvertUntouched(From(ElementVariant(x)), "<0>Hello, world!</0>");
  }

  const PluralChoice: ChoiceMessage :=
    ChoiceMessage("plural", "count",
      [ChoiceMessageBranch("1", Lit("item")), ChoiceMessageBranch("other", Lit("items"))], Dummy)

  /** The plural example: numeric keys gain `=`, one branch per line. */
  lemma PluralExample()
    ensures WellFormed(From(ChoiceVariant(PluralChoice)))
    ensures ConvertMessageToIcu(From(ChoiceVariant(PluralChoice)))
         == "{count, plural,\n" + "  =1 {item}\n" + "  other {items}\n" + "}"
  {
    var s := "{count, plural,\n" + "  =1 {item}\n" + "  other {items}\n" + "}";
    PluralRender(s);
    assert s[0] == '{' && s[|s| - 1] == '}';
    ConvertUntouched(From(ChoiceVariant(PluralChoice)), s);
  }

  lemma PluralRender(s: string)
    requires s == "{count, plural,\n" + "  =1 {item}\n" + "  other {items}\n" + "}"
    ensures WellFormed(From(ChoiceVariant(PluralChoice)))
    ensures Render(From(ChoiceVariant(PluralChoice))) == s
  {
    PluralBranches();
    ChoiceRender(PluralChoice);
    PluralHead();
    ConcatAssoc("{count, plural,\n", "  =1 {item}\n", "  other {items}\n", "}");
  }

  lemma PluralHead()
    ensures "{" + "count" + ", " + IcuFormat("plural") + ",\n" == "{count, plural,\n"
  {
    assert IcuFormat("plural") == "plural";
  }

  lemma ConcatAssoc(a: string, b: string, c: string, d: string)
    ensures a + (b + c) + d == a + b + c + d
  {
  }

  lemma PluralBranches()
    ensures forall b <- PluralChoice.branches :: WellFormed(b.value)
    ensures RenderBranches(PluralChoice.branches) == "  =1 {item}\n" + "  other {items}\n"
  {
    var b1, b2 := PluralChoice.branches[0], PluralChoice.branches[1];
    assert PluralChoice.branches == [b1, b2];
    PluralOne(b1);
    PluralOther(b2);
    RenderBranchesTwo(b1, b2);
  }

  lemma PluralOne(b: ChoiceMessageBranch)
    requires b == ChoiceMessageBranch("1", Lit("item"))
    ensures WellFormed(b.value) && RenderBranch(b) == "  =1 {item}\n"
  {
    NumericBranchKey(1);
    assert IntToString(1) == "1";
  }

  lemma PluralOther(b: ChoiceMessageBranch)
    requires b == ChoiceMessageBranch("other", Lit("items"))
    ensures WellFormed(b.value) && RenderBranch(b) == "  other {items}\n"
  {
    OtherIsNotNumeric();
  }

  lemma CompositeExample()
    ensures ConvertMessageToIcu(From(CompositeVariant(CompositeMessage(None, None, [], [],
              [Lit("Hello, "), From(ArgumentVariant(ArgumentMessage("name", Dummy))), Lit("!")], Dummy))))
         == "Hello, {name}!"
  {
    var arg := From(ArgumentVariant(ArgumentMessage("name", Dummy)));
    var x := CompositeMessage(None, None, [], [], [Lit("Hello, "), arg, Lit("!")], Dummy);
    RenderAllThree(Lit("Hello, "), arg, Lit("!"));
    assert Render(arg) == "{name}";
    ConvertUntouched(From(CompositeVariant(x)), "Hello, {name}!");
  }

  /** Whitespace inside a nested part survives: only the outermost text is trimmed. */
  lemma TrimOnlyAtTop()
    ensures ConvertMessageToIcu(From(CompositeVariant(CompositeMessage(None, None, [], [],
              [Lit(" "), From(ElementVariant(ElementMessage("0", [Lit(" hi ")], Dummy))), Lit(" ")], Dummy))))
         == "<0> hi </0>"
  {
    var y := ElementMessage("0", [Lit(" hi ")], Dummy);
    var e := From(ElementVariant(y));
    var x := CompositeMessage(None, None, [], [], [Lit(" "), e, Lit(" ")], Dummy);
    RenderAllOne(Lit(" hi "));
    ElementRender(y);
    assert Render(e) == "<0> hi </0>";
    RenderAllThree(Lit(" "), e, Lit(" "));
    var m := From(CompositeVariant(x));
    assert Render(m) == " " + "<0> hi </0>" + " ";
    TrimPadded("<0> hi </0>");
  }

  lemma ElementRender(x: ElementMessage)
    requires AllWellFormed(x.children) && RenderAll(x.children) != []
    ensures WellFormed(From(ElementVariant(x)))
    ensures Render(From(ElementVariant(x))) == "<" + x.identifier + ">" + RenderAll(x.children) + "</" + x.identifier + ">"
  {
  }

  lemma ChoiceRender(x: ChoiceMessage)
    requires forall b <- x.branches :: WellFormed(b.value)
    ensures WellFormed(From(ChoiceVariant(x)))
    ensures Render(From(ChoiceVariant(x))) == "{" + x.identifier + ", " + IcuFormat(x.kind) + ",\n" + RenderBranches(x.branches) + "}"
  {
  }

  lemma RenderBranchesTwo(a: ChoiceMessageBranch, b: ChoiceMessageBranch)
    requires WellFormed(a.value) && WellFormed(b.value)
    ensures RenderBranches([a, b]) == RenderBranch(a) + RenderBranch(b)
  {
    assert [a, b][1..] == [b];
    assert [b][1..] == [];
    assert RenderBranches([b]) == RenderBranch(b);
  }

  /** A message whose rendering has no surrounding whitespace converts to it unchanged. */
  lemma ConvertUntouched(m: Message, s: string)
    requires WellFormed(m) && Render(m) == s
    requires s != [] && !IsRustWhitespace(s[0]) && !IsRustWhitespace(s[|s| - 1])
    ensures ConvertMessageToIcu(m) == s
  {
    TrimmedAlready(s);
  }

  lemma RenderAllOne(a: Message)
    requires WellFormed(a)
    ensures RenderAll([a]) == Render(a)
  {
    assert [a][1..] == [];
  }

  lemma RenderAllThree(a: Message, b: Message, c: Message)
    requires WellFormed(a) && WellFormed(b) && WellFormed(c)
    ensures RenderAll([a, b, c]) == Render(a) + Render(b) + Render(c)
  {
    assert [a, b, c][1..] == [b, c];
    assert [b, c][1..] == [c];
    RenderAllOne(c);
  }

  lemma TrimmedAlready(s: string)
    requires s != [] && !IsRustWhitespace(s[0]) && !IsRustWhitespace(s[|s| - 1])
    ensures RustTrim(s) == s
  {
    assert TrimStart(s, IsRustWhitespace) == s;
  }

  lemma TrimPadded(s: string)
    requires s != [] && !IsRustWhitespace(s[0]) && !IsRustWhitespace(s[|s| - 1])
    ensures RustTrim(" " + s + " ") == s
  {
    var p := " " + s + " ";
    var t := TrimStart(p, IsRustWhitespace);
    assert t == s + " " by {
      assert p[1..] == s + " ";
      assert !IsRustWhitespace(p[1]);
    }
    assert TrimEnd(t, IsRustWhitespace) == s by {
      assert t[..|s|] == s;
      assert !IsRustWhitespace(t[|s| - 1]);
    }
  }

  lemma OtherIsNotNumeric()
    ensures ParseI32("other").None?
  {
  }
}
