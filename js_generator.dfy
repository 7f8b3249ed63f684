/** The code generator for matched JS messages
    (packages/factory/src/features/js/generator.rs): a matched message is
    replaced by `accessor.call({ id: ..., <binding>: <expression>, ... })`,
    whose bindings are the arguments, elements and choices of the message
    tree, flattened depth-first. */
module JsGenerator {
  import opened Wrappers
  import opened Text
  import opened Syntax
  import opened Messages
  import Hash
  import Context
  import JsParser

  /** A property of the generated call: a name and the expression bound to it. */
  type Binding = (string, Expr)

  // ---------------------------------------------------------------------------
  // A size measure for the flattening recursion, which descends from a choice
  // into the list of its branch values.

  ghost function Size(m: Message): (r: nat)
    ensures r >= 1
    decreases m, 1
  {
    1
    + (match m.element case Some(x) => SizeAll(x.children) case None => 0)
    + (match m.choice case Some(x) => SizeBranches(x.branches) case None => 0)
    + (match m.composite case Some(x) => SizeAll(x.children) case None => 0)
  }

  ghost function SizeAll(ms: seq<Message>): nat
    decreases ms, 0
  {
    if ms == [] then 0 else SizeAll(ms[..|ms| - 1]) + Size(ms[|ms| - 1])
  }

  ghost function SizeBranches(bs: seq<ChoiceMessageBranch>): nat
    decreases bs, 0
  {
    if bs == [] then 0 else SizeBranches(bs[..|bs| - 1]) + Size(bs[|bs| - 1].value)
  }

  lemma {:induction false} SizeAllBound(ms: seq<Message>, i: nat)
    requires i < |ms|
    ensures Size(ms[i]) <= SizeAll(ms)
    decreases |ms|
  {
    if i < |ms| - 1 {
      var prefix := ms[..|ms| - 1];
      assert prefix[i] == ms[i];
      SizeAllBound(prefix, i);
    }
  }

  lemma {:induction false} SizeBranchesBound(bs: seq<ChoiceMessageBranch>, i: nat)
    requires i < |bs|
    ensures Size(bs[i].value) <= SizeBranches(bs)
    decreases |bs|
  {
    if i < |bs| - 1 {
      var prefix := bs[..|bs| - 1];
      assert prefix[i] == bs[i];
      SizeBranchesBound(prefix, i);
    }
  }

  /** The branch values of a choice, in branch order. */
  function BranchValues(bs: seq<ChoiceMessageBranch>): (r: seq<Message>)
    ensures |r| == |bs| && forall i :: 0 <= i < |bs| ==> r[i] == bs[i].value
  {
    seq(|bs|, i requires 0 <= i < |bs| => bs[i].value)
  }

  lemma {:induction false} SizeAllValues(bs: seq<ChoiceMessageBranch>)
    ensures SizeAll(BranchValues(bs)) == SizeBranches(bs)
    decreases |bs|
  {
    if bs != [] {
      var prefix := bs[..|bs| - 1];
      assert BranchValues(bs)[..|bs| - 1] == BranchValues(prefix);
      SizeAllValues(prefix);
    }
  }

  // ---------------------------------------------------------------------------
  // Flattening

  /** The bindings of a list of messages: each message's, in order. There are
      no more of them than message nodes, and text binds nothing. */
  function ChildExpressions(ms: seq<Message>): (r: seq<Binding>)
    ensures |r| <= SizeAll(ms)
    ensures (forall i :: 0 <= i < |ms| ==> ms[i].literal.Some?) ==> r == []
    decreases SizeAll(ms), 1
  {
    if ms == [] then []
    else ChildExpressions(ms[..|ms| - 1]) + MessageExpressions(ms[|ms| - 1])
  }

  /** The bindings of one message: an argument binds its identifier; an element
      binds its identifier, then its children's; a choice binds its identifier,
      then its branch values'; a composite binds only its children's; a literal
      binds nothing. */
  function MessageExpressions(m: Message): (r: seq<Binding>)
    ensures |r| <= Size(m)
    decreases Size(m), 0
  {
    match (m.literal, m.argument, m.element, m.choice, m.composite)
    case (None, Some(x), None, None, None) => [(x.identifier, x.expression)]
    case (None, None, Some(x), None, None) => [(x.identifier, x.expression)] + ChildExpressions(x.children)
    case (None, None, None, Some(x), None) =>
      SizeAllValues(x.branches);
      [(x.identifier, x.expression)] + ChildExpressions(BranchValues(x.branches))
    case (None, None, None, None, Some(x)) => ChildExpressions(x.children)
    case _ => []
  }

  /** `generate_child_expressions`. */
  method GenerateChildExpressions(messages: seq<Message>) returns (results: seq<Binding>)
    ensures results == ChildExpressions(messages)
    decreases SizeAll(messages), 1
  {
    results := [];
    var i := 0;
    while i < |messages|
      invariant 0 <= i <= |messages|
      invariant results == ChildExpressions(messages[..i])
    {
      var message := messages[i];
      SizeAllBound(messages, i);
      assert messages[..i + 1][..i] == messages[..i];
      match (message.literal, message.argument, message.element, message.choice, message.composite) {
        case (None, Some(x), None, None, None) =>
          results := results + [(x.identifier, x.expression)];
        case (None, None, Some(x), None, None) =>
          var nested := GenerateChildExpressions(x.children);
          results := results + ([(x.identifier, x.expression)] + nested);
        case (None, None, None, Some(x), None) =>
          var branches := BranchValues(x.branches);
          SizeAllValues(x.branches);
          var nested := GenerateChildExpressions(branches);
          results := results + ([(x.identifier, x.expression)] + nested);
        case (None, None, None, None, Some(x)) =>
          var nested := GenerateChildExpressions(x.children);
          results := results + nested;
        case _ =>
      }
      i := i + 1;
    }
    assert messages[..|messages|] == messages;
  }

  // ---------------------------------------------------------------------------
  // The generated call

  /** The `id` property: the descriptor's id when it has one, else the
      identifier of the message's ICU text salted with its context. */
  function CallId(sha256: Hash.Sha256, message: CompositeMessage): (r: string)
    requires WellFormed(From(CompositeVariant(message)))
    ensures message.id.Some? ==> r == message.id.value
    ensures message.id.None? ==> r == ToHashString(sha256, From(CompositeVariant(message))) && |r| == 6
  {
    match message.id
    case Some(id) => id
    case None => ToHashString(sha256, From(CompositeVariant(message)))
  }

  function Property(b: Binding): ObjectProp {
    KeyValue(KeyIdent(b.0), b.1)
  }

  /** `generate_say_call_expression`. */
  method GenerateSayCallExpression(sha256: Hash.Sha256, message: CompositeMessage) returns (call: Expr)
    requires WellFormed(From(CompositeVariant(message)))
    ensures call.Call? && call.callee == Member(message.accessor, MemberIdent("call")) && |call.args| == 1
    ensures call.args[0].Object?
    ensures var props := call.args[0].props;
      var bindings := ChildExpressions(message.children);
      && |props| == 1 + |bindings|
      && props[0] == KeyValue(KeyIdent("id"), Lit(Str(CallId(sha256, message))))
      && forall i :: 0 <= i < |bindings| ==> props[i + 1] == KeyValue(KeyIdent(bindings[i].0), bindings[i].1)
  {
    var id := CallId(sha256, message);
    var children: seq<Binding> := [("id", Lit(Str(id)))];
    var nested := GenerateChildExpressions(message.children);
    children := children + nested;
    var properties := seq(|children|, i requires 0 <= i < |children| => Property(children[i]));
    assert properties[0] == KeyValue(KeyIdent("id"), Lit(Str(id)));
    assert forall i :: 0 <= i < |nested| ==> properties[i + 1] == Property(nested[i]) by {
      forall i | 0 <= i < |nested|
        ensures properties[i + 1] == Property(nested[i])
      {
        assert children[i + 1] == nested[i];
      }
    }
    call := Call(Member(message.accessor, MemberIdent("call")), [Object(properties)], 0);
  }

  /** The rewritten call is never taken for a message again: its callee's last
      member is `call`, which is not a choice kind. */
  lemma GeneratedCallNotMatched(env: Context.Env, call: Expr, accessor: Expr, props: seq<ObjectProp>, n: nat)
    requires call == Call(Member(accessor, MemberIdent("call")), [Object(props)], 0)
    ensures JsParser.CallMessage(env, call, n).0.None?
  {
  }

  // ---------------------------------------------------------------------------
  // Every binding is a placeholder of the ICU text

  /** `name` is referenced in an ICU text as an argument, a choice, or an element. */
  predicate Referenced(s: string, name: string) {
    || Contains(s, "{" + name + "}")
    || Contains(s, "{" + name + ", ")
    || Contains(s, "<" + name + "/>")
    || Contains(s, "<" + name + ">")
  }

  lemma PrefixContains(p: string, r: string)
    ensures Contains(p + r, p)
  {
    assert (p + r)[0..|p|] == p;
    assert OccursAt(p + r, p, 0);
  }

  lemma InfixContains(a: string, t: string, b: string, pat: string)
    requires Contains(t, pat)
    ensures Contains(a + t + b, pat)
  {
    var i: nat :| i <= |t| && OccursAt(t, pat, i);
    var s := a + t + b;
    assert s[|a| + i..|a| + i + |pat|] == t[i..i + |pat|];
    assert OccursAt(s, pat, |a| + i);
  }

  lemma ReferencedInfix(a: string, t: string, b: string, name: string)
    requires Referenced(t, name)
    ensures Referenced(a + t + b, name)
  {
    if Contains(t, "{" + name + "}") {
      InfixContains(a, t, b, "{" + name + "}");
    } else if Contains(t, "{" + name + ", ") {
      InfixContains(a, t, b, "{" + name + ", ");
    } else if Contains(t, "<" + name + "/>") {
      InfixContains(a, t, b, "<" + name + "/>");
    } else {
      InfixContains(a, t, b, "<" + name + ">");
    }
  }

  /** A binding of a list comes from one of its messages. */
  lemma {:induction false} ChildExpressionsFrom(ms: seq<Message>, b: Binding)
    requires b in ChildExpressions(ms)
    ensures exists i :: 0 <= i < |ms| && b in MessageExpressions(ms[i])
    decreases |ms|
  {
    var prefix := ms[..|ms| - 1];
    if b !in MessageExpressions(ms[|ms| - 1]) {
      ChildExpressionsFrom(prefix, b);
      var i :| 0 <= i < |prefix| && b in MessageExpressions(prefix[i]);
      assert prefix[i] == ms[i];
    }
  }

  /** Every binding a message contributes is referenced in its rendering. */
  lemma {:induction false} BindingReferenced(m: Message, b: Binding)
    requires WellFormed(m) && b in MessageExpressions(m)
    ensures Referenced(Render(m), b.0)
    decreases Size(m), 2
  {
    match (m.literal, m.argument, m.element, m.choice, m.composite)
    case (None, Some(x), None, None, None) =>
      PrefixContains("{" + x.identifier + "}", "");
      assert "{" + x.identifier + "}" + "" == Render(m);
    case (None, None, Some(x), None, None) => ElementBindingReferenced(m, x, b);
    case (None, None, None, Some(x), None) => ChoiceBindingReferenced(m, x, b);
    case (None, None, None, None, Some(x)) =>
      ListBindingReferenced(m, x.children, b);
  }

  /** A binding of a list of children is referenced in their rendering. */
  lemma {:induction false} ListBindingReferenced(m: Message, children: seq<Message>, b: Binding)
    requires AllWellFormed(children) && SizeAll(children) < Size(m)
    requires b in ChildExpressions(children)
    ensures Referenced(RenderAll(children), b.0)
    decreases Size(m), 0
  {
    ChildExpressionsFrom(children, b);
    var i :| 0 <= i < |children| && b in MessageExpressions(children[i]);
    SizeAllBound(children, i);
    BindingReferenced(children[i], b);
    RenderAllPieces(children, i);
    ReferencedInfix(RenderAll(children[..i]), Render(children[i]), RenderAll(children[i + 1..]), b.0);
  }

  lemma {:induction false} ElementBindingReferenced(m: Message, x: ElementMessage, b: Binding)
    requires m == From(ElementVariant(x)) && WellFormed(m) && b in MessageExpressions(m)
    ensures Referenced(Render(m), b.0)
    decreases Size(m), 1
  {
    if b == (x.identifier, x.expression) {
      ElementSelfReferenced(x);
    } else {
      assert b in ChildExpressions(x.children);
      ListBindingReferenced(m, x.children, b);
      var children := RenderAll(x.children);
      assert children != [];
      ElementRender(x);
      var open, close := "<" + x.identifier + ">", "</" + x.identifier + ">";
      ReferencedInfix(open, children, close, b.0);
      assert open + children + close == Render(m);
    }
  }

  /** An element's own tag names its binding. */
  lemma ElementSelfReferenced(x: ElementMessage)
    requires WellFormed(From(ElementVariant(x)))
    ensures Referenced(Render(From(ElementVariant(x))), x.identifier)
  {
    var children := RenderAll(x.children);
    if children == [] {
      ElementShape(x);
      PrefixContains("<" + x.identifier + "/>", "");
      assert "<" + x.identifier + "/>" + "" == "<" + x.identifier + "/>";
    } else {
      ElementRender(x);
      PrefixContains("<" + x.identifier + ">", children + "</" + x.identifier + ">");
      assert "<" + x.identifier + ">" + (children + "</" + x.identifier + ">") == "<" + x.identifier + ">" + children + "</" + x.identifier + ">";
    }
  }

  lemma {:induction false} ChoiceBindingReferenced(m: Message, x: ChoiceMessage, b: Binding)
    requires m == From(ChoiceVariant(x)) && WellFormed(m) && b in MessageExpressions(m)
    ensures Referenced(Render(m), b.0)
    decreases Size(m), 1
  {
    var branches := RenderBranches(x.branches);
    var head := "{" + x.identifier + ", ";
    var tail := IcuFormat(x.kind) + ",\n" + branches + "}";
    assert Render(m) == head + tail;
    if b == (x.identifier, x.expression) {
      PrefixContains(head, tail);
    } else {
      var values := BranchValues(x.branches);
      assert b in ChildExpressions(values);
      ChildExpressionsFrom(values, b);
      var i :| 0 <= i < |values| && b in MessageExpressions(values[i]);
      SizeBranchesBound(x.branches, i);
      var v := x.branches[i].value;
      BindingReferenced(v, b);
      BranchReferenced(x.branches, i, b.0);
      ReferencedInfix(head + IcuFormat(x.kind) + ",\n", branches, "}", b.0);
    }
  }

  /** A name referenced in one branch value is referenced in the rendered branches. */
  lemma {:induction false} BranchReferenced(bs: seq<ChoiceMessageBranch>, i: nat, name: string)
    requires forall b <- bs :: WellFormed(b.value)
    requires i < |bs| && Referenced(Render(bs[i].value), name)
    ensures Referenced(RenderBranches(bs), name)
    decreases i
  {
    BranchesTailWellFormed(bs);
    var first, rest := RenderBranch(bs[0]), RenderBranches(bs[1..]);
    assert RenderBranches(bs) == first + rest;
    if i == 0 {
      assert Referenced(first, name) by {
        ReferencedInfix("  " + BranchKey(bs[0].key) + " {", Render(bs[0].value), "}\n", name);
      }
      ReferencedPrefix(first, rest, name);
    } else {
      assert Referenced(rest, name) by {
        assert bs[1..][i - 1] == bs[i];
        BranchReferenced(bs[1..], i - 1, name);
      }
      ReferencedSuffix(first, rest, name);
    }
  }

  lemma ReferencedPrefix(a: string, b: string, name: string)
    requires Referenced(a, name)
    ensures Referenced(a + b, name)
  {
    ReferencedInfix("", a, b, name);
    assert "" + a + b == a + b;
  }

  lemma ReferencedSuffix(a: string, b: string, name: string)
    requires Referenced(b, name)
    ensures Referenced(a + b, name)
  {
    ReferencedInfix(a, b, "", name);
    assert a + b + "" == a + b;
  }

  /** Every property the generated call binds after `id` names a placeholder of
      the message's rendering, and the placeholder, up to the comma of a
      choice, survives the top-level trim into the ICU text the id hashes. */
  lemma CallBindingsReferenced(message: CompositeMessage, b: Binding)
    requires WellFormed(From(CompositeVariant(message)))
    requires b in ChildExpressions(message.children)
    ensures Referenced(Render(From(CompositeVariant(message))), b.0)
    ensures Opened(ConvertMessageToIcu(From(CompositeVariant(message))), b.0)
  {
    var m := From(CompositeVariant(message));
    assert MessageExpressions(m) == ChildExpressions(message.children);
    BindingReferenced(m, b);
    ReferencedTrimmed(Render(m), b.0);
  }

  /** `name` opens a placeholder: `{name}`, `{name,`, `<name/>` or `<name>`.
      Each starts and ends with a character that is not whitespace. */
  predicate Opened(s: string, name: string) {
    || Contains(s, "{" + name + "}")
    || Contains(s, "{" + name + ",")
    || Contains(s, "<" + name + "/>")
    || Contains(s, "<" + name + ">")
  }

  /** Trimming the whole text keeps every placeholder it references. */
  lemma ReferencedTrimmed(s: string, name: string)
    requires Referenced(s, name)
    ensures Opened(RustTrim(s), name)
  {
    var brace, comma := "{" + name + "}", "{" + name + ",";
    var selfClosed, open := "<" + name + "/>", "<" + name + ">";
    if Contains(s, brace) {
      ContainsTrimmed(s, brace);
    } else if Contains(s, "{" + name + ", ") {
      PrefixContained(s, "{" + name + ", ", comma);
      ContainsTrimmed(s, comma);
    } else if Contains(s, selfClosed) {
      ContainsTrimmed(s, selfClosed);
    } else {
      ContainsTrimmed(s, open);
    }
  }

  /** A text holding a pattern holds every prefix of it. */
  lemma PrefixContained(s: string, pat: string, prefix: string)
    requires Contains(s, pat) && prefix <= pat
    ensures Contains(s, prefix)
  {
    var i: nat :| i <= |s| && OccursAt(s, pat, i);
    assert s[i..i + |prefix|] == s[i..i + |pat|][..|prefix|];
    assert OccursAt(s, prefix, i);
  }
}
