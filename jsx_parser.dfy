/** The pattern matcher for `<Say>` elements
    (packages/factory/src/features/jsx/parser.rs): container elements
    `<Say>...</Say>` become composites of their children, self-closing
    `<Say.Select _={v} male="..." other="..." />` elements become choices.

    As in the JS matcher, each parser is a method over the shared `Context`
    proved equal to a function of the counter value. Recursion runs through
    child elements and through elements written as attribute values; it is
    measured by `Syntax.ElementSize`, and the synthetic `<Say>` built for an
    unknown container element is ranked below the element it replaces. */
module JsxParser {
  import opened Wrappers
  import opened Text
  import opened Syntax
  import opened Messages
  import opened Context
  import opened JsParser

  // ---------------------------------------------------------------------------
  // Names and attributes

  /** `process_jsx_element`: `<Say>` has no kind, `<Say.X>` has kind `x`
      lowercased. Only the kinds select, ordinal and plural are ever acted on,
      and only ASCII letters lowercase into those, so ASCII lowercasing stands
      in for Unicode lowercasing here. */
  function ProcessJsxElement(e: JsxElement): (r: Option<(Expr, Option<string>)>)
    ensures r.Some? <==> e.name == NameIdent("Say") || (e.name.NameMember? && e.name.obj == ObjectIdent("Say"))
    ensures r.Some? ==> r.value.0 == Ident("Say") && (r.value.1.None? <==> e.name.NameIdent?)
    ensures r.Some? && e.name.NameMember? ==> r.value.1 == Some(AsciiLowerString(e.name.prop))
  {
    match e.name
    case NameIdent(sym) => if sym == "Say" then Some((Ident("Say"), None)) else None
    case NameMember(ObjectIdent(sym), prop) => if sym == "Say" then Some((Ident("Say"), Some(AsciiLowerString(prop)))) else None
    case _ => None
  }

  /** `use_attribute_name`: a namespaced name contributes its local part. */
  function AttributeName(name: JsxAttrName): string {
    match name
    case AttrIdent(sym) => sym
    case AttrNamespaced(_, local) => local
  }

  /** A branch key as written: `_` followed by a digit stands for the number
      (JSX attribute names cannot start with a digit), so the underscore goes. */
  function BranchKeyOf(name: string): (r: string)
    ensures name != "_" ==> r != "_"
    ensures |name| > 1 && name[0] == '_' && IsAsciiDigit(name[1]) ==> r == name[1..] && IsAsciiDigit(r[0])
    ensures !(|name| > 1 && name[0] == '_' && IsAsciiDigit(name[1])) ==> r == name
  {
    if |name| > 1 && name[0] == '_' && IsAsciiDigit(name[1]) then name[1..] else name
  }

  /** `find_attribute_value`: the value of the first plainly named attribute
      `key`, reading a valueless attribute as `true`. */
  function FindAttribute(attrs: seq<JsxAttrOrSpread>, key: string): (r: Option<JsxAttrValue>)
    ensures r.Some? ==> exists a <- attrs :: a.Attr? && a.name == AttrIdent(key) && r.value == a.value.GetOr(ValueLit(Bool(true)))
  {
    if attrs == [] then None
    else if attrs[0].Attr? && attrs[0].name == AttrIdent(key) then
      Some(attrs[0].value.GetOr(ValueLit(Bool(true))))
    else FindAttribute(attrs[1..], key)
  }

  /** The attribute found is the first one with that plain name. */
  lemma {:induction false} FindAttributeFirst(attrs: seq<JsxAttrOrSpread>, key: string)
    ensures FindAttribute(attrs, key).Some? <==>
      exists i :: 0 <= i < |attrs| && attrs[i].Attr? && attrs[i].name == AttrIdent(key)
    ensures forall i ::
      (0 <= i < |attrs| && attrs[i].Attr? && attrs[i].name == AttrIdent(key)
       && (forall j :: 0 <= j < i ==> !(attrs[j].Attr? && attrs[j].name == AttrIdent(key))))
      ==> FindAttribute(attrs, key) == Some(attrs[i].value.GetOr(ValueLit(Bool(true))))
  {
    if attrs != [] {
      var tail := attrs[1..];
      FindAttributeFirst(tail, key);
      forall i | 0 <= i < |attrs| && attrs[i].Attr? && attrs[i].name == AttrIdent(key)
        && (forall j :: 0 <= j < i ==> !(attrs[j].Attr? && attrs[j].name == AttrIdent(key)))
        ensures FindAttribute(attrs, key) == Some(attrs[i].value.GetOr(ValueLit(Bool(true))))
      {
        if i > 0 {
          assert tail[i - 1] == attrs[i];
          assert forall j :: 0 <= j < i - 1 ==> tail[j] == attrs[j + 1];
        }
      }
      if exists i :: 0 <= i < |attrs| && attrs[i].Attr? && attrs[i].name == AttrIdent(key) {
        var i :| 0 <= i < |attrs| && attrs[i].Attr? && attrs[i].name == AttrIdent(key);
        if i > 0 {
          assert tail[i - 1] == attrs[i];
        }
      }
      if FindAttribute(attrs, key).Some? && !(attrs[0].Attr? && attrs[0].name == AttrIdent(key)) {
        var i :| 0 <= i < |tail| && tail[i].Attr? && tail[i].name == AttrIdent(key);
        assert attrs[i + 1] == tail[i];
      }
    }
  }

  method FindAttributeValue(attrs: seq<JsxAttrOrSpread>, key: string) returns (r: Option<JsxAttrValue>)
    ensures r == FindAttribute(attrs, key)
  {
    var i := 0;
    while i < |attrs|
      invariant 0 <= i <= |attrs|
      invariant FindAttribute(attrs[i..], key) == FindAttribute(attrs, key)
    {
      assert attrs[i..][1..] == attrs[i + 1..];
      if attrs[i].Attr? && attrs[i].name.AttrIdent? && attrs[i].name.sym == key {
        match attrs[i].value
        case Some(v) => return Some(v);
        case None => return Some(ValueLit(Bool(true)));
      }
      i := i + 1;
    }
    return None;
  }

  /** `use_attribute_value`: the expression an attribute value stands for; an
      empty container `{}` stands for `true`. */
  function UseAttributeValue(v: JsxAttrValue): Expr {
    match v
    case ValueLit(l) => Lit(l)
    case ValueElement(el) => JsxElementExpr(el)
    case ValueFragment(f) => JsxFragmentExpr(f)
    case ValueContainer(JsxExprItem(x)) => x
    case ValueContainer(JsxEmpty) => Lit(Bool(true))
  }

  /** `create_fake_say_jsx_element`: `<Say>children</Say>` at no position. */
  function FakeSay(children: seq<JsxChild>): (r: JsxElement)
    ensures ProcessJsxElement(r) == Some((Ident("Say"), None)) && !r.selfClosing && r.attrs == []
  {
    JsxElement(NameIdent("Say"), [], children, false, Some(NameIdent("Say")), 0)
  }

  /** Ranks an element the matcher recognises below one it does not, so that
      re-parsing an unknown element's children as a `<Say>` counts as progress. */
  ghost function SayRank(e: JsxElement): nat {
    if ProcessJsxElement(e).Some? then 0 else 1
  }

  // ---------------------------------------------------------------------------
  // The matcher, as functions of the counter

  function Element(id: string, e: Expr): Message {
    From(ElementVariant(ElementMessage(id, [], e)))
  }

  function Argument(id: string, e: Expr): Message {
    From(ArgumentVariant(ArgumentMessage(id, e)))
  }

  /** `parse_jsx_element`. */
  function JsxElementMessage(env: Env, e: JsxElement, fallback: bool, n: nat): (r: (Option<Message>, nat))
    ensures n <= r.1
    ensures fallback ==> r.0.Some?
    ensures r.0.Some? ==> WellFormed(r.0.value)
    decreases ElementSize(e), SayRank(e), 3, 0
  {
    var (msg, n1) := if e.selfClosing then SelfClosingMessage(env, e, n) else ContainerMessage(env, e, n);
    if msg.Some? then (Some(From(CompositeVariant(msg.value))), n1)
    else if !fallback then (None, n1)
    else if e.selfClosing then
      var (id, n2) := NextState(n1);
      (Some(Element(id, JsxElementExpr(e))), n2)
    else
      var fake := FakeSay(e.children);
      SameChildrenSmaller(e, fake);
      var (id, n2) := NextState(n1);
      var (inner, n3) := JsxElementMessage(env, fake, true, n2);
      (Some(From(ElementVariant(ElementMessage(id, [inner.value], JsxElementExpr(e))))), n3)
  }

  /** `parse_jsx_container_element`. */
  function ContainerMessage(env: Env, e: JsxElement, n: nat): (r: (Option<CompositeMessage>, nat))
    ensures n <= r.1
    ensures r.0.None? ==> r.1 == n
    ensures r.0.Some? <==> ProcessJsxElement(e).Some? && !e.selfClosing
    ensures r.0.Some? ==> WellFormed(From(CompositeVariant(r.0.value)))
    decreases ElementSize(e), SayRank(e), 2, 0
  {
    match ProcessJsxElement(e)
    case None => (None, n)
    case Some((accessor, _)) =>
      if e.selfClosing then (None, n)
      else
        var (children, n1) := ContainerChildren(env, e, |e.children|, n);
        var c := CompositeMessage(None, None, GetPositionComments(env, e.pos), References(env, e.pos), children, accessor);
        CompositeWellFormed(c);
        (Some(c), n1)
  }

  lemma CompositeWellFormed(c: CompositeMessage)
    requires AllWellFormed(c.children)
    ensures WellFormed(From(CompositeVariant(c)))
  {
  }

  /** The messages of the first `i` children: text with its whitespace runs
      collapsed, elements parsed (falling back to placeholders), fragments as
      empty elements, expressions as arguments; empty `{}` and spreads vanish. */
  function ContainerChildren(env: Env, e: JsxElement, i: nat, n: nat): (r: (seq<Message>, nat))
    requires i <= |e.children|
    ensures n <= r.1
    ensures AllWellFormed(r.0)
    decreases ElementSize(e), SayRank(e), 1, i
  {
    if i == 0 then ([], n)
    else
      var (prev, m) := ContainerChildren(env, e, i - 1, n);
      match e.children[i - 1]
      case Text(v) => (prev + [From(LiteralVariant(LiteralMessage(CollapseWhitespace(v))))], m)
      case ChildElement(c) =>
        ChildSmaller(e, i - 1);
        var (msg, m1) := JsxElementMessage(env, c, true, m);
        (prev + [msg.value], m1)
      case ChildFragment(f) =>
        var (id, m1) := NextState(m);
        (prev + [Element(id, JsxFragmentExpr(f))], m1)
      case ChildContainer(JsxExprItem(x)) =>
        var (key, m1) := ExpressionKey(x, m);
        (prev + [Argument(key, x)], m1)
      case _ => (prev, m)
  }

  /** `parse_jsx_self_closing_element`. Unlike the source, a valueless
      attribute is skipped instead of unwrapped (see `ReachesUnwrap`). */
  function SelfClosingMessage(env: Env, e: JsxElement, n: nat): (r: (Option<CompositeMessage>, nat))
    ensures n <= r.1
    ensures r.0.Some? ==> WellFormed(From(CompositeVariant(r.0.value)))
    decreases ElementSize(e), SayRank(e), 2, 0
  {
    match ProcessJsxElement(e)
    case None => (None, n)
    case Some((accessor, kind)) =>
      if !e.selfClosing || !IsChoiceKind(kind) then (None, n)
      else
        var (branches, n1) := AttrBranches(env, e, |e.attrs|, n);
        match FindAttribute(e.attrs, "_")
        case None => (None, n1)
        case Some(init) =>
          var value := UseAttributeValue(init);
          var (identifier, n2) := ExpressionKey(value, n1);
          var choice := ChoiceMessage(kind.value, identifier, branches, value);
          var c := CompositeMessage(None, None, GetPositionComments(env, e.pos), References(env, e.pos),
                                    [From(ChoiceVariant(choice))], accessor);
          assert WellFormed(From(ChoiceVariant(choice)));
          CompositeWellFormed(c);
          (Some(c), n2)
  }

  /** The branches of the first `k` attributes. */
  function AttrBranches(env: Env, e: JsxElement, k: nat, n: nat): (r: (seq<ChoiceMessageBranch>, nat))
    requires k <= |e.attrs|
    ensures n <= r.1
    ensures forall b <- r.0 :: WellFormed(b.value) && b.key != "_"
    decreases ElementSize(e), SayRank(e), 1, k
  {
    if k == 0 then ([], n)
    else
      var (prev, m) := AttrBranches(env, e, k - 1, n);
      var attr := e.attrs[k - 1];
      if !attr.Attr? || attr.value.None? || AttributeName(attr.name) == "_" then (prev, m)
      else
        var (msg, m1) := AttrValueMessage(env, e, k - 1, m);
        if msg.Some? then (prev + [ChoiceMessageBranch(BranchKeyOf(AttributeName(attr.name)), msg.value)], m1)
        else (prev, m1)
  }

  /** The message of one attribute's value: a string is text, another literal
      an argument, `{<x/>}` a parsed element, `{<>...</>}` an empty element,
      any other `{expr}` an argument; `{}` and bare elements give nothing. */
  function AttrValueMessage(env: Env, e: JsxElement, k: nat, n: nat): (r: (Option<Message>, nat))
    requires k < |e.attrs| && e.attrs[k].Attr? && e.attrs[k].value.Some?
    ensures n <= r.1
    ensures r.0.Some? ==> WellFormed(r.0.value)
    ensures r.0.None? ==> r.1 == n
    decreases ElementSize(e), SayRank(e), 0, 0
  {
    match e.attrs[k].value.value
    case ValueLit(Str(s)) => (Some(From(LiteralVariant(LiteralMessage(s)))), n)
    case ValueLit(l) =>
      var (key, n1) := ExpressionKey(Lit(l), n);
      (Some(Argument(key, Lit(l))), n1)
    case ValueContainer(JsxExprItem(x)) =>
      (match x
       case JsxElementExpr(c) =>
         AttrSmaller(e, k, c);
         JsxElementMessage(env, c, true, n)
       case JsxFragmentExpr(_) =>
         var (id, n1) := NextState(n);
         (Some(Element(id, x)), n1)
       case _ =>
         var (key, n1) := ExpressionKey(x, n);
         (Some(Argument(key, x)), n1))
    case _ => (None, n)
  }

  // ---------------------------------------------------------------------------
  // The matcher, as methods over the context

  method ParseJsxElement(ctx: Context, e: JsxElement, fallback: bool) returns (r: Option<Message>)
    modifies ctx.identifierStore
    ensures (r, ctx.identifierStore.current) == JsxElementMessage(ctx.Environment(), e, fallback, old(ctx.identifierStore.current))
    decreases ElementSize(e), SayRank(e), 3, 0
  {
    var msg: Option<CompositeMessage>;
    if e.selfClosing {
      msg := ParseJsxSelfClosingElement(ctx, e);
    } else {
      msg := ParseJsxContainerElement(ctx, e);
    }
    if msg.Some? {
      r := Some(From(CompositeVariant(msg.value)));
    } else if !fallback {
      r := None;
    } else if e.selfClosing {
      var id := ctx.identifierStore.Next();
      r := Some(Element(id, JsxElementExpr(e)));
    } else {
      var fake := FakeSay(e.children);
      SameChildrenSmaller(e, fake);
      var preloaded := ctx.identifierStore.Next();
      var inner := ParseJsxElement(ctx, fake, true);
      r := Some(From(ElementVariant(ElementMessage(preloaded, [inner.value], JsxElementExpr(e)))));
    }
  }

  method ParseJsxContainerElement(ctx: Context, e: JsxElement) returns (r: Option<CompositeMessage>)
    modifies ctx.identifierStore
    ensures (r, ctx.identifierStore.current) == ContainerMessage(ctx.Environment(), e, old(ctx.identifierStore.current))
    decreases ElementSize(e), SayRank(e), 2, 0
  {
    var processed := ProcessJsxElement(e);
    if processed.None? || e.selfClosing {
      return None;
    }
    ghost var n0 := ctx.identifierStore.current;
    var children: seq<Message> := [];
    var i := 0;
    while i < |e.children|
      invariant 0 <= i <= |e.children|
      invariant (children, ctx.identifierStore.current) == ContainerChildren(ctx.Environment(), e, i, n0)
    {
      match e.children[i] {
        case Text(v) =>
          children := children + [From(LiteralVariant(LiteralMessage(CollapseWhitespace(v))))];
        case ChildElement(c) =>
          ChildSmaller(e, i);
          var msg := ParseJsxElement(ctx, c, true);
          children := children + [msg.value];
        case ChildFragment(f) =>
          var id := ctx.identifierStore.Next();
          children := children + [Element(id, JsxFragmentExpr(f))];
        case ChildContainer(JsxExprItem(x)) =>
          var key := UseExpressionKey(ctx, x);
          children := children + [Argument(key, x)];
        case _ =>
      }
      i := i + 1;
    }
    var env := ctx.Environment();
    r := Some(CompositeMessage(None, None, GetPositionComments(env, e.pos), References(env, e.pos), children, processed.value.0));
  }

  method ParseJsxSelfClosingElement(ctx: Context, e: JsxElement) returns (r: Option<CompositeMessage>)
    modifies ctx.identifierStore
    ensures (r, ctx.identifierStore.current) == SelfClosingMessage(ctx.Environment(), e, old(ctx.identifierStore.current))
    decreases ElementSize(e), SayRank(e), 2, 0
  {
    var processed := ProcessJsxElement(e);
    if processed.None? || !e.selfClosing || !IsChoiceKind(processed.value.1) {
      return None;
    }
    ghost var n0 := ctx.identifierStore.current;
    var branches: seq<ChoiceMessageBranch> := [];
    var k := 0;
    while k < |e.attrs|
      invariant 0 <= k <= |e.attrs|
      invariant (branches, ctx.identifierStore.current) == AttrBranches(ctx.Environment(), e, k, n0)
    {
      var attr := e.attrs[k];
      if attr.Attr? && attr.value.Some? && AttributeName(attr.name) != "_" {
        var msg := ParseAttrValue(ctx, e, k);
        if msg.Some? {
          branches := branches + [ChoiceMessageBranch(BranchKeyOf(AttributeName(attr.name)), msg.value)];
        }
      }
      k := k + 1;
    }
    var initializer := FindAttributeValue(e.attrs, "_");
    if initializer.None? {
      return None;
    }
    var value := UseAttributeValue(initializer.value);
    var identifier := UseExpressionKey(ctx, value);
    var choice := ChoiceMessage(processed.value.1.value, identifier, branches, value);
    var env := ctx.Environment();
    r := Some(CompositeMessage(None, None, GetPositionComments(env, e.pos), References(env, e.pos),
                               [From(ChoiceVariant(choice))], processed.value.0));
  }

  /** The value match of the branch loop (lines 165-195) for attribute `k`. */
  method ParseAttrValue(ctx: Context, e: JsxElement, k: nat) returns (r: Option<Message>)
    requires k < |e.attrs| && e.attrs[k].Attr? && e.attrs[k].value.Some?
    modifies ctx.identifierStore
    ensures (r, ctx.identifierStore.current) == AttrValueMessage(ctx.Environment(), e, k, old(ctx.identifierStore.current))
    decreases ElementSize(e), SayRank(e), 0, 0
  {
    match e.attrs[k].value.value
    case ValueLit(Str(s)) => r := Some(From(LiteralVariant(LiteralMessage(s))));
    case ValueLit(l) =>
      var key := UseExpressionKey(ctx, Lit(l));
      r := Some(Argument(key, Lit(l)));
    case ValueContainer(JsxExprItem(x)) =>
      if x.JsxElementExpr? {
        AttrSmaller(e, k, x.element);
        r := ParseJsxElement(ctx, x.element, true);
      } else if x.JsxFragmentExpr? {
        var id := ctx.identifierStore.Next();
        r := Some(Element(id, x));
      } else {
        var key := UseExpressionKey(ctx, x);
        r := Some(Argument(key, x));
      }
    case _ => r := None;
  }

  // ---------------------------------------------------------------------------
  // Properties of the matcher

  /** An element the matcher does not recognise, met as a child, becomes an
      element placeholder whose identifier is taken before any of its own
      children's, wrapping the `<Say>` parse of its children. */
  /** A self-closing tag that is not a message falls back to an element with
      no children, whose identifier is drawn after the attempt. */
  lemma SelfClosingFallback(env: Env, e: JsxElement, n: nat)
    requires e.selfClosing && SelfClosingMessage(env, e, n).0.None?
    ensures var (r, after) := JsxElementMessage(env, e, true, n);
      var attempted := SelfClosingMessage(env, e, n).1;
      && r.Some? && r.value.element.Some?
      && r.value.element.value.identifier == NextState(attempted).0
      && r.value.element.value.children == []
      && after == attempted + 1
  {
  }

  lemma FallbackPreloadsIdentifier(env: Env, e: JsxElement, n: nat)
    requires !e.selfClosing && ProcessJsxElement(e).None?
    ensures var m := JsxElementMessage(env, e, true, n).0.value;
      && m.element.Some?
      && m.element.value.identifier == NextState(n).0
      && |m.element.value.children| == 1
      && m.element.value.children[0].composite
         == ContainerMessage(env, FakeSay(e.children), n + 1).0
  {
  }

  /** The synthetic `<Say>` always parses, so the fallback's recovery path
      (handing the preloaded identifier back) is never taken. */
  lemma FakeSayAlwaysParses(env: Env, children: seq<JsxChild>, n: nat)
    ensures ContainerMessage(env, FakeSay(children), n).0.Some?
    ensures JsxElementMessage(env, FakeSay(children), false, n).0.Some?
  {
  }

  /** The number of children that produce a message: all but empty
      expression containers and spreads. */
  function MessageChildCount(children: seq<JsxChild>, i: nat): nat
    requires i <= |children|
  {
    if i == 0 then 0
    else
      MessageChildCount(children, i - 1)
      + (if children[i - 1].ChildSpread? || children[i - 1] == ChildContainer(JsxEmpty) then 0 else 1)
  }

  /** No two whitespace characters in a row. */
  predicate NoWhitespaceRun(s: string) {
    forall k :: 0 <= k < |s| - 1 ==> !(IsRustWhitespace(s[k]) && IsRustWhitespace(s[k + 1]))
  }

  /** Every literal among `ms` is free of whitespace runs. */
  predicate LiteralsCollapsed(ms: seq<Message>) {
    forall m <- ms :: m.literal.Some? ==> NoWhitespaceRun(m.literal.value.text)
  }

  /** One message per child, except empty `{}` and spreads; text children
      come out with no two whitespace characters in a row. */
  lemma ContainerChildrenOnePerChild(env: Env, e: JsxElement, i: nat, n: nat)
    requires i <= |e.children|
    ensures |ContainerChildren(env, e, i, n).0| == MessageChildCount(e.children, i)
    ensures LiteralsCollapsed(ContainerChildren(env, e, i, n).0)
  {
    ContainerChildrenCount(env, e, i, n);
    ContainerChildrenCollapsed(env, e, i, n);
  }

  lemma {:induction false} ContainerChildrenCount(env: Env, e: JsxElement, i: nat, n: nat)
    requires i <= |e.children|
    ensures |ContainerChildren(env, e, i, n).0| == MessageChildCount(e.children, i)
    decreases i
  {
    if i > 0 {
      ContainerChildrenCount(env, e, i - 1, n);
      ContainerChildrenCountStep(env, e, i, n);
    }
  }

  lemma ContainerChildrenCountStep(env: Env, e: JsxElement, i: nat, n: nat)
    requires 0 < i <= |e.children|
    ensures |ContainerChildren(env, e, i, n).0| == |ContainerChildren(env, e, i - 1, n).0|
      + (if e.children[i - 1].ChildSpread? || e.children[i - 1] == ChildContainer(JsxEmpty) then 0 else 1)
  {
    match e.children[i - 1]
    case Text(v) =>
    case ChildElement(c) =>
    case ChildFragment(f) =>
    case ChildContainer(x) =>
    case _ =>
  }

  lemma {:induction false} ContainerChildrenCollapsed(env: Env, e: JsxElement, i: nat, n: nat)
    requires i <= |e.children|
    ensures LiteralsCollapsed(ContainerChildren(env, e, i, n).0)
    decreases i
  {
    if i > 0 {
      ContainerChildrenCollapsed(env, e, i - 1, n);
      match e.children[i - 1]
      case Text(v) => CollapsedText(env, e, i, n, v);
      case ChildElement(c) => CollapsedElement(env, e, i, n, c);
      case _ => CollapsedOther(env, e, i, n);
    }
  }

  lemma CollapsedText(env: Env, e: JsxElement, i: nat, n: nat, v: string)
    requires 0 < i <= |e.children| && e.children[i - 1] == Text(v)
    requires LiteralsCollapsed(ContainerChildren(env, e, i - 1, n).0)
    ensures LiteralsCollapsed(ContainerChildren(env, e, i, n).0)
  {
    CollapsedSnoc(ContainerChildren(env, e, i - 1, n).0, From(LiteralVariant(LiteralMessage(CollapseWhitespace(v)))));
  }

  lemma CollapsedElement(env: Env, e: JsxElement, i: nat, n: nat, c: JsxElement)
    requires 0 < i <= |e.children| && e.children[i - 1] == ChildElement(c)
    requires LiteralsCollapsed(ContainerChildren(env, e, i - 1, n).0)
    ensures LiteralsCollapsed(ContainerChildren(env, e, i, n).0)
  {
    var (prev, m) := ContainerChildren(env, e, i - 1, n);
    ElementIsNoLiteral(env, c, m);
    CollapsedSnoc(prev, JsxElementMessage(env, c, true, m).0.value);
  }

  lemma CollapsedOther(env: Env, e: JsxElement, i: nat, n: nat)
    requires 0 < i <= |e.children| && !e.children[i - 1].Text? && !e.children[i - 1].ChildElement?
    requires LiteralsCollapsed(ContainerChildren(env, e, i - 1, n).0)
    ensures LiteralsCollapsed(ContainerChildren(env, e, i, n).0)
  {
    var (prev, m) := ContainerChildren(env, e, i - 1, n);
    match e.children[i - 1]
    case ChildFragment(f) =>
      CollapsedSnoc(prev, Element(NextState(m).0, JsxFragmentExpr(f)));
    case ChildContainer(JsxExprItem(x)) =>
      CollapsedSnoc(prev, Argument(ExpressionKey(x, m).0, x));
    case _ =>
  }

  /** An element child never becomes a literal message. */
  lemma ElementIsNoLiteral(env: Env, c: JsxElement, n: nat)
    ensures JsxElementMessage(env, c, true, n).0.value.literal.None?
  {
  }

  lemma CollapsedSnoc(prev: seq<Message>, m: Message)
    requires LiteralsCollapsed(prev)
    requires m.literal.Some? ==> NoWhitespaceRun(m.literal.value.text)
    ensures LiteralsCollapsed(prev + [m])
  {
  }

  /** A self-closing `<Say.Kind>` is a message exactly when its kind is a
      choice kind and it has a `_` attribute, whose value becomes the
      choice's expression. */
  lemma SelfClosingMessageWhen(env: Env, e: JsxElement, n: nat)
    requires e.selfClosing && ProcessJsxElement(e).Some?
    ensures SelfClosingMessage(env, e, n).0.Some? <==>
      IsChoiceKind(ProcessJsxElement(e).value.1) && FindAttribute(e.attrs, "_").Some?
    ensures SelfClosingMessage(env, e, n).0.Some? ==>
      var m := SelfClosingMessage(env, e, n).0.value;
      && |m.children| == 1 && m.children[0].choice.Some?
      && m.children[0].choice.value.expression == UseAttributeValue(FindAttribute(e.attrs, "_").value)
      && Some(m.children[0].choice.value.kind) == ProcessJsxElement(e).value.1
  {
  }

  lemma ProcessJsxExamples()
    ensures ProcessJsxElement(JsxElement(NameIdent("Say"), [], [], false, None, 0)) == Some((Ident("Say"), None))
    ensures ProcessJsxElement(JsxElement(NameMember(ObjectIdent("Say"), "Plural"), [], [], true, None, 0))
         == Some((Ident("Say"), Some("plural")))
    ensures ProcessJsxElement(JsxElement(NameIdent("span"), [], [], false, None, 0)).None?
    ensures ProcessJsxElement(JsxElement(NameMember(ObjectIdent("Intl"), "Say"), [], [], true, None, 0)).None?
  {
    assert AsciiLowerString("Plural") == "plural" by {
      assert AsciiLower('P') == 'p';
    }
  }

  // ---------------------------------------------------------------------------
  // Finding: valueless attributes in a self-closing `<Say.Kind />`

  /** As written, the branch loop unwraps every attribute's value before it
      looks at the name (line 157), so a self-closing choice element with any
      valueless attribute, `_` included, aborts the transform. */
  predicate ReachesUnwrap(e: JsxElement) {
    && e.selfClosing
    && ProcessJsxElement(e).Some?
    && IsChoiceKind(ProcessJsxElement(e).value.1)
    && exists i :: 0 <= i < |e.attrs| && e.attrs[i].Attr? && e.attrs[i].value.None?
  }

  /** `<Say.Select _ other="x" />`. */
  const ValuelessSelector: JsxElement :=
    JsxElement(NameMember(ObjectIdent("Say"), "select"),
               [Attr(AttrIdent("_"), None), Attr(AttrIdent("other"), Some(ValueLit(Str("x"))))],
               [], true, None, 0)

  /** The element aborts as written, although `find_attribute_value` was
      written to read its valueless `_` as `true`. */
  lemma ValuelessSelectorAborts()
    ensures ReachesUnwrap(ValuelessSelector)
    ensures FindAttribute(ValuelessSelector.attrs, "_") == Some(ValueLit(Bool(true)))
  {
    assert AsciiLowerString("select") == "select";
    assert ValuelessSelector.attrs[0].Attr? && ValuelessSelector.attrs[0].value.None?;
  }

  /** With valueless attributes skipped, the same element is a choice on
      `true` with its one `other` branch. */
  lemma ValuelessSelectorParses(env: Env, n: nat)
    ensures var r := SelfClosingMessage(env, ValuelessSelector, n).0;
      && r.Some?
      && r.value.children[0].choice.value.expression == Lit(Bool(true))
      && r.value.children[0].choice.value.branches
         == [ChoiceMessageBranch("other", From(LiteralVariant(LiteralMessage("x"))))]
  {
    assert AsciiLowerString("select") == "select";
    var e := ValuelessSelector;
    assert ProcessJsxElement(e) == Some((Ident("Say"), Some("select")));
    assert FindAttribute(e.attrs, "_") == Some(ValueLit(Bool(true)));
    ValuelessSelectorBranches(env, n);
    var (branches, n1) := AttrBranches(env, e, 2, n);
    var choice := ChoiceMessage("select", ExpressionKey(Lit(Bool(true)), n1).0, branches, Lit(Bool(true)));
    assert SelfClosingMessage(env, e, n).0.value.children == [From(ChoiceVariant(choice))];
  }

  /** Its one valued attribute gives the `other` branch. */
  lemma ValuelessSelectorBranches(env: Env, n: nat)
    ensures AttrBranches(env, ValuelessSelector, 2, n).0
         == [ChoiceMessageBranch("other", From(LiteralVariant(LiteralMessage("x"))))]
  {
    var e := ValuelessSelector;
    assert AttrBranches(env, e, 1, n) == ([], n);
    assert AttributeName(e.attrs[1].name) == "other";
    assert BranchKeyOf("other") == "other";
  }
}
