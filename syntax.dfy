/** The slice of the host syntax tree (swc's ECMAScript/JSX AST) that the
    pattern matchers and code generators inspect or build. Everything the core
    never looks into is folded into `OtherExpr`; source spans are reduced to
    the start positions the parsers ask comments and line numbers for. */
module Syntax {
  import opened Wrappers

  /** A literal. Numbers carry the text Rust's `to_string` gives their value. */
  datatype Literal =
    | Str(value: string)
    | Bool(flag: bool)
    | Num(display: string)
    | Null
    | OtherLiteral

  /** The key of an object-literal entry (swc `PropName`). */
  datatype PropName =
    | KeyIdent(name: string)
    | KeyStr(value: string)
    | KeyNum(display: string)
    | KeyBigInt(display: string)
    | KeyComputed(expr: Expr)

  /** An entry of an object literal: a key-value pair, or one of the shapes the
      core skips (shorthand, spread, method, getter, setter). */
  datatype ObjectProp =
    | KeyValue(key: PropName, value: Expr)
    | Shorthand(name: string)
    | Spread(expr: Expr)
    | OtherProp

  /** The property part of a member expression `obj.prop`. */
  datatype MemberProp =
    | MemberIdent(name: string)
    | MemberPrivate(name: string)
    | MemberComputed(expr: Expr)

  datatype Expr =
    | Ident(sym: string)
    /** A call; a `super(...)` or `import(...)` callee is an `OtherExpr`. */
    | Call(callee: Expr, args: seq<Expr>, calleePos: nat)
    | Member(obj: Expr, prop: MemberProp)
    | Object(props: seq<ObjectProp>)
    | Lit(lit: Literal)
    /** A tagged template: the raw text of each quasi and the embedded expressions. */
    | TaggedTpl(tag: Expr, quasis: seq<string>, exprs: seq<Expr>, tagPos: nat)
    | JsxElementExpr(element: JsxElement)
    | JsxFragmentExpr(fragment: JsxFragment)
    | OtherExpr(code: string)

  // ---------------------------------------------------------------------------
  // JSX

  datatype JsxObject =
    | ObjectIdent(sym: string)
    | ObjectMember(obj: JsxObject, prop: string)

  datatype JsxElementName =
    | NameIdent(sym: string)
    | NameMember(obj: JsxObject, prop: string)
    | NameNamespaced(ns: string, name: string)

  datatype JsxAttrName =
    | AttrIdent(sym: string)
    | AttrNamespaced(ns: string, name: string)

  datatype JsxExpr = JsxEmpty | JsxExprItem(expr: Expr)

  datatype JsxAttrValue =
    | ValueLit(lit: Literal)
    | ValueContainer(container: JsxExpr)
    | ValueElement(element: JsxElement)
    | ValueFragment(fragment: JsxFragment)

  datatype JsxAttrOrSpread =
    | Attr(name: JsxAttrName, value: Option<JsxAttrValue>)
    | SpreadAttr(expr: Expr)

  datatype JsxChild =
    | Text(value: string)
    | ChildElement(element: JsxElement)
    | ChildFragment(fragment: JsxFragment)
    | ChildContainer(container: JsxExpr)
    | ChildSpread(expr: Expr)

  datatype JsxFragment = JsxFragment(children: seq<JsxChild>, pos: nat)

  /** A JSX element: its opening tag's name and attributes, its children, whether
      the opening tag is self-closing, the name on its closing tag, and where it starts. */
  datatype JsxElement = JsxElement(
    name: JsxElementName,
    attrs: seq<JsxAttrOrSpread>,
    children: seq<JsxChild>,
    selfClosing: bool,
    closing: Option<JsxElementName>,
    pos: nat)

  // ---------------------------------------------------------------------------
  // Size of the part of a JSX tree the JSX pattern matcher descends into: child
  // elements, and elements written as `{<x/>}` attribute values.

  ghost function ElementSize(e: JsxElement): nat
    decreases e, 2
  {
    1 + ChildrenSize(e, |e.children|) + AttrsSize(e, |e.attrs|)
  }

  ghost function ChildrenSize(e: JsxElement, n: nat): nat
    requires n <= |e.children|
    decreases e, 1, n
  {
    if n == 0 then 0
    else
      ChildrenSize(e, n - 1)
      + match e.children[n - 1]
        case ChildElement(c) => ElementSize(c)
        case _ => 0
  }

  ghost function AttrsSize(e: JsxElement, n: nat): nat
    requires n <= |e.attrs|
    decreases e, 1, n
  {
    if n == 0 then 0
    else
      AttrsSize(e, n - 1)
      + match e.attrs[n - 1]
        case Attr(_, Some(ValueContainer(JsxExprItem(JsxElementExpr(c))))) => ElementSize(c)
        case _ => 0
  }

  lemma {:induction false} ChildrenSizeBound(e: JsxElement, n: nat, i: nat)
    requires i < n <= |e.children| && e.children[i].ChildElement?
    ensures ElementSize(e.children[i].element) <= ChildrenSize(e, n)
    decreases n
  {
    if i < n - 1 {
      ChildrenSizeBound(e, n - 1, i);
    }
  }

  lemma {:induction false} AttrsSizeBound(e: JsxElement, n: nat, i: nat, c: JsxElement)
    requires i < n <= |e.attrs|
    requires e.attrs[i].Attr? && e.attrs[i].value == Some(ValueContainer(JsxExprItem(JsxElementExpr(c))))
    ensures ElementSize(c) <= AttrsSize(e, n)
    decreases n
  {
    if i < n - 1 {
      AttrsSizeBound(e, n - 1, i, c);
    }
  }

  /** A child element is smaller than its parent. */
  lemma ChildSmaller(e: JsxElement, i: nat)
    requires i < |e.children| && e.children[i].ChildElement?
    ensures ElementSize(e.children[i].element) < ElementSize(e)
  {
    ChildrenSizeBound(e, |e.children|, i);
  }

  /** An element given as an attribute value is smaller than its owner. */
  lemma AttrSmaller(e: JsxElement, i: nat, c: JsxElement)
    requires i < |e.attrs| && e.attrs[i].Attr?
    requires e.attrs[i].value == Some(ValueContainer(JsxExprItem(JsxElementExpr(c))))
    ensures ElementSize(c) < ElementSize(e)
  {
    AttrsSizeBound(e, |e.attrs|, i, c);
  }

  lemma {:induction false} SameChildrenSize(e: JsxElement, f: JsxElement, n: nat)
    requires e.children == f.children && n <= |e.children|
    ensures ChildrenSize(f, n) == ChildrenSize(e, n)
    decreases n
  {
    if n > 0 {
      SameChildrenSize(e, f, n - 1);
    }
  }

  /** An attribute-free element with the same children is no larger. */
  lemma SameChildrenSmaller(e: JsxElement, f: JsxElement)
    requires e.children == f.children && f.attrs == []
    ensures ElementSize(f) <= ElementSize(e)
  {
    SameChildrenSize(e, f, |e.children|);
  }
}
