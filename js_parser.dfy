/** The pattern matcher for `say` calls and tagged templates
    (packages/factory/src/features/js/parser.rs).

    Each parser is a method over the shared `Context`, whose counter it
    advances when it needs an anonymous identifier. Each method is proved to
    compute what a pure function of the counter value computes; the
    properties of the matcher are proved about those functions. */
module JsParser {
  import opened Wrappers
  import opened Text
  import opened Syntax
  import opened Messages
  import opened Context

  // ---------------------------------------------------------------------------
  // Classifying accessors

  /** What `process_expression` finds: the accessor (`say` or `x.say`), the
      descriptor object literal given in a call, and the last member name. */
  datatype Classified = Classified(accessor: Expr, descriptor: Option<seq<ObjectProp>>, kind: Option<string>)

  /** An accessor is the identifier `say` or a member access `<obj>.say`. */
  predicate IsAccessor(e: Expr) {
    e == Ident("say") || (e.Member? && e.prop == MemberIdent("say"))
  }

  /** `process_expression`: recognises `say`, `<obj>.say`, a call of either with
      one object literal (the descriptor) and a member of any of these (the
      kind); whatever classifies was reached from an accessor. */
  function ProcessExpression(e: Expr): (r: Option<Classified>)
    ensures r.Some? ==> IsAccessor(r.value.accessor)
    decreases e
  {
    match e
    case Ident(sym) => if sym == "say" then Some(Classified(e, None, None)) else None
    case Call(callee, args, _) =>
      (match ProcessExpression(callee)
       case None => None
       case Some(c) =>
         if |args| == 1 && args[0].Object? then Some(Classified(c.accessor, Some(args[0].props), None)) else None)
    case Member(obj, prop) =>
      (match ProcessExpression(obj)
       case Some(c) => Some(Classified(c.accessor, c.descriptor, if prop.MemberIdent? then Some(prop.name) else None))
       case None => if prop.MemberIdent? && prop.name == "say" then Some(Classified(e, None, None)) else None)
    case _ => None
  }

  /** A call classifies exactly when its callee does and its one argument is an
      object literal, which becomes the descriptor; a call never has a kind. */
  lemma ProcessCall(callee: Expr, args: seq<Expr>, pos: nat)
    ensures ProcessExpression(Call(callee, args, pos)).Some?
        <==> ProcessExpression(callee).Some? && |args| == 1 && args[0].Object?
    ensures ProcessExpression(Call(callee, args, pos)).Some? ==>
              ProcessExpression(Call(callee, args, pos)).value
                == Classified(ProcessExpression(callee).value.accessor, Some(args[0].props), None)
  {
  }

  /** A member of a classified object takes its property name as kind; a member
      `.say` of anything else is itself the accessor. */
  lemma ProcessMember(obj: Expr, prop: MemberProp)
    ensures ProcessExpression(obj).Some? && prop.MemberIdent? ==>
              ProcessExpression(Member(obj, prop)).Some? && ProcessExpression(Member(obj, prop)).value.kind == Some(prop.name)
    ensures ProcessExpression(obj).None? ==>
              (ProcessExpression(Member(obj, prop)).Some? <==> prop == MemberIdent("say"))
  {
  }

  lemma ProcessExamples()
    ensures ProcessExpression(Ident("say")) == Some(Classified(Ident("say"), None, None))
    ensures ProcessExpression(Member(Ident("say"), MemberIdent("plural")))
         == Some(Classified(Ident("say"), None, Some("plural")))
    ensures ProcessExpression(Member(Ident("intl"), MemberIdent("say")))
         == Some(Classified(Member(Ident("intl"), MemberIdent("say")), None, None))
    ensures ProcessExpression(Member(Call(Ident("say"), [Object([])], 0), MemberIdent("select")))
         == Some(Classified(Ident("say"), Some([]), Some("select")))
    ensures ProcessExpression(Member(Ident("t"), MemberIdent("plural"))).None?
    ensures ProcessExpression(Call(Ident("say"), [], 0)).None?
  {
  }

  // ---------------------------------------------------------------------------
  // Descriptor properties

  /** `find_property_value`: the value of the first `key: value` entry named
      `key`; an entry whose key is not an identifier ends the search with nothing. */
  function FindProperty(props: seq<ObjectProp>, key: string): (r: Option<Expr>)
    ensures r.Some? ==> KeyValue(KeyIdent(key), r.value) in props
  {
    if props == [] then None
    else match props[0]
      case KeyValue(k, v) =>
        if !k.KeyIdent? then None
        else if k.name == key then Some(v)
        else FindProperty(props[1..], key)
      case _ => FindProperty(props[1..], key)
  }

  /** No key-value entry before `i` stops the search or matches `key`. */
  predicate PassedOver(props: seq<ObjectProp>, key: string, i: nat)
    requires i <= |props|
  {
    forall j :: 0 <= j < i && props[j].KeyValue? ==> props[j].key.KeyIdent? && props[j].key.name != key
  }

  /** The search finds `v` exactly when some entry `key: v` is preceded only by
      entries it passes over. */
  lemma {:induction false} FindPropertyFirst(props: seq<ObjectProp>, key: string, v: Expr)
    ensures FindProperty(props, key) == Some(v) <==>
      exists i :: 0 <= i < |props| && props[i] == KeyValue(KeyIdent(key), v) && PassedOver(props, key, i)
  {
    if props != [] {
      FindPropertyFirst(props[1..], key, v);
      if FindProperty(props, key) == Some(v) {
        if props[0] != KeyValue(KeyIdent(key), v) {
          var i :| 0 <= i < |props[1..]| && props[1..][i] == KeyValue(KeyIdent(key), v) && PassedOver(props[1..], key, i);
          assert props[i + 1] == KeyValue(KeyIdent(key), v);
          assert PassedOver(props, key, i + 1) by {
            forall j | 0 <= j < i + 1 && props[j].KeyValue?
              ensures props[j].key.KeyIdent? && props[j].key.name != key
            {
              if j > 0 {
                assert props[j] == props[1..][j - 1];
              }
            }
          }
        } else {
          assert PassedOver(props, key, 0);
        }
      } else if exists i :: 0 <= i < |props| && props[i] == KeyValue(KeyIdent(key), v) && PassedOver(props, key, i) {
        var i :| 0 <= i < |props| && props[i] == KeyValue(KeyIdent(key), v) && PassedOver(props, key, i);
        if i > 0 {
          assert props[1..][i - 1] == KeyValue(KeyIdent(key), v);
          assert PassedOver(props[1..], key, i - 1) by {
            forall j | 0 <= j < i - 1 && props[1..][j].KeyValue?
              ensures props[1..][j].key.KeyIdent? && props[1..][j].key.name != key
            {
              assert props[1..][j] == props[j + 1];
            }
          }
        }
      }
    }
  }

  method FindPropertyValue(props: seq<ObjectProp>, key: string) returns (r: Option<Expr>)
    ensures r == FindProperty(props, key)
  {
    var i := 0;
    while i < |props|
      invariant 0 <= i <= |props|
      invariant FindProperty(props[i..], key) == FindProperty(props, key)
    {
      assert props[i..][1..] == props[i + 1..];
      if props[i].KeyValue? {
        if !props[i].key.KeyIdent? {
          return None;
        }
        if props[i].key.name == key {
          return Some(props[i].value);
        }
      }
      i := i + 1;
    }
    return None;
  }

  /** The context of a descriptor: its `context` property, when that is a string literal. */
  function DescriptorContext(descriptor: Option<seq<ObjectProp>>): Option<string> {
    match descriptor
    case None => None
    case Some(props) =>
      match FindProperty(props, "context")
      case Some(Lit(Str(s))) => Some(s)
      case _ => None
  }

  // ---------------------------------------------------------------------------
  // Translator comments and source references

  /** One leading comment, kept when its trimmed text starts with `translators:`
      in any letter case, as the trimmed remainder. Only ASCII letters can
      lowercase into that prefix, so comparing the first twelve characters
      without ASCII case is the same test as lowercasing the whole text. */
  function TranslatorComment(raw: string): (r: Option<string>)
    ensures r.Some? ==> RustTrim(r.value) == r.value
  {
    var text := RustTrim(raw);
    if |text| >= 12 && AsciiLowerString(text[..12]) == "translators:" then
      RustTrimIdempotent(text[12..]);
      Some(RustTrim(text[12..]))
    else None
  }

  /** A comment whose trimmed text opens with twelve characters reading
      `translators:` in any ASCII letter case gives the trimmed rest. */
  lemma TranslatorCommentPrefix(raw: string, p: string, rest: string)
    requires RustTrim(raw) == p + rest && |p| == 12 && AsciiLowerString(p) == "translators:"
    ensures TranslatorComment(raw) == Some(RustTrim(rest))
  {
    var text := RustTrim(raw);
    assert text[..12] == p;
    assert text[12..] == rest;
  }

  /** Any other comment is dropped. */
  lemma TranslatorCommentOther(raw: string)
    requires |RustTrim(raw)| < 12 || AsciiLowerString(RustTrim(raw)[..12]) != "translators:"
    ensures TranslatorComment(raw).None?
  {
  }

  /** The letter case of the marker does not matter, and the note is trimmed:
      `TRANSLATORS: <note>` gives `<note>`. */
  lemma TranslatorCommentUpperCase(note: string)
    requires note != [] && !IsRustWhitespace(note[0]) && !IsRustWhitespace(note[|note| - 1])
    ensures TranslatorComment("TRANSLATORS: " + note) == Some(note)
  {
    var raw := "TRANSLATORS: " + note;
    assert raw[0] == 'T' && raw[|raw| - 1] == note[|note| - 1];
    TrimmedAlready(raw);
    assert raw == "TRANSLATORS:" + (" " + note);
    MarkerLowercases();
    TranslatorCommentPrefix(raw, "TRANSLATORS:", " " + note);
    TrimOneLeading(note);
  }

  lemma MarkerLowercases()
    ensures AsciiLowerString("TRANSLATORS:") == "translators:"
  {
    var r := AsciiLowerString("TRANSLATORS:");
    assert forall k :: 0 <= k < 12 ==> r[k] == "translators:"[k];
  }

  lemma TrimOneLeading(s: string)
    requires s != [] && !IsRustWhitespace(s[0]) && !IsRustWhitespace(s[|s| - 1])
    ensures RustTrim(" " + s) == s
  {
    var p := " " + s;
    assert TrimStart(p, IsRustWhitespace) == s by {
      assert p[1..] == s;
    }
    TrimmedAlready(s);
  }

  /** The values present in a sequence of options, in order (`filter_map`). */
  function Present(xs: seq<Option<string>>): seq<string> {
    if xs == [] then []
    else if xs[0].Some? then [xs[0].value] + Present(xs[1..])
    else Present(xs[1..])
  }

  /** Every value present is kept, and nothing else is. */
  lemma {:induction false} PresentKeeps(xs: seq<Option<string>>, c: string)
    ensures c in Present(xs) <==> Some(c) in xs
  {
    if xs != [] {
      PresentKeeps(xs[1..], c);
      assert xs == [xs[0]] + xs[1..];
    }
  }

  /** `filter_map` keeps the order: what is kept from `xs + ys` is what is
      kept from `xs`, then what is kept from `ys`. */
  lemma {:induction false} PresentAppend(xs: seq<Option<string>>, ys: seq<Option<string>>)
    ensures Present(xs + ys) == Present(xs) + Present(ys)
    decreases |xs|
  {
    if xs == [] {
      assert xs + ys == ys;
    } else {
      assert (xs + ys)[0] == xs[0];
      assert (xs + ys)[1..] == xs[1..] + ys;
      PresentAppend(xs[1..], ys);
      if xs[0].Some? {
        assert [xs[0].value] + (Present(xs[1..]) + Present(ys)) == ([xs[0].value] + Present(xs[1..])) + Present(ys);
      }
    }
  }

  lemma PresentOne(x: Option<string>)
    ensures Present([x]) == if x.Some? then [x.value] else []
  {
    assert [x][1..] == [];
  }

  lemma {:induction false} PresentFewer(xs: seq<Option<string>>)
    ensures |Present(xs)| <= |xs|
  {
    if xs != [] {
      PresentFewer(xs[1..]);
    }
  }

  function TranslatorComments(raws: seq<string>): (r: seq<string>)
    ensures |r| <= |raws|
  {
    var xs := seq(|raws|, i requires 0 <= i < |raws| => TranslatorComment(raws[i]));
    PresentFewer(xs);
    Present(xs)
  }

  /** The comments kept are exactly the translator notes among the leading comments. */
  lemma TranslatorCommentsKept(raws: seq<string>, c: string)
    ensures c in TranslatorComments(raws) <==> exists i :: 0 <= i < |raws| && TranslatorComment(raws[i]) == Some(c)
    ensures |TranslatorComments(raws)| <= |raws|
  {
    var xs := seq(|raws|, i requires 0 <= i < |raws| => TranslatorComment(raws[i]));
    PresentKeeps(xs, c);
    PresentFewer(xs);
    assert forall i :: 0 <= i < |raws| ==> xs[i] == TranslatorComment(raws[i]);
    if Some(c) in xs {
      var i :| 0 <= i < |xs| && xs[i] == Some(c);
      assert TranslatorComment(raws[i]) == Some(c);
    } else {
      assert forall i :: 0 <= i < |raws| ==> TranslatorComment(raws[i]) != Some(c);
    }
  }

  /** The notes keep the order of the comments: those of `a + b` are the
      notes of `a`, then the notes of `b`. */
  lemma TranslatorCommentsAppend(a: seq<string>, b: seq<string>)
    ensures TranslatorComments(a + b) == TranslatorComments(a) + TranslatorComments(b)
  {
    var xa := seq(|a|, i requires 0 <= i < |a| => TranslatorComment(a[i]));
    var xb := seq(|b|, i requires 0 <= i < |b| => TranslatorComment(b[i]));
    var ab := a + b;
    var xab := seq(|ab|, i requires 0 <= i < |ab| => TranslatorComment(ab[i]));
    assert xab == xa + xb;
    PresentAppend(xa, xb);
  }

  /** A single comment gives its note, or nothing. */
  lemma TranslatorCommentsOne(raw: string)
    ensures TranslatorComments([raw]) == if TranslatorComment(raw).Some? then [TranslatorComment(raw).value] else []
  {
    var xs := seq(1, i requires 0 <= i < 1 => TranslatorComment([raw][i]));
    assert xs == [TranslatorComment(raw)];
    PresentOne(TranslatorComment(raw));
  }

  /** `get_position_comments`. */
  function GetPositionComments(env: Env, pos: nat): (r: seq<string>)
    ensures pos !in env.comments ==> r == []
    ensures pos in env.comments ==> |r| <= |env.comments[pos]|
  {
    TranslatorComments(if pos in env.comments then env.comments[pos] else [])
  }

  /** The notes at a position are exactly the translator notes among the
      comments leading it. */
  lemma GetPositionCommentsKept(env: Env, pos: nat, c: string)
    ensures c in GetPositionComments(env, pos) <==>
      pos in env.comments && exists i :: 0 <= i < |env.comments[pos]| && TranslatorComment(env.comments[pos][i]) == Some(c)
  {
    if pos in env.comments {
      TranslatorCommentsKept(env.comments[pos], c);
    }
  }

  /** The first index whose line start lies after `pos` (Rust `partition_point`
      over the line starts, which are in increasing order). */
  function PartitionPoint(lines: seq<nat>, pos: nat): (r: nat)
    ensures r <= |lines|
    ensures forall k :: 0 <= k < r ==> lines[k] <= pos
    ensures r < |lines| ==> lines[r] > pos
  {
    if lines == [] || lines[0] > pos then 0
    else 1 + PartitionPoint(lines[1..], pos)
  }

  /** `SourceFile::lookup_line`: the zero-based line holding `pos`, if any. */
  function LookupLine(lines: seq<nat>, pos: nat): (r: Option<nat>)
    ensures r.Some? ==> r.value < |lines| && lines[r.value] <= pos
    ensures r.Some? && r.value + 1 < |lines| ==> pos < lines[r.value + 1]
    ensures r.None? <==> lines == [] || lines[0] > pos
  {
    if lines == [] then None
    else
      var p := PartitionPoint(lines, pos);
      if p == 0 then None else Some(p - 1)
  }

  /** `get_position_reference`: `<file name>:<one-based line>`. */
  function GetPositionReference(env: Env, pos: nat): (r: Option<string>)
    ensures r.Some? <==> env.file.Some? && LookupLine(env.file.value.lines, pos).Some?
    ensures r.Some? ==> env.file.value.name + ":" <= r.value && |r.value| > |env.file.value.name| + 1
  {
    match env.file
    case None => None
    case Some(f) =>
      match LookupLine(f.lines, pos)
      case None => None
      case Some(line) => Some(f.name + ":" + NatToString(line + 1))
  }

  /** The references list of a message: the position reference, if there is one. */
  function References(env: Env, pos: nat): seq<string> {
    match GetPositionReference(env, pos)
    case Some(s) => [s]
    case None => []
  }

  // ---------------------------------------------------------------------------
  // Keys, as functions of the counter

  /** `use_expression_key`: an identifier names itself; anything else takes
      the next counter value. */
  function ExpressionKey(e: Expr, n: nat): (r: (string, nat))
    ensures e.Ident? ==> r == (e.sym, n)
    ensures !e.Ident? ==> r == NextState(n)
  {
    if e.Ident? then (e.sym, n) else NextState(n)
  }

  /** `use_property_name`: written keys name themselves, a computed key takes
      the next counter value. */
  function PropertyName(key: PropName, n: nat): (r: (string, nat))
    ensures key.KeyComputed? <==> r.1 == n + 1
    ensures !key.KeyComputed? ==> r.1 == n
  {
    match key
    case KeyIdent(s) => (s, n)
    case KeyStr(s) => (s, n)
    case KeyNum(d) => (d, n)
    case KeyBigInt(d) => (d, n)
    case KeyComputed(_) => NextState(n)
  }

  method UseExpressionKey(ctx: Context, e: Expr) returns (key: string)
    modifies ctx.identifierStore
    ensures (key, ctx.identifierStore.current) == ExpressionKey(e, old(ctx.identifierStore.current))
  {
    if e.Ident? {
      key := e.sym;
    } else {
      key := ctx.identifierStore.Next();
    }
  }

  method UsePropertyName(ctx: Context, name: PropName) returns (key: string)
    modifies ctx.identifierStore
    ensures (key, ctx.identifierStore.current) == PropertyName(name, old(ctx.identifierStore.current))
  {
    match name
    case KeyIdent(s) => key := s;
    case KeyStr(s) => key := s;
    case KeyNum(d) => key := d;
    case KeyBigInt(d) => key := d;
    case KeyComputed(_) => key := ctx.identifierStore.Next();
  }

  // ---------------------------------------------------------------------------
  // The matcher, as functions of the counter

  /** An expression that is not a message, kept as an argument. */
  function ArgumentFallback(e: Expr, n: nat): (r: (Message, nat))
    ensures WellFormed(r.0) && r.0.argument.Some? && r.0.argument.value.expression == e
    ensures n <= r.1
  {
    var (key, n1) := ExpressionKey(e, n);
    (From(ArgumentVariant(ArgumentMessage(key, e))), n1)
  }

  /** `parse_expression`. */
  function ExpressionMessage(env: Env, e: Expr, fallback: bool, n: nat): (r: (Option<Message>, nat))
    ensures n <= r.1
    ensures fallback ==> r.0.Some?
    ensures r.0.Some? ==> WellFormed(r.0.value) && r.0.value.literal.None?
    decreases e, 2
  {
    var (msg, n1) :=
      if e.TaggedTpl? then TemplateMessage(env, e, n)
      else if e.Call? then CallMessage(env, e, n)
      else (None, n);
    if msg.Some? then (Some(From(CompositeVariant(msg.value))), n1)
    else if fallback then
      var (arg, n2) := ArgumentFallback(e, n1);
      (Some(arg), n2)
    else (None, n1)
  }

  /** `parse_tagged_template`. */
  function TemplateMessage(env: Env, t: Expr, n: nat): (r: (Option<CompositeMessage>, nat))
    requires t.TaggedTpl?
    ensures n <= r.1
    ensures r.0.None? ==> r.1 == n
    ensures r.0.Some? ==> WellFormed(From(CompositeVariant(r.0.value)))
    decreases t, 1
  {
    match ProcessExpression(t.tag)
    case None => (None, n)
    case Some(c) =>
      var (children, n1) := TemplateChildren(env, t, |t.quasis|, n);
      (Some(CompositeMessage(None, DescriptorContext(c.descriptor), GetPositionComments(env, t.tagPos),
                             References(env, t.tagPos), children, c.accessor)), n1)
  }

  /** The children built from the first `i` quasis: each quasi's raw text, then
      the expression that follows it, if any. */
  function TemplateChildren(env: Env, t: Expr, i: nat, n: nat): (r: (seq<Message>, nat))
    requires t.TaggedTpl? && i <= |t.quasis|
    ensures n <= r.1
    ensures AllWellFormed(r.0)
    decreases t, 0, i
  {
    if i == 0 then ([], n)
    else
      var (prev, m) := TemplateChildren(env, t, i - 1, n);
      var lit := From(LiteralVariant(LiteralMessage(t.quasis[i - 1])));
      if i - 1 < |t.exprs| then
        var (msg, m1) := ExpressionMessage(env, t.exprs[i - 1], true, m);
        (prev + [lit, msg.value], m1)
      else
        (prev + [lit], m)
  }

  predicate IsChoiceKind(kind: Option<string>) {
    kind == Some("select") || kind == Some("ordinal") || kind == Some("plural")
  }

  /** `parse_call_expression`. */
  function CallMessage(env: Env, call: Expr, n: nat): (r: (Option<CompositeMessage>, nat))
    requires call.Call?
    ensures n <= r.1
    ensures r.0.None? ==> r.1 == n
    ensures r.0.Some? ==> WellFormed(From(CompositeVariant(r.0.value)))
    decreases call, 1
  {
    match ProcessExpression(call.callee)
    case None => (None, n)
    case Some(c) =>
      if !IsChoiceKind(c.kind) || |call.args| != 2 || !call.args[1].Object? then (None, n)
      else
        var (branches, n1) := ChoiceBranches(env, call, |call.args[1].props|, n);
        var value := call.args[0];
        var (identifier, n2) := ExpressionKey(value, n1);
        var choice := ChoiceMessage(c.kind.value, identifier, branches, value);
        (Some(CompositeMessage(None, DescriptorContext(c.descriptor), GetPositionComments(env, call.calleePos),
                               References(env, call.calleePos), [From(ChoiceVariant(choice))], c.accessor)), n2)
  }

  /** The branches built from the first `k` entries of the branch object. */
  function ChoiceBranches(env: Env, call: Expr, k: nat, n: nat): (r: (seq<ChoiceMessageBranch>, nat))
    requires call.Call? && |call.args| == 2 && call.args[1].Object? && k <= |call.args[1].props|
    ensures n <= r.1
    ensures forall b <- r.0 :: WellFormed(b.value)
    decreases call, 0, k
  {
    if k == 0 then ([], n)
    else
      var (prev, m) := ChoiceBranches(env, call, k - 1, n);
      assert call.args[1] in call.args;
      match call.args[1].props[k - 1]
      case KeyValue(key, value) =>
        var (name, m1) := PropertyName(key, m);
        var (msg, m2) := BranchMessage(env, value, m1);
        (prev + [ChoiceMessageBranch(name, msg)], m2)
      case _ => (prev, m)
  }

  /** A branch value: a string literal is text, a nested call or template is
      parsed, and whatever does not parse is an argument. */
  function BranchMessage(env: Env, v: Expr, n: nat): (r: (Message, nat))
    ensures n <= r.1
    ensures WellFormed(r.0)
    decreases v, 2
  {
    var (parsed, n1) :=
      if v.Lit? && v.lit.Str? then (Some(From(LiteralVariant(LiteralMessage(v.lit.value)))), n)
      else if v.Call? then
        var (c, n1) := CallMessage(env, v, n);
        (if c.Some? then Some(From(CompositeVariant(c.value))) else None, n1)
      else if v.TaggedTpl? then
        var (c, n1) := TemplateMessage(env, v, n);
        (if c.Some? then Some(From(CompositeVariant(c.value))) else None, n1)
      else (None, n);
    if parsed.Some? then (parsed.value, n1) else ArgumentFallback(v, n1)
  }

  // ---------------------------------------------------------------------------
  // The matcher, as methods over the context

  method ParseExpression(ctx: Context, e: Expr, fallback: bool) returns (r: Option<Message>)
    modifies ctx.identifierStore
    ensures (r, ctx.identifierStore.current) == ExpressionMessage(ctx.Environment(), e, fallback, old(ctx.identifierStore.current))
    decreases e, 2
  {
    var msg: Option<CompositeMessage> := None;
    if e.TaggedTpl? {
      msg := ParseTaggedTemplate(ctx, e);
    } else if e.Call? {
      msg := ParseCallExpression(ctx, e);
    }
    if msg.Some? {
      r := Some(From(CompositeVariant(msg.value)));
    } else if fallback {
      var key := UseExpressionKey(ctx, e);
      r := Some(From(ArgumentVariant(ArgumentMessage(key, e))));
    } else {
      r := None;
    }
  }

  method ParseTaggedTemplate(ctx: Context, t: Expr) returns (r: Option<CompositeMessage>)
    requires t.TaggedTpl?
    modifies ctx.identifierStore
    ensures (r, ctx.identifierStore.current) == TemplateMessage(ctx.Environment(), t, old(ctx.identifierStore.current))
    decreases t, 1
  {
    var c := ProcessExpression(t.tag);
    if c.None? {
      return None;
    }
    ghost var n0 := ctx.identifierStore.current;
    var children: seq<Message> := [];
    var i := 0;
    while i < |t.quasis|
      invariant 0 <= i <= |t.quasis|
      invariant (children, ctx.identifierStore.current) == TemplateChildren(ctx.Environment(), t, i, n0)
    {
      var lit := From(LiteralVariant(LiteralMessage(t.quasis[i])));
      if i < |t.exprs| {
        var msg := ParseExpression(ctx, t.exprs[i], true);
        children := children + [lit, msg.value];
      } else {
        children := children + [lit];
      }
      i := i + 1;
    }
    var env := ctx.Environment();
    r := Some(CompositeMessage(None, DescriptorContext(c.value.descriptor), GetPositionComments(env, t.tagPos),
                               References(env, t.tagPos), children, c.value.accessor));
  }

  method ParseCallExpression(ctx: Context, call: Expr) returns (r: Option<CompositeMessage>)
    requires call.Call?
    modifies ctx.identifierStore
    ensures (r, ctx.identifierStore.current) == CallMessage(ctx.Environment(), call, old(ctx.identifierStore.current))
    decreases call, 1
  {
    var c := ProcessExpression(call.callee);
    if c.None? || !IsChoiceKind(c.value.kind) || |call.args| != 2 || !call.args[1].Object? {
      return None;
    }
    ghost var n0 := ctx.identifierStore.current;
    var props := call.args[1].props;
    var branches: seq<ChoiceMessageBranch> := [];
    var k := 0;
    while k < |props|
      invariant 0 <= k <= |props|
      invariant (branches, ctx.identifierStore.current) == ChoiceBranches(ctx.Environment(), call, k, n0)
    {
      branches := ParseBranch(ctx, call, k, branches, n0);
      k := k + 1;
    }
    var value := call.args[0];
    var identifier := UseExpressionKey(ctx, value);
    var choice := ChoiceMessage(c.value.kind.value, identifier, branches, value);
    var env := ctx.Environment();
    r := Some(CompositeMessage(None, DescriptorContext(c.value.descriptor), GetPositionComments(env, call.calleePos),
                               References(env, call.calleePos), [From(ChoiceVariant(choice))], c.value.accessor));
  }

  /** One pass of the branch loop: a key-value entry adds its branch. */
  method ParseBranch(ctx: Context, call: Expr, k: nat, branches: seq<ChoiceMessageBranch>, ghost n0: nat)
    returns (next: seq<ChoiceMessageBranch>)
    requires call.Call? && |call.args| == 2 && call.args[1].Object? && k < |call.args[1].props|
    requires (branches, ctx.identifierStore.current) == ChoiceBranches(ctx.Environment(), call, k, n0)
    modifies ctx.identifierStore
    ensures (next, ctx.identifierStore.current) == ChoiceBranches(ctx.Environment(), call, k + 1, n0)
    decreases call, 0
  {
    assert call.args[1] in call.args;
    var entry := call.args[1].props[k];
    next := branches;
    if entry.KeyValue? {
      var name := UsePropertyName(ctx, entry.key);
      var msg := ParseBranchValue(ctx, entry.value);
      next := branches + [ChoiceMessageBranch(name, msg)];
    }
  }

  /** The body of the branch loop for one value (lines 92-101). */
  method ParseBranchValue(ctx: Context, v: Expr) returns (msg: Message)
    modifies ctx.identifierStore
    ensures (msg, ctx.identifierStore.current) == BranchMessage(ctx.Environment(), v, old(ctx.identifierStore.current))
    decreases v, 2
  {
    var parsed: Option<Message> := None;
    if v.Lit? && v.lit.Str? {
      parsed := Some(From(LiteralVariant(LiteralMessage(v.lit.value))));
    } else if v.Call? {
      var c := ParseCallExpression(ctx, v);
      if c.Some? {
        parsed := Some(From(CompositeVariant(c.value)));
      }
    } else if v.TaggedTpl? {
      var c := ParseTaggedTemplate(ctx, v);
      if c.Some? {
        parsed := Some(From(CompositeVariant(c.value)));
      }
    }
    if parsed.Some? {
      msg := parsed.value;
    } else {
      var key := UseExpressionKey(ctx, v);
      msg := From(ArgumentVariant(ArgumentMessage(key, v)));
    }
  }

  // ---------------------------------------------------------------------------
  // Properties of the matcher

  /** In a well-formed template (one more quasi than expressions), the children
      alternate: quasi texts at even positions and, at odd positions, each
      expression parsed with the fallback at the counter the parts before it
      leave. */
  lemma TemplateChildrenAlternate(env: Env, t: Expr, i: nat, n: nat)
    requires t.TaggedTpl? && i <= |t.quasis| && i <= |t.exprs| + 1
    ensures var c := TemplateChildren(env, t, i, n).0;
      && |c| == (if i <= |t.exprs| then 2 * i else 2 * i - 1)
      && (forall j :: 0 <= j < i ==> c[2 * j] == From(LiteralVariant(LiteralMessage(t.quasis[j]))))
      && (forall j :: 0 <= j < i && j < |t.exprs| ==> c[2 * j + 1].literal.None?)
      && (forall j :: 0 <= j < i && j < |t.exprs| ==>
            c[2 * j + 1] == ExpressionMessage(env, t.exprs[j], true, TemplateChildren(env, t, j, n).1).0.value)
  {
    TemplateChildrenShape(env, t, i, n);
    var c := TemplateChildren(env, t, i, n).0;
    forall j | 0 <= j < i && j < |t.exprs|
      ensures c[2 * j + 1] == ExpressionMessage(env, t.exprs[j], true, TemplateChildren(env, t, j, n).1).0.value
    {
      TemplateExpressionChild(env, t, j, i, n);
    }
  }

  lemma {:induction false} TemplateChildrenShape(env: Env, t: Expr, i: nat, n: nat)
    requires t.TaggedTpl? && i <= |t.quasis| && i <= |t.exprs| + 1
    ensures var c := TemplateChildren(env, t, i, n).0;
      && |c| == (if i <= |t.exprs| then 2 * i else 2 * i - 1)
      && (forall j :: 0 <= j < i ==> c[2 * j] == From(LiteralVariant(LiteralMessage(t.quasis[j]))))
      && (forall j :: 0 <= j < i && j < |t.exprs| ==> c[2 * j + 1].literal.None?)
    decreases i
  {
    if i > 0 {
      TemplateChildrenShape(env, t, i - 1, n);
    }
  }

  /** The child after the `j`-th quasi is the `j`-th expression's message. */
  lemma TemplateExpressionChild(env: Env, t: Expr, j: nat, i: nat, n: nat)
    requires t.TaggedTpl? && j < i <= |t.quasis| && j < |t.exprs|
    ensures var c := TemplateChildren(env, t, i, n).0;
      2 * j + 1 < |c| && c[2 * j + 1] == ExpressionMessage(env, t.exprs[j], true, TemplateChildren(env, t, j, n).1).0.value
  {
    TemplateExpressionAt(env, t, j, n);
    TemplateChildrenPrefixAt(env, t, j + 1, i, n, 2 * j + 1);
  }

  /** The same, for the children up to that quasi's successor. */
  lemma TemplateExpressionAt(env: Env, t: Expr, j: nat, n: nat)
    requires t.TaggedTpl? && j < |t.quasis| && j < |t.exprs|
    ensures var c := TemplateChildren(env, t, j + 1, n).0;
      2 * j + 1 < |c| && c[2 * j + 1] == ExpressionMessage(env, t.exprs[j], true, TemplateChildren(env, t, j, n).1).0.value
  {
    TemplateChildrenLength(env, t, j, n);
    TemplateChildrenStepAt(env, t, j, n);
  }

  /** The children of fewer quasis are kept, index by index, by more. */
  lemma TemplateChildrenPrefixAt(env: Env, t: Expr, k: nat, i: nat, n: nat, idx: nat)
    requires t.TaggedTpl? && k <= i <= |t.quasis| && idx < |TemplateChildren(env, t, k, n).0|
    ensures idx < |TemplateChildren(env, t, i, n).0|
    ensures TemplateChildren(env, t, i, n).0[idx] == TemplateChildren(env, t, k, n).0[idx]
  {
    TemplateChildrenPrefix(env, t, k, i, n);
    var a, c := TemplateChildren(env, t, k, n).0, TemplateChildren(env, t, i, n).0;
    assert c[idx] == c[..|a|][idx];
  }

  lemma {:induction false} TemplateChildrenLength(env: Env, t: Expr, j: nat, n: nat)
    requires t.TaggedTpl? && j <= |t.quasis| && j <= |t.exprs|
    ensures |TemplateChildren(env, t, j, n).0| == 2 * j
    decreases j
  {
    if j > 0 {
      TemplateChildrenLength(env, t, j - 1, n);
    }
  }

  /** One more quasi followed by an expression adds the quasi's text and,
      after it, the expression's message. */
  lemma TemplateChildrenStepAt(env: Env, t: Expr, j: nat, n: nat)
    requires t.TaggedTpl? && j < |t.quasis| && j < |t.exprs|
    ensures var prev, next := TemplateChildren(env, t, j, n).0, TemplateChildren(env, t, j + 1, n).0;
      |next| == |prev| + 2
      && next[|prev| + 1] == ExpressionMessage(env, t.exprs[j], true, TemplateChildren(env, t, j, n).1).0.value
  {
  }

  /** The children of fewer quasis are a prefix of the children of more. */
  lemma {:induction false} TemplateChildrenPrefix(env: Env, t: Expr, k: nat, i: nat, n: nat)
    requires t.TaggedTpl? && k <= i <= |t.quasis|
    ensures var a, b := TemplateChildren(env, t, k, n).0, TemplateChildren(env, t, i, n).0;
      |a| <= |b| && b[..|a|] == a
    decreases i
  {
    if k < i {
      TemplateChildrenPrefix(env, t, k, i - 1, n);
      var a, p, b := TemplateChildren(env, t, k, n).0, TemplateChildren(env, t, i - 1, n).0, TemplateChildren(env, t, i, n).0;
      assert b[..|p|] == p;
      assert b[..|a|] == p[..|a|];
    }
  }

  /** A template `say` with one more quasi than expressions yields
      `2 * |quasis| - 1` children. */
  lemma TemplateChildCount(env: Env, t: Expr, n: nat)
    requires t.TaggedTpl? && |t.quasis| == |t.exprs| + 1
    requires ProcessExpression(t.tag).Some?
    ensures |TemplateMessage(env, t, n).0.value.children| == 2 * |t.quasis| - 1
  {
    TemplateChildrenAlternate(env, t, |t.quasis|, n);
  }

  /** A call is a message exactly when it is a choice call: an accessor with
      kind select/ordinal/plural, two arguments, and an object literal second. */
  lemma CallMessageWhen(env: Env, call: Expr, n: nat)
    requires call.Call?
    ensures CallMessage(env, call, n).0.Some? <==>
      && ProcessExpression(call.callee).Some?
      && IsChoiceKind(ProcessExpression(call.callee).value.kind)
      && |call.args| == 2 && call.args[1].Object?
  {
  }

  /** The number of key-value entries among the first `k`. */
  function KeyValueCount(props: seq<ObjectProp>, k: nat): nat
    requires k <= |props|
  {
    if k == 0 then 0 else KeyValueCount(props, k - 1) + (if props[k - 1].KeyValue? then 1 else 0)
  }

  /** One branch per key-value entry, keyed by the written key. */
  lemma {:induction false} ChoiceBranchesOnePerEntry(env: Env, call: Expr, k: nat, n: nat)
    requires call.Call? && |call.args| == 2 && call.args[1].Object? && k <= |call.args[1].props|
    ensures |ChoiceBranches(env, call, k, n).0| == KeyValueCount(call.args[1].props, k)
    decreases k
  {
    if k > 0 {
      ChoiceBranchesOnePerEntry(env, call, k - 1, n);
    }
  }

  /** A choice call yields one composite holding one choice, whose kind is the
      member name and whose branches follow the key-value entries. */
  lemma CallMessageShape(env: Env, call: Expr, n: nat)
    requires call.Call? && CallMessage(env, call, n).0.Some?
    ensures var m := CallMessage(env, call, n).0.value;
      && |m.children| == 1 && m.children[0].choice.Some?
      && Some(m.children[0].choice.value.kind) == ProcessExpression(call.callee).value.kind
      && |m.children[0].choice.value.branches| == KeyValueCount(call.args[1].props, |call.args[1].props|)
      && m.children[0].choice.value.expression == call.args[0]
      && m.id.None?
  {
    ChoiceBranchesOnePerEntry(env, call, |call.args[1].props|, n);
  }
}
