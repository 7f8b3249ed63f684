/** The tag renderer of the React integration
    (packages/integration-react/src/components/renderer.ts): a formatted
    message such as `Hello <0>world</0><1/>` is scanned left to right into
    text leaves and elements, each element getting its component from the
    `components` prop and a key from a counter that every created element
    bumps. React's `createElement` is modelled by the `Element` node it
    builds. */
module Renderer {
  import opened Wrappers
  import opened Text

  /** What `getComponent` can return: React's `Fragment`, an intrinsic tag
      name (a string component), or a component the caller supplied. */
  datatype Component = Fragment | Intrinsic(tag: string) | Supplied(name: string)

  /** The `components` prop: a record from tag to component, or a resolver. */
  datatype Components =
    | ComponentsMap(entries: map<string, Component>)
    | ComponentResolver(resolve: string -> Option<Component>)

  /** `getComponent`: a resolver's answer, else the tag itself as an
      intrinsic element; a record's entry for a non-empty tag, else
      `Fragment`. (The resolver's `tag ?? Fragment` never reaches `Fragment`:
      the tag passed in is always a string.) */
  function GetComponent(components: Components, tag: string): (r: Component)
    ensures components.ComponentResolver? && components.resolve(tag).Some? ==> r == components.resolve(tag).value
    ensures components.ComponentResolver? && components.resolve(tag).None? ==> r == Intrinsic(tag)
    ensures components.ComponentsMap? ==>
      r == (if tag != "" && tag in components.entries then components.entries[tag] else Fragment)
  {
    match components
    case ComponentResolver(resolve) => (match resolve(tag) case Some(c) => c case None => Intrinsic(tag))
    case ComponentsMap(entries) => if tag != "" && tag in entries then entries[tag] else Fragment
  }

  datatype Node = Text(text: string) | Element(component: Component, key: nat, children: seq<Node>)

  /** An opened tag waiting for its closing tag, with the nodes before it. */
  datatype Frame = Frame(tag: string, children: seq<Node>)

  /** The end of the scan: the nodes returned, the next key, and the frames
      still open, whose nodes the function drops; or the position of a
      closing tag met with no open frame (`stack.pop()!` is `undefined`
      there and reading its `tag` throws); or the position of a `<` with no
      `>` after it. */
  datatype Outcome =
    | Parsed(nodes: seq<Node>, nextKey: nat, open: seq<Frame>)
    | CloseWithoutOpen(at: nat)
    | Unterminated(at: nat)

  /** `input[i + 1] === '/'`. */
  predicate IsClosing(input: string, i: nat) {
    i + 1 < |input| && input[i + 1] == '/'
  }

  /** `/>` occurs between `i` and the next `>`: exactly when that `>` comes
      after `i` and right after a `/`. */
  predicate IsSelfClosing(input: string, i: nat)
    requires i <= |input|
    ensures IsSelfClosing(input, i) <==>
      var gt := IndexOf(input, ">", i);
      gt.Some? && i < gt.value && input[gt.value - 1] == '/'
  {
    match IndexOf(input, ">", i)
    case None => false
    case Some(gt) =>
      SelfClosingAtEnd(input, i, gt);
      IndexOf(input[i..gt + 1], "/>", 0).Some?
  }

  /** Within the text up to the first `>`, `/>` can only end at that `>`. */
  lemma SelfClosingAtEnd(input: string, i: nat, gt: nat)
    requires i <= |input| && IndexOf(input, ">", i) == Some(gt)
    ensures IndexOf(input[i..gt + 1], "/>", 0).Some? <==> i < gt && input[gt - 1] == '/'
  {
    if IndexOf(input[i..gt + 1], "/>", 0).Some? {
      SlashBeforeFirstGt(input, i, gt);
    }
    if i < gt && input[gt - 1] == '/' {
      SlashGtFound(input, i, gt);
    }
  }

  lemma SlashBeforeFirstGt(input: string, i: nat, gt: nat)
    requires i <= |input| && IndexOf(input, ">", i) == Some(gt)
    requires IndexOf(input[i..gt + 1], "/>", 0).Some?
    ensures i < gt && input[gt - 1] == '/'
  {
    var s := input[i..gt + 1];
    forall m | i <= m < gt
      ensures input[m] != '>'
    {
      assert !OccursAt(input, ">", m);
      assert input[m..m + 1] == [input[m]];
    }
    var j := IndexOf(s, "/>", 0).value;
    assert OccursAt(s, "/>", j);
    assert s[j..j + 2] == "/>";
    assert s[j] == s[j..j + 2][0] == '/';
    assert s[j + 1] == s[j..j + 2][1] == '>';
    var k := i + j + 1;
    assert input[k] == s[j + 1];
    assert k == gt;
    assert s[j] == input[gt - 1];
  }

  lemma SlashGtFound(input: string, i: nat, gt: nat)
    requires i <= |input| && IndexOf(input, ">", i) == Some(gt)
    requires i < gt && input[gt - 1] == '/'
    ensures IndexOf(input[i..gt + 1], "/>", 0).Some?
  {
    var s := input[i..gt + 1];
    var j := gt - 1 - i;
    assert input[gt..gt + 1] == ">";
    assert s[j] == '/' && s[j + 1] == '>';
    assert s[j..j + 2] == "/>";
    assert OccursAt(s, "/>", j);
  }

  /** The tag name: the text up to `>` with its first `/` removed, trimmed; a
      tag without `/` is just trimmed. */
  function TagName(input: string, start: nat, end: nat): (r: string)
    requires start <= end <= |input|
    ensures '/' !in input[start..end] ==> r == JsTrim(input[start..end])
  {
    var s := input[start..end];
    if '/' !in s then
      forall k: nat
        ensures !OccursAt(s, "/", k)
      {
        if k < |s| {
          assert s[k..k + 1] == [s[k]];
        }
      }
      ReplaceAbsent(s, "/", "");
      JsTrim(ReplaceFirst(s, "/", ""))
    else
      JsTrim(ReplaceFirst(s, "/", ""))
  }

  /** A tag with a `/` at `k`, and none before, is named by the text without
      that `/`, trimmed. */
  lemma TagNameDropsFirstSlash(input: string, start: nat, end: nat, k: nat)
    requires start <= end <= |input|
    requires k < end - start && input[start..end][k] == '/' && '/' !in input[start..end][..k]
    ensures TagName(input, start, end) == JsTrim(input[start..end][..k] + input[start..end][k + 1..])
  {
    SlashRemoved(input[start..end], k);
  }

  /** `replace('/', '')` drops the first `/` and keeps everything else. */
  lemma SlashRemoved(s: string, k: nat)
    requires k < |s| && s[k] == '/' && '/' !in s[..k]
    ensures ReplaceFirst(s, "/", "") == s[..k] + s[k + 1..]
  {
    assert s[k..k + 1] == "/";
    forall m: nat | m < k
      ensures !OccursAt(s, "/", m)
    {
      assert s[m] == s[..k][m];
      assert s[m..m + 1] == [s[m]];
    }
    ReplaceAtFirstOccurrence(s, "/", "", k);
  }

  /** A self-closing `<x/>` names the tag `x`, trimmed. */
  lemma SelfClosingTagName(input: string, start: nat, x: string)
    requires start + |x| < |input| && input[start + |x|] == '/' && '/' !in x
    requires forall k | 0 <= k < |x| :: input[start + k] == x[k]
    ensures TagName(input, start, start + |x| + 1) == JsTrim(x)
  {
    var s := input[start..start + |x| + 1];
    var k := |x|;
    assert s[..k] == x;
    assert s[k] == '/' && s[k + 1..] == [];
    assert s[..k] + s[k + 1..] == x;
    TagNameDropsFirstSlash(input, start, start + |x| + 1, k);
  }

  /** The end of the text that starts at `i`: the next `<`, or the end. */
  function TextEnd(input: string, i: nat): (r: nat)
    requires i < |input| && input[i] != '<'
    ensures i < r <= |input| && '<' !in input[i..r]
    ensures r < |input| ==> input[r] == '<'
  {
    match IndexOf(input, "<", i)
    case None =>
      assert forall k :: i <= k < |input| ==> input[k] != '<' by {
        forall k | i <= k < |input| ensures input[k] != '<' {
          assert !OccursAt(input, "<", k);
          assert input[k..k + 1] == [input[k]];
        }
      }
      |input|
    case Some(e) =>
      assert input[e..e + 1] == "<";
      assert forall k :: i <= k < e ==> input[k] != '<' by {
        forall k | i <= k < e ensures input[k] != '<' {
          assert !OccursAt(input, "<", k);
          assert input[k..k + 1] == [input[k]];
        }
      }
      e
  }

  /** What one pass of the loop body leaves: the scan goes on from `next`
      with the new stack, current nodes and key, or the function ends. */
  datatype Step =
    | Continue(next: nat, stack: seq<Frame>, current: seq<Node>, key: nat)
    | Stop(outcome: Outcome)

  /** One pass of the `while` body of `parseNode` at position `i`: a tag up
      to its `>` (self-closing, closing or opening), or a text up to the next
      `<`. */
  function ScanStep(components: Components, input: string, i: nat, stack: seq<Frame>, current: seq<Node>, key: nat): (r: Step)
    requires i < |input|
    ensures r.Continue? ==> i < r.next <= |input| && key <= r.key
    ensures r.Stop? ==> !r.outcome.Parsed? && r.outcome.at == i && input[i] == '<'
  {
    if input[i] == '<' then
      var tagStart := i + if IsClosing(input, i) then 2 else 1;
      match IndexOf(input, ">", tagStart)
      case None => Stop(Unterminated(i))
      case Some(tagEnd) =>
        var tagName := TagName(input, tagStart, tagEnd);
        if IsSelfClosing(input, i) then
          Continue(tagEnd + 1, stack, current + [Element(GetComponent(components, tagName), key, [])], key + 1)
        else if IsClosing(input, i) then
          if stack == [] then Stop(CloseWithoutOpen(i))
          else
            var last := stack[|stack| - 1];
            var element := Element(GetComponent(components, last.tag), key, current);
            Continue(tagEnd + 1, stack[..|stack| - 1], last.children + [element], key + 1)
        else
          Continue(tagEnd + 1, stack + [Frame(tagName, current)], [], key)
    else
      var textEnd := TextEnd(input, i);
      Continue(textEnd, stack, current + [Text(input[i..textEnd])], key)
  }

  /** The `while` loop of `parseNode` from position `i`, with its stack,
      current nodes and key counter. */
  function Scan(components: Components, input: string, i: nat, stack: seq<Frame>, current: seq<Node>, key: nat): (r: Outcome)
    requires i <= |input|
    ensures r.Parsed? ==> key <= r.nextKey
    ensures !r.Parsed? ==> i <= r.at < |input| && input[r.at] == '<'
    decreases |input| - i
  {
    if i == |input| then Parsed(current, key, stack)
    else
      match ScanStep(components, input, i, stack, current, key)
      case Stop(outcome) => outcome
      case Continue(next, stack', current', key') => Scan(components, input, next, stack', current', key')
  }

  /** `parseNode`, with the key counter starting at 0 as in `Renderer`. */
  method ParseNode(components: Components, input: string) returns (outcome: Outcome)
    ensures outcome == Scan(components, input, 0, [], [], 0)
  {
    var stack: seq<Frame> := [];
    var current: seq<Node> := [];
    var nodeKey := 0;
    var i := 0;
    while i < |input|
      invariant i <= |input|
      invariant Scan(components, input, 0, [], [], 0) == Scan(components, input, i, stack, current, nodeKey)
    {
      var step := ParseStep(components, input, i, stack, current, nodeKey);
      match step
      case Stop(o) =>
        return o;
      case Continue(next, stack', current', key') =>
        i, stack, current, nodeKey := next, stack', current', key';
    }
    return Parsed(current, nodeKey, stack);
  }

  /** One pass of the `while` body of `parseNode`. */
  method ParseStep(components: Components, input: string, i: nat, stack: seq<Frame>, current: seq<Node>, nodeKey: nat)
    returns (step: Step)
    requires i < |input|
    ensures step == ScanStep(components, input, i, stack, current, nodeKey)
  {
    if input[i] == '<' {
      step := ParseTag(components, input, i, stack, current, nodeKey);
    } else {
      var textEnd := TextEnd(input, i);
      step := Continue(textEnd, stack, current + [Text(input[i..textEnd])], nodeKey);
    }
  }

  /** The pass for a `<`: the tag up to its `>`. */
  method ParseTag(components: Components, input: string, i: nat, stack: seq<Frame>, current: seq<Node>, nodeKey: nat)
    returns (step: Step)
    requires i < |input| && input[i] == '<'
    ensures step == ScanStep(components, input, i, stack, current, nodeKey)
  {
    var isClosing := IsClosing(input, i);
    var isSelfClosing := IsSelfClosing(input, i);
    var tagStart := i + if isClosing then 2 else 1;
    var found := IndexOf(input, ">", tagStart);
    if found.None? {
      return Stop(Unterminated(i));
    }
    var tagEnd := found.value;
    var tagName := TagName(input, tagStart, tagEnd);
    if isSelfClosing {
      step := Continue(tagEnd + 1, stack, current + [Element(GetComponent(components, tagName), nodeKey, [])], nodeKey + 1);
    } else if isClosing {
      if stack == [] {
        return Stop(CloseWithoutOpen(i));
      }
      var last := stack[|stack| - 1];
      var element := Element(GetComponent(components, last.tag), nodeKey, current);
      step := Continue(tagEnd + 1, stack[..|stack| - 1], last.children + [element], nodeKey + 1);
    } else {
      step := Continue(tagEnd + 1, stack + [Frame(tagName, current)], [], nodeKey);
    }
  }

  // ---------------------------------------------------------------------------
  // Keys

  /** The keys of the elements of a node list, children before their parent
      and siblings left to right: the order in which they are created. */
  function KeysOf(ns: seq<Node>): seq<nat>
    decreases ns
  {
    if ns == [] then []
    else match ns[0]
      case Text(_) => KeysOf(ns[1..])
      case Element(_, k, children) => KeysOf(children) + [k] + KeysOf(ns[1..])
  }

  function FrameKeys(stack: seq<Frame>): seq<nat> {
    if stack == [] then [] else FrameKeys(stack[..|stack| - 1]) + KeysOf(stack[|stack| - 1].children)
  }

  /** 0, 1, ..., n - 1. */
  function Range(n: nat): (r: seq<nat>)
    ensures |r| == n && forall k :: 0 <= k < n ==> r[k] == k
  {
    seq(n, k requires 0 <= k < n => k)
  }

  lemma {:induction false} KeysOfConcat(a: seq<Node>, b: seq<Node>)
    ensures KeysOf(a + b) == KeysOf(a) + KeysOf(b)
    decreases a
  {
    if a == [] {
      assert a + b == b;
    } else {
      assert (a + b)[1..] == a[1..] + b;
      assert (a + b)[0] == a[0];
      KeysOfConcat(a[1..], b);
      match a[0]
      case Text(_) =>
      case Element(_, k, children) =>
        calc {
          KeysOf(a + b);
          KeysOf(children) + [k] + KeysOf(a[1..] + b);
          KeysOf(children) + [k] + (KeysOf(a[1..]) + KeysOf(b));
          KeysOf(children) + [k] + KeysOf(a[1..]) + KeysOf(b);
          KeysOf(a) + KeysOf(b);
        }
    }
  }

  /** One pass hands out the next key, if any, to the node it appends. */
  lemma StepKeys(components: Components, input: string, i: nat, stack: seq<Frame>, current: seq<Node>, key: nat)
    requires i < |input|
    requires FrameKeys(stack) + KeysOf(current) == Range(key)
    ensures var r := ScanStep(components, input, i, stack, current, key);
      r.Continue? ==> FrameKeys(r.stack) + KeysOf(r.current) == Range(r.key)
  {
    var r := ScanStep(components, input, i, stack, current, key);
    if input[i] == '<' {
      var tagStart := i + if IsClosing(input, i) then 2 else 1;
      match IndexOf(input, ">", tagStart)
      case None =>
      case Some(tagEnd) =>
        var tagName := TagName(input, tagStart, tagEnd);
        if IsSelfClosing(input, i) {
          var e := Element(GetComponent(components, tagName), key, []);
          assert r == Continue(tagEnd + 1, stack, current + [e], key + 1);
          AppendKeys(stack, current, e, [], key);
        } else if IsClosing(input, i) {
          if stack != [] {
            var last := stack[|stack| - 1];
            var e := Element(GetComponent(components, last.tag), key, current);
            assert r == Continue(tagEnd + 1, stack[..|stack| - 1], last.children + [e], key + 1);
            CloseKeys(stack, current, e, key);
          }
        } else {
          assert r == Continue(tagEnd + 1, stack + [Frame(tagName, current)], [], key);
          OpenKeys(stack, current, tagName, key);
        }
    } else {
      var textEnd := TextEnd(input, i);
      assert r == Continue(textEnd, stack, current + [Text(input[i..textEnd])], key);
      TextKeys(stack, current, input[i..textEnd], key);
    }
  }

  lemma CloseKeys(stack: seq<Frame>, current: seq<Node>, e: Node, key: nat)
    requires stack != [] && e.Element? && e.key == key && e.children == current
    requires FrameKeys(stack) + KeysOf(current) == Range(key)
    ensures FrameKeys(stack[..|stack| - 1]) + KeysOf(stack[|stack| - 1].children + [e]) == Range(key + 1)
  {
    AppendKeys(stack[..|stack| - 1], stack[|stack| - 1].children, e, current, key);
  }

  lemma OpenKeys(stack: seq<Frame>, current: seq<Node>, tag: string, key: nat)
    requires FrameKeys(stack) + KeysOf(current) == Range(key)
    ensures FrameKeys(stack + [Frame(tag, current)]) + KeysOf([]) == Range(key)
  {
    var stack' := stack + [Frame(tag, current)];
    assert stack'[..|stack'| - 1] == stack;
  }

  lemma TextKeys(stack: seq<Frame>, current: seq<Node>, text: string, key: nat)
    requires FrameKeys(stack) + KeysOf(current) == Range(key)
    ensures FrameKeys(stack) + KeysOf(current + [Text(text)]) == Range(key)
  {
    KeysOfConcat(current, [Text(text)]);
    assert [Text(text)][1..] == [];
  }

  /** Appending an element that holds `children` and takes the next key. */
  lemma AppendKeys(stack: seq<Frame>, current: seq<Node>, e: Node, children: seq<Node>, key: nat)
    requires e.Element? && e.key == key && e.children == children
    requires FrameKeys(stack) + KeysOf(current) + KeysOf(children) == Range(key)
    ensures FrameKeys(stack) + KeysOf(current + [e]) == Range(key + 1)
  {
    KeysOfConcat(current, [e]);
    assert [e][1..] == [];
    assert KeysOf([e]) == KeysOf(children) + [key] + KeysOf([]);
    RangeSnoc(key);
    var f, c, h := FrameKeys(stack), KeysOf(current), KeysOf(children);
    KeysAssoc(f, c, h, key);
  }

  lemma KeysAssoc(f: seq<nat>, c: seq<nat>, h: seq<nat>, key: nat)
    ensures f + (c + (h + [key] + [])) == f + c + h + [key]
  {
    assert h + [key] + [] == h + [key];
  }

  lemma RangeSnoc(n: nat)
    ensures Range(n + 1) == Range(n) + [n]
  {
  }

  /** Every key the scan hands out sits exactly once in the nodes it keeps or
      drops, in creation order: the keys are 0, 1, ..., `nextKey` - 1. */
  lemma {:induction false} ScanKeys(components: Components, input: string, i: nat, stack: seq<Frame>, current: seq<Node>, key: nat)
    requires i <= |input|
    requires FrameKeys(stack) + KeysOf(current) == Range(key)
    ensures var r := Scan(components, input, i, stack, current, key);
      r.Parsed? ==> FrameKeys(r.open) + KeysOf(r.nodes) == Range(r.nextKey)
    decreases |input| - i
  {
    if i < |input| {
      var step := ScanStep(components, input, i, stack, current, key);
      StepKeys(components, input, i, stack, current, key);
      if step.Continue? {
        ScanKeys(components, input, step.next, step.stack, step.current, step.key);
      } else {
        assert !step.outcome.Parsed?;
      }
    }
  }

  /** On a balanced input the returned elements carry the keys 0, 1, ...,
      `nextKey` - 1, each once, children before parents. */
  lemma ParsedKeys(components: Components, input: string)
    ensures var r := Scan(components, input, 0, [], [], 0);
      r.Parsed? && r.open == [] ==> KeysOf(r.nodes) == Range(r.nextKey)
  {
    assert FrameKeys([]) + KeysOf([]) == Range(0);
    ScanKeys(components, input, 0, [], [], 0);
  }

  /** A message without tags renders as its own text. */
  lemma PlainText(components: Components, input: string)
    requires input != [] && '<' !in input
    ensures Scan(components, input, 0, [], [], 0) == Parsed([Text(input)], 0, [])
  {
    assert input[0] != '<';
    assert TextEnd(input, 0) == |input|;
    assert input[0..|input|] == input;
  }

  const Example := "<0>Hi</0><1/>"
  const ExampleComponents := ComponentsMap(map["0" := Supplied("b"), "1" := Intrinsic("br")])

  /** `<0>Hi</0><1/>`: the opened element takes the text before its closing
      tag, and the self-closing one comes after it with the next key. */
  lemma NestedExample()
    ensures Scan(ExampleComponents, Example, 0, [], [], 0)
      == Parsed([Element(Supplied("b"), 0, [Text("Hi")]), Element(Intrinsic("br"), 1, [])], 2, [])
  {
    ExampleOpen();
    ExampleText();
    ExampleClose();
    ExampleSelfClose();
  }

  /** An opening tag `<name>` pushes a frame holding the nodes before it. */
  lemma OpenStep(components: Components, input: string, i: nat, stack: seq<Frame>, current: seq<Node>, key: nat, tagEnd: nat, name: string)
    requires i < |input| && input[i] == '<' && !IsClosing(input, i) && !IsSelfClosing(input, i)
    requires IndexOf(input, ">", i + 1) == Some(tagEnd) && TagName(input, i + 1, tagEnd) == name
    ensures ScanStep(components, input, i, stack, current, key) == Continue(tagEnd + 1, stack + [Frame(name, current)], [], key)
  {
  }

  /** A closing tag wraps the current nodes into the innermost frame's element. */
  lemma CloseStep(components: Components, input: string, i: nat, stack: seq<Frame>, current: seq<Node>, key: nat, tagEnd: nat)
    requires i < |input| && input[i] == '<' && IsClosing(input, i) && !IsSelfClosing(input, i)
    requires IndexOf(input, ">", i + 2) == Some(tagEnd) && stack != []
    ensures ScanStep(components, input, i, stack, current, key)
      == Continue(tagEnd + 1, stack[..|stack| - 1],
                  stack[|stack| - 1].children + [Element(GetComponent(components, stack[|stack| - 1].tag), key, current)], key + 1)
  {
  }

  /** A self-closing tag `<name/>` appends an element with no children. */
  lemma SelfCloseStep(components: Components, input: string, i: nat, stack: seq<Frame>, current: seq<Node>, key: nat, tagEnd: nat, name: string)
    requires i < |input| && input[i] == '<' && !IsClosing(input, i) && IsSelfClosing(input, i)
    requires IndexOf(input, ">", i + 1) == Some(tagEnd) && TagName(input, i + 1, tagEnd) == name
    ensures ScanStep(components, input, i, stack, current, key)
      == Continue(tagEnd + 1, stack, current + [Element(GetComponent(components, name), key, [])], key + 1)
  {
  }

  /** `<x/>` is a self-closing tag and not a closing one. */
  lemma SelfClosingTag(input: string, i: nat, x: string)
    requires x != [] && '/' !in x && '>' !in x && i + 1 + |x| + 1 < |input|
    requires input[i] == '<' && input[i + 1 + |x|] == '/' && input[i + 1 + |x| + 1] == '>'
    requires forall k | 0 <= k < |x| :: input[i + 1 + k] == x[k]
    ensures !IsClosing(input, i) && IsSelfClosing(input, i)
  {
    assert input[i + 1] == x[0];
    SelfClosingGt(input, i, x);
  }

  /** The first `>` after the `<` of `<x/>` is its last character. */
  lemma SelfClosingGt(input: string, i: nat, x: string)
    requires '>' !in x && i + 1 + |x| + 1 < |input|
    requires input[i] == '<' && input[i + 1 + |x|] == '/' && input[i + 1 + |x| + 1] == '>'
    requires forall k | 0 <= k < |x| :: input[i + 1 + k] == x[k]
    ensures IndexOf(input, ">", i) == Some(i + 1 + |x| + 1)
    ensures IndexOf(input, ">", i + 1) == Some(i + 1 + |x| + 1)
  {
    var gt := i + 1 + |x| + 1;
    forall k | i <= k < gt
      ensures input[k] != '>'
    {
      if i < k < gt - 1 {
        assert input[i + 1 + (k - i - 1)] == x[k - i - 1];
      }
    }
    IndexOfChar(input, ">", i + 1, gt);
    IndexOfChar(input, ">", i, gt);
  }

  /** A text up to the next `<` becomes a text leaf. */
  lemma TextStep(components: Components, input: string, i: nat, stack: seq<Frame>, current: seq<Node>, key: nat, textEnd: nat)
    requires i < |input| && input[i] != '<' && TextEnd(input, i) == textEnd
    ensures ScanStep(components, input, i, stack, current, key) == Continue(textEnd, stack, current + [Text(input[i..textEnd])], key)
  {
  }

  lemma ExampleOpen()
    ensures ScanStep(ExampleComponents, Example, 0, [], [], 0) == Continue(3, [Frame("0", [])], [], 0)
  {
    ExampleOpenTag();
    ExampleOpenNotSelfClosing();
    ExampleOpenName();
    OpenStep(ExampleComponents, Example, 0, [], [], 0, 2, "0");
  }

  lemma ExampleOpenTag()
    ensures Example[0] == '<' && !IsClosing(Example, 0) && IndexOf(Example, ">", 1) == Some(2)
  {
    var s := Example;
    assert s[0..1] == "<" && s[1..2] == "0" && s[2..3] == ">";
  }

  lemma ExampleOpenNotSelfClosing()
    ensures !IsSelfClosing(Example, 0)
  {
    var s := Example;
    assert s[0] == '<' && s[1] == '0' && s[2] == '>';
    IndexOfChar(s, ">", 0, 2);
  }

  lemma ExampleOpenName()
    ensures TagName(Example, 1, 2) == "0"
  {
    var s := Example;
    assert s[1..2] == "0" && "0"[0..1] == "0";
    assert IndexOf("0", "/", 0) == None;
  }

  lemma ExampleText()
    ensures ScanStep(ExampleComponents, Example, 3, [Frame("0", [])], [], 0) == Continue(5, [Frame("0", [])], [Text("Hi")], 0)
  {
    ExampleTextEnd();
    TextStep(ExampleComponents, Example, 3, [Frame("0", [])], [], 0, 5);
  }

  lemma ExampleTextEnd()
    ensures Example[3] != '<' && TextEnd(Example, 3) == 5 && Example[3..5] == "Hi"
  {
    var s := Example;
    assert s[3..4] == "H" && s[4..5] == "i" && s[5..6] == "<";
    assert s[3] == 'H' && s[4] == 'i';
  }

  lemma ExampleClose()
    ensures ScanStep(ExampleComponents, Example, 5, [Frame("0", [])], [Text("Hi")], 0)
      == Continue(9, [], [Element(Supplied("b"), 0, [Text("Hi")])], 1)
  {
    ExampleCloseTag();
    ExampleCloseNotSelfClosing();
    CloseStep(ExampleComponents, Example, 5, [Frame("0", [])], [Text("Hi")], 0, 8);
  }

  lemma ExampleCloseTag()
    ensures Example[5] == '<' && IsClosing(Example, 5) && IndexOf(Example, ">", 7) == Some(8)
  {
    var s := Example;
    assert s[5] == '<' && s[6] == '/' && s[7] == '0' && s[8] == '>';
    assert s[7..8] == "0" && s[8..9] == ">";
  }

  lemma ExampleCloseNotSelfClosing()
    ensures !IsSelfClosing(Example, 5)
  {
    var s := Example;
    assert s[5] == '<' && s[6] == '/' && s[7] == '0' && s[8] == '>';
    IndexOfChar(s, ">", 5, 8);
  }

  lemma ExampleSelfClose()
    ensures ScanStep(ExampleComponents, Example, 9, [], [Element(Supplied("b"), 0, [Text("Hi")])], 1)
      == Continue(13, [], [Element(Supplied("b"), 0, [Text("Hi")]), Element(Intrinsic("br"), 1, [])], 2)
  {
    ExampleSelfCloseTag();
    ExampleSelfClosing();
    ExampleSelfCloseName();
    SelfCloseStep(ExampleComponents, Example, 9, [], [Element(Supplied("b"), 0, [Text("Hi")])], 1, 12, "1");
  }

  lemma ExampleSelfCloseTag()
    ensures Example[9] == '<' && !IsClosing(Example, 9) && IndexOf(Example, ">", 10) == Some(12)
  {
    var s := Example;
    assert s[9] == '<' && s[10] == '1' && s[11] == '/' && s[12] == '>';
    SelfClosingGt(s, 9, "1");
  }

  lemma ExampleSelfClosing()
    ensures IsSelfClosing(Example, 9)
  {
    var s := Example;
    assert s[9] == '<' && s[10] == '1' && s[11] == '/' && s[12] == '>';
    SelfClosingTag(s, 9, "1");
  }

  lemma ExampleSelfCloseName()
    ensures TagName(Example, 10, 12) == "1"
  {
    var s := Example;
    assert s[10..12] == "1/" && "1/"[0..1] == "1" && "1/"[1..2] == "/";
    assert IndexOf("1/", "/", 0) == Some(1);
    assert ReplaceFirst("1/", "/", "") == "1";
  }
}
