# sayable message engine, modelled in Dafny

sayable lets an application write translatable messages inline, either as a
tagged template (say`Hello, ${name}!`), as a call with choice branches
(say.plural(count, { 1: 'one item', other: '# items' })), or as a `<Say>` JSX
element. A compiler plugin finds these messages and turns each one into a
message tree. The tree is serialised to an ICU MessageFormat string and
identified by a six-character hash. The plugin then rewrites the source so
that it calls the runtime by that identifier. The `sayable extract` command
gathers the messages of a project into one catalogue per locale. `sayable
compile` turns the catalogues into the objects the runtime loads, filling
untranslated messages from fallback locales. At run time, a `Sayable` object
loads catalogues, activates a locale and formats messages. The React
integration parses a formatted string with numbered tags back into
components. The Carbon integration picks the best locale for a user and
merges per-locale command options into one object.

The project models that engine module by module:

- `Messages` covers the message tree and its ICU serialiser.
- `Hash` covers message identifiers. SHA-256 is a parameter; UTF-8 and base64 are written out.
- `Context` covers the parser context and its identifier counter.
- `JsParser` and `JsxParser` recognise messages in JavaScript and JSX syntax trees.
- `JsGenerator` and `JsxGenerator` write the rewritten calls and elements.
- `JsxSafeKeys` decodes the React property names.
- `Renderer` parses a formatted string back into React nodes.
- `Extract` and `Compile` model the two commands.
- `BestLocale` and `CommandOptions` model the Carbon helpers.
- `Runtime` models the `Sayable` class.
- `Syntax`, `Text`, `Formatter` and `Wrappers` are shared definitions.

Code that updates state in place is modelled as classes with methods:

- the identifier counter;
- the parsers, which consume that counter;
- the in-place merge of `extract`;
- the compile caches;
- the renderer's tag stack;
- the command-option recursion;
- the runtime.

Each method is proved equal to a specification function. The lemmas state
what the source promises about those functions.

## Model

| member | source | states |
|---|---|---|
| Messages.From | packages/factory/src/core/messages/types.rs:60-67 | wrapping a variant as a message sets exactly one of the five fields |
| Messages.VariantCount | packages/factory/src/core/messages/types.rs:138-146 | a message holds at most five variants |
| Messages.FromVariantOf | packages/factory/src/core/messages/types.rs:60-67 | wrapping and unwrapping are inverse: the single-variant messages are exactly the wrapped variants |
| Messages.ConvertMessageToIcu | packages/factory/src/core/messages/convert.rs:7-75 | the ICU text is the untrimmed rendering trimmed of Rust whitespace once, and trimming it again changes nothing |
| Messages.ToIcuString | packages/factory/src/core/messages/types.rs:47-51 | a variant's ICU string is that of the message wrapping it: a literal's text trimmed, an argument's `{identifier}` untouched, a composite's children rendered in order and trimmed once |
| Messages.ToHashString | packages/factory/src/core/messages/types.rs:154-160 | six characters; the hash of the ICU text salted with the composite's context, and unsalted for every other variant |
| Messages.RenderAllAppend | packages/factory/src/core/messages/convert.rs:64-68 | rendering a list of children distributes over concatenation |
| Messages.Render | packages/factory/src/core/messages/convert.rs:8-70 | only text and composites can render to nothing; an argument or a choice renders between braces, an element between `<` and `>` |
| Messages.RenderAll | packages/factory/src/core/messages/convert.rs:24-28 | one child renders as itself, and children render to nothing only when each is text or a composite |
| Messages.RenderAllPieces | packages/factory/src/core/messages/convert.rs:64-68 | each child appears rendered at its own place, between the renderings of the children before and after it |
| Messages.ElementShape | packages/factory/src/core/messages/convert.rs:23-36 | an element is written self-closed exactly when its children render to nothing |
| Messages.RenderAllEmpty | packages/factory/src/core/messages/convert.rs:24-31 | children render to nothing exactly when every child does |
| Messages.ElementRender | packages/factory/src/core/messages/convert.rs:23-36 | an element with non-empty children is wrapped in an opening and a closing numbered tag |
| Messages.ChoiceRender | packages/factory/src/core/messages/convert.rs:39-61 | a choice is `{id, format,` then newline, then one line per branch, then `}` |
| Messages.NumericBranchKey | packages/factory/src/core/messages/convert.rs:45-48 | a branch key that is a 32-bit integer is written `=n` |
| Messages.NonNumericBranchKey | packages/factory/src/core/messages/convert.rs:45-48 | any other branch key is written unchanged |
| Messages.IcuFormatRenamesOrdinalOnly | packages/factory/src/core/messages/convert.rs:56-59 | `ordinal` becomes `selectordinal`; every other kind is kept |
| Messages.RenderBranchesAppend | packages/factory/src/core/messages/convert.rs:40-54 | branches are rendered one after another, in order |
| Messages.RenderBranches | packages/factory/src/core/messages/convert.rs:40-54 | each branch takes at least six characters and the last one ends the text with a newline |
| Messages.ConvertUntouched | packages/factory/src/core/messages/convert.rs:74 | a rendering with no surrounding whitespace is the ICU text unchanged |
| Messages.TrimOnlyAtTop | packages/factory/src/core/messages/convert.rs:74 | whitespace inside a nested element survives; only the outermost text is trimmed |
| Messages.LiteralExample | packages/factory/src/core/messages/convert.rs:84-91 | the literal example converts to its text |
| Messages.ArgumentExample | packages/factory/src/core/messages/convert.rs:93-97 | the argument example converts to `{name}` |
| Messages.ElementExample | packages/factory/src/core/messages/convert.rs:99-110 | the element example converts to `<0>Hello, world!</0>` |
| Messages.PluralExample | packages/factory/src/core/messages/convert.rs:112-133 | the plural example converts to the four-line ICU plural, `1` becoming `=1` |
| Messages.CompositeExample | packages/factory/src/core/messages/convert.rs:135-152 | the composite example converts to `Hello, {name}!` |
| Hash.EncodeCharDecodes | packages/factory/src/core/messages/hash.rs:11 | each character's UTF-8 bytes have the length their lead byte announces and decode back to the character |
| Hash.Utf8Append | packages/factory/src/core/messages/hash.rs:11-13 | UTF-8 encoding distributes over concatenation |
| Hash.Utf8Injective | packages/factory/src/core/messages/hash.rs:11 | different strings feed different bytes to the digest |
| Hash.Quantum | packages/factory/src/core/messages/hash.rs:16 | a base64 quantum is four characters; the characters covered by input bytes come from the base64 alphabet |
| Hash.Base64 | packages/factory/src/core/messages/hash.rs:16 | base64 of non-empty bytes is longer than its input |
| Hash.GenerateHash | packages/factory/src/core/messages/hash.rs:8-17 | six base64 alphabet characters, no padding, taken from the digest of input, the 0x1F separator and the context |
| Hash.Base64Head | packages/factory/src/core/messages/hash.rs:16 | the first six characters depend only on the first five digest bytes |
| Hash.Base64HeadNoPadding | packages/factory/src/core/messages/hash.rs:16 | the first six characters of a long enough encoding are never padding |
| Hash.FalsyContextSameHash | packages/factory/src/core/messages/hash.rs:43-49 | no context and the empty context give the same identifier |
| Hash.DigestInputSeparatesContexts | packages/factory/src/core/messages/hash.rs:35-41 | for one input, the digest input differs exactly when the contexts differ (an absent context counting as empty) |
| Hash.SeparatorInTextCollides | packages/factory/src/core/messages/hash.rs:11-13 | a message text that itself holds 0x1F can produce the same digest input as another text with a context |
| Context.NextState | packages/factory/src/core/context.rs:38-42 | the identifier is the counter in decimal, and the counter goes up by one |
| Context.BackState | packages/factory/src/core/context.rs:43-45 | the counter goes down by one, saturating at zero |
| Context.BackUndoesNext | packages/factory/src/core/context.rs:38-45 | `back` after `next` restores the counter |
| Context.NextDistinct | packages/factory/src/core/context.rs:38-42 | different counters give different identifiers |
| Context.IdentifierStore.constructor | packages/factory/src/core/context.rs:33-36 | the default counter is zero |
| Context.IdentifierStore.Next | packages/factory/src/core/context.rs:38-42 | returns the identifier and new counter of `NextState` |
| Context.IdentifierStore.Back | packages/factory/src/core/context.rs:43-45 | the new counter is `BackState` of the old one |
| Context.IdentifierStore.Reset | packages/factory/src/core/context.rs:46-48 | the counter is zero |
| Context.Context.constructor | packages/factory/src/core/context.rs:17-27 | keeps the file and comments; no messages found; a fresh counter at zero |
| Context.Context.Record | packages/factory/src/core/visitor.rs:36-42 | a matched message is appended to the found messages and the counter is reset |
| JsParser.ProcessExpression | packages/factory/src/features/js/parser.rs:183-209 | whenever an expression is recognised as a `say` accessor, call or member, the accessor found is `say` itself or a member named `say` |
| JsParser.ProcessCall | packages/factory/src/features/js/parser.rs:187-194 | a call is recognised exactly when its callee is and it has one object argument; it then carries that object as descriptor |
| JsParser.ProcessMember | packages/factory/src/features/js/parser.rs:196-205 | a named member of a recognised expression is recognised with the member's name as kind; on anything else only `.say` is recognised |
| JsParser.ProcessExamples | packages/factory/src/features/js/parser.rs:183-209 | `say`, `say.plural`, `intl.say` and `say({}).select` are recognised with the expected accessor, descriptor and kind; `t.plural` and `say()` are not |
| JsParser.FindPropertyFirst | packages/factory/src/features/js/parser.rs:223-235 | a property is found exactly when a key-value entry with that plain key comes before any entry that stops the search, and the value is that entry's |
| JsParser.FindProperty | packages/factory/src/features/js/parser.rs:223-235 | a property value found is the value of a key-value entry of the object under that plain key |
| JsParser.FindPropertyValue | packages/factory/src/features/js/parser.rs:223-235 | the loop returns the value `FindProperty` specifies |
| JsParser.TranslatorComment | packages/factory/src/features/js/parser.rs:158-164 | a kept translator note is already trimmed |
| JsParser.TranslatorCommentPrefix | packages/factory/src/features/js/parser.rs:158-164 | a comment whose trimmed text opens with twelve characters reading `translators:` in any ASCII letter case gives the trimmed rest of that text |
| JsParser.TranslatorCommentOther | packages/factory/src/features/js/parser.rs:158-164 | a comment whose trimmed text is shorter than twelve characters, or opens with anything else, gives no note |
| JsParser.TranslatorCommentUpperCase | packages/factory/src/features/js/parser.rs:158-164 | `TRANSLATORS: <note>` gives `<note>`: the marker's letter case does not matter and the note is trimmed |
| JsParser.MarkerLowercases | packages/factory/src/features/js/parser.rs:161-162 | `TRANSLATORS:` lowercases to the marker `translators:` |
| JsParser.TrimOneLeading | packages/factory/src/features/js/parser.rs:163 | trimming a note that has one leading space and no other outer whitespace drops only that space |
| JsParser.PresentOne | packages/factory/src/features/js/parser.rs:158-165 | `filter_map` over one item keeps its value if it has one, and nothing otherwise |
| JsParser.PresentAppend | packages/factory/src/features/js/parser.rs:158-165 | `filter_map` keeps the order: filtering `xs + ys` gives the values from `xs`, then those from `ys` |
| JsParser.TranslatorCommentsAppend | packages/factory/src/features/js/parser.rs:151-166 | the notes keep the order of the comments: the notes of `a + b` are those of `a`, then those of `b` |
| JsParser.TranslatorCommentsOne | packages/factory/src/features/js/parser.rs:151-166 | one comment gives its note, or nothing |
| JsParser.PresentKeeps | packages/factory/src/features/js/parser.rs:158-165 | the notes kept are exactly the ones that were present |
| JsParser.TranslatorCommentsKept | packages/factory/src/features/js/parser.rs:151-166 | the comments of a message are exactly the translator notes among its leading comments, no more of them than there were comments |
| JsParser.TranslatorComments | packages/factory/src/features/js/parser.rs:158-165 | no more translator notes are kept than there were leading comments |
| JsParser.GetPositionComments | packages/factory/src/features/js/parser.rs:151-166 | a position with no leading comments has no translator notes, and one with comments has at most as many notes |
| JsParser.GetPositionCommentsKept | packages/factory/src/features/js/parser.rs:151-166 | a note is reported at a position exactly when the position has leading comments and one of them gives that note |
| JsParser.GetPositionReference | packages/factory/src/features/js/parser.rs:169-177 | a reference exists exactly when the source file is known and the position lies on one of its lines; it is the file name, a colon and a non-empty line number |
| JsParser.LookupLine | packages/factory/src/features/js/parser.rs:172 | the line found starts at or before the position, and the next line starts after it; there is none exactly when the position is before the first line |
| JsParser.ExpressionKey | packages/factory/src/features/js/parser.rs:141-146 | an identifier names itself and leaves the counter; anything else takes the next counter value |
| JsParser.PropertyName | packages/factory/src/features/js/parser.rs:212-220 | exactly a computed key takes a counter value; plain keys leave the counter |
| JsParser.UseExpressionKey | packages/factory/src/features/js/parser.rs:141-146 | returns the key and leaves the counter that `ExpressionKey` gives |
| JsParser.UsePropertyName | packages/factory/src/features/js/parser.rs:212-220 | returns the key and leaves the counter that `PropertyName` gives |
| JsParser.ArgumentFallback | packages/factory/src/features/js/parser.rs:22 | an expression that is not a message becomes a well-formed argument holding that expression |
| JsParser.ExpressionMessage | packages/factory/src/features/js/parser.rs:12-26 | with the fallback on, every expression gives a message; a message found is well formed and never a bare literal; the counter only grows |
| JsParser.TemplateMessage | packages/factory/src/features/js/parser.rs:31-65 | a tagged template yields a well-formed composite message, or nothing with the counter untouched |
| JsParser.TemplateChildren | packages/factory/src/features/js/parser.rs:38-44 | the children of a template are well formed and the counter only grows |
| JsParser.CallMessage | packages/factory/src/features/js/parser.rs:68-136 | a choice call yields a well-formed composite message, or nothing with the counter untouched |
| JsParser.ChoiceBranches | packages/factory/src/features/js/parser.rs:80-103 | every branch value is a well-formed message |
| JsParser.BranchMessage | packages/factory/src/features/js/parser.rs:92-101 | a branch value always gives a well-formed message |
| JsParser.ParseExpression | packages/factory/src/features/js/parser.rs:12-26 | returns the message and moves the counter as `ExpressionMessage` specifies |
| JsParser.ParseTaggedTemplate | packages/factory/src/features/js/parser.rs:31-65 | returns the message and moves the counter as `TemplateMessage` specifies |
| JsParser.ParseCallExpression | packages/factory/src/features/js/parser.rs:68-136 | returns the message and moves the counter as `CallMessage` specifies |
| JsParser.ParseBranchValue | packages/factory/src/features/js/parser.rs:92-101 | returns the message and moves the counter as `BranchMessage` specifies |
| JsParser.ParseBranch | packages/factory/src/features/js/parser.rs:81-103 | one pass of the branch loop moves the branches and the counter from the state `ChoiceBranches` gives for k entries to the state it gives for k + 1 |
| JsParser.TemplateChildrenAlternate | packages/factory/src/features/js/parser.rs:38-44 | template children alternate: each quasi becomes a literal at an even index, and each expression, at the odd index after it, is the non-literal message `parse_expression` gives it with the fallback, at the counter the quasis and expressions before it leave |
| JsParser.TemplateChildCount | packages/factory/src/features/js/parser.rs:38-44 | a template with n quasis gives 2n - 1 children |
| JsParser.CallMessageWhen | packages/factory/src/features/js/parser.rs:72-78 | a call is a message exactly when its callee is a `say` accessor of kind select, ordinal or plural and it has two arguments, the second an object |
| JsParser.ChoiceBranchesOnePerEntry | packages/factory/src/features/js/parser.rs:81-103 | one branch per key-value entry of the branch object; spreads and methods give none |
| JsParser.CallMessageShape | packages/factory/src/features/js/parser.rs:107-132 | a call message has one child, a choice of the callee's kind over the first argument, with one branch per entry, and no id |
| JsxParser.BranchKeyOf | packages/factory/src/features/jsx/parser.rs:159-163 | `_` followed by a digit loses its underscore; every other name is kept, and `_` itself is never a branch key |
| JsxParser.FindAttributeFirst | packages/factory/src/features/jsx/parser.rs:260-279 | an attribute is found exactly when one has that plain name, and the value is the first such attribute's, a valueless one reading as `true` |
| JsxParser.FindAttribute | packages/factory/src/features/jsx/parser.rs:260-279 | a value found belongs to an attribute with that plain name, a valueless one reading as `true` |
| JsxParser.FindAttributeValue | packages/factory/src/features/jsx/parser.rs:260-279 | the loop returns the attribute `FindAttribute` specifies |
| JsxParser.FakeSay | packages/factory/src/features/jsx/parser.rs:296-315 | the made-up element is a `<Say>` container with no attributes, recognised as plain `Say` |
| JsxParser.JsxElementMessage | packages/factory/src/features/jsx/parser.rs:19-72 | with the fallback on, every element gives a message; a message found is well formed; the counter only grows |
| JsxParser.ContainerMessage | packages/factory/src/features/jsx/parser.rs:77-133 | a container gives a message exactly when it is a recognised `Say` element, and the message is well formed |
| JsxParser.ContainerChildren | packages/factory/src/features/jsx/parser.rs:86-121 | the children of a container are well formed and the counter only grows |
| JsxParser.SelfClosingMessage | packages/factory/src/features/jsx/parser.rs:138-225 | a self-closing element yields a well-formed composite message or nothing |
| JsxParser.AttrBranches | packages/factory/src/features/jsx/parser.rs:150-203 | every branch is a well-formed message and none is keyed `_` |
| JsxParser.AttrValueMessage | packages/factory/src/features/jsx/parser.rs:165-195 | an attribute value gives a well-formed message, or nothing with the counter untouched |
| JsxParser.ParseJsxElement | packages/factory/src/features/jsx/parser.rs:19-72 | returns the message and moves the counter as `JsxElementMessage` specifies |
| JsxParser.ParseJsxContainerElement | packages/factory/src/features/jsx/parser.rs:77-133 | returns the message and moves the counter as `ContainerMessage` specifies |
| JsxParser.ParseJsxSelfClosingElement | packages/factory/src/features/jsx/parser.rs:138-225 | returns the message and moves the counter as `SelfClosingMessage` specifies |
| JsxParser.ParseAttrValue | packages/factory/src/features/jsx/parser.rs:165-195 | returns the message and moves the counter as `AttrValueMessage` specifies |
| JsxParser.SelfClosingFallback | packages/factory/src/features/jsx/parser.rs:34-43 | a self-closing tag that gives no message becomes, under the fallback, an element with no children, numbered with the counter value after the attempt, and the counter ends one past that |
| JsxParser.FallbackPreloadsIdentifier | packages/factory/src/features/jsx/parser.rs:44-63 | a foreign container under the fallback becomes an element numbered with the next counter value, wrapping the message of a `<Say>` made of its children, parsed with the counter after it |
| JsxParser.FakeSayAlwaysParses | packages/factory/src/features/jsx/parser.rs:47-67 | the made-up `<Say>` always parses, so the fallback's unwrap never fails |
| JsxParser.ContainerChildrenOnePerChild | packages/factory/src/features/jsx/parser.rs:86-121 | one message per text, expression or element child, and no text child keeps two whitespace characters in a row |
| JsxParser.SelfClosingMessageWhen | packages/factory/src/features/jsx/parser.rs:142-213 | a recognised self-closing element is a message exactly when its kind is a choice kind and it has a `_` attribute; the choice then has that kind and reads the `_` value |
| JsxParser.ProcessJsxExamples | packages/factory/src/features/jsx/parser.rs:228-247 | `<Say>` and `<Say.Plural>` are recognised, the kind lower-cased; `<span>` and `<Intl.Say>` are not |
| JsxParser.ProcessJsxElement | packages/factory/src/features/jsx/parser.rs:228-247 | an element is recognised exactly when it is `<Say>` or `<Say.X>`; the accessor is then `Say`; there is a kind exactly for `<Say.X>`, and it is `X` lowercased |
| JsxParser.ValuelessSelectorAborts | packages/factory/src/features/jsx/parser.rs:151-157 | as written, `<Say.select _ other="x"/>` reaches the unwrap of a missing attribute value, although the attribute lookup reads it as `true` |
| JsxParser.ValuelessSelectorParses | packages/factory/src/features/jsx/parser.rs:138-225 | read through the attribute lookup, the same element parses to a select on `true` with its one branch |
| JsGenerator.BranchValues | packages/factory/src/features/js/generator.rs:99-103 | the branch values, in branch order |
| JsGenerator.GenerateChildExpressions | packages/factory/src/features/js/generator.rs:77-116 | the loop collects exactly the bindings `ChildExpressions` specifies |
| JsGenerator.ChildExpressions | packages/factory/src/features/js/generator.rs:77-116 | a list of messages has no more bindings than message nodes, and a list of texts has none |
| JsGenerator.CallId | packages/factory/src/features/js/generator.rs:26-32 | a descriptor id is used as it is; otherwise the id is the six-character hash of the message |
| JsGenerator.GenerateSayCallExpression | packages/factory/src/features/js/generator.rs:23-67 | the call is `accessor.call({ id, ...bindings })`: the id first, then one property per binding, in order |
| JsGenerator.GeneratedCallNotMatched | packages/factory/src/features/js/generator.rs:48-56 | a generated `accessor.call(...)` is not parsed as a message again |
| JsGenerator.ChildExpressionsFrom | packages/factory/src/features/js/generator.rs:80-113 | every binding comes from one of the children |
| JsGenerator.BindingReferenced | packages/factory/src/features/js/generator.rs:77-116 | every binding of a message is named in its ICU text, as an argument, a choice or a numbered tag |
| JsGenerator.ElementSelfReferenced | packages/factory/src/features/js/generator.rs:92-95 | an element's identifier appears as its tag in the ICU text |
| JsGenerator.CallBindingsReferenced | packages/factory/src/features/js/generator.rs:33 | every property of the generated call but the id is named in the message's rendering, and its placeholder (`{name}`, `{name,`, `<name/>` or `<name>`) survives the top-level trim into the ICU text the id hashes |
| JsGenerator.ReferencedTrimmed | packages/factory/src/core/messages/convert.rs:74 | trimming a rendering keeps every placeholder it references, a choice's up to its comma |
| JsxGenerator.JsxSafeNameAsWritten | packages/factory/src/features/jsx/generator.rs:32-34 | a name is kept or gets an underscore in front |
| JsxGenerator.JsxSafeName | packages/factory/src/features/jsx/generator.rs:32-34 | a name is kept or gets an underscore in front |
| JsxGenerator.SafeNameOfNumber | packages/factory/src/features/jsx/generator.rs:32-34 | a name of digits gets its underscore, as written and as corrected |
| JsxGenerator.SafeNameRoundTrip | packages/factory/src/features/jsx/generator.rs:32-34 | the React side decodes every attribute name back to the binding's name |
| JsxGenerator.AsWrittenNaNIsLost | packages/factory/src/features/jsx/generator.rs:32-34 | as written, `NaN` becomes `_NaN`, which the React side does not decode |
| JsxGenerator.IdBinding | packages/factory/src/features/jsx/generator.rs:24-26 | the `id` binding is a six-character string literal |
| JsxGenerator.GenerateSayJsxElement | packages/factory/src/features/jsx/generator.rs:22-62 | a self-closing element named by the accessor, with the id attribute first and then one attribute per binding, in order, each named by the f64 rule as written |
| JsxGenerator.AttributeRulesAgree | packages/factory/src/features/jsx/generator.rs:32-34 | the as-written and the corrected attribute agree on every numeric name and every name that does not parse as an f64 |
| JsxGenerator.IdAttributeFirst | packages/factory/src/features/jsx/generator.rs:24-26 | the id attribute holds the hash of the message |
| JsxGenerator.AttributeNamesDecodeToPlaceholders | packages/factory/src/features/jsx/generator.rs:27-45 | with the corrected renaming, every attribute name decodes to a name the rendering and the trimmed ICU text refer to |
| JsxGenerator.AsWrittenNamesDecodeToPlaceholders | packages/factory/src/features/jsx/generator.rs:27-45 | as written, the same holds for every binding except one whose non-numeric name parses as an f64 (`NaN`, `Infinity`) |
| JsxGenerator.GeneratedElementNotMatched | packages/factory/src/features/jsx/generator.rs:47-61 | a generated self-closing element is not parsed as a message again |
| JsxSafeKeys.DecodeKey | packages/integration-react/src/types.ts:10-11 | a key changes exactly when it is `_` and digits, and then loses only the underscore |
| JsxSafeKeys.DecodeJsxSafePropKeys | packages/integration-react/src/types.ts:5-14 | the loop builds the decoded object `Decoded` specifies |
| JsxSafeKeys.DecodedKeys | packages/integration-react/src/types.ts:9-12 | the decoded object has exactly the decoded keys |
| JsxSafeKeys.DecodedValue | packages/integration-react/src/types.ts:9-12 | a property no later property collides with keeps its value under its decoded key |
| JsxSafeKeys.DecodedInjective | packages/integration-react/src/types.ts:9-12 | when decoding makes no two keys equal, every property keeps its value |
| JsxSafeKeys.DecodeExamples | packages/integration-react/src/types.ts:10 | `_12` decodes to `12`; `_`, `_1a` and `count` are kept |
| Extract.ExtractMessages | packages/config/src/commands/extract.ts:154-171 | one catalogue entry per message found, in order |
| Extract.ExtractedEntryKey | packages/config/src/commands/extract.ts:161-169 | with the factory's converter standing for the plugin's ICU generator (see Left out), an extracted entry is filed under the message's own six-character identifier; its translation is its ICU text; it has comments and references |
| Extract.Absorb | packages/config/src/commands/extract.ts:179-181 | a duplicate changes neither the kept entry's text nor its translation nor its context |
| Extract.MapMessagesKeys | packages/config/src/commands/extract.ts:173-188 | the catalogue has exactly the hashes of the messages as keys |
| Extract.MapMessages | packages/config/src/commands/extract.ts:173-188 | every entry of the catalogue sits under its own hash |
| Extract.MapMessagesMerges | packages/config/src/commands/extract.ts:173-188 | under each hash sits the first message with it, its text, translation and context kept, holding the references and comments of every message with that hash, in order |
| Extract.GatheredNone | packages/config/src/commands/extract.ts:176-185 | a hash no message has gathers nothing |
| Extract.Absorbed | packages/config/src/commands/extract.ts:176-185 | merging in place leaves as many entries as there were |
| Extract.MapMessagesStep | packages/config/src/commands/extract.ts:176-185 | one pass adds a new hash with its message, or absorbs the message into the entry already there; a message is the first with its hash exactly when the hash is not mapped yet |
| Extract.Entry.constructor | packages/config/src/commands/extract.ts:183 | a new entry holds the message |
| Extract.Entry.AbsorbDuplicate | packages/config/src/commands/extract.ts:180-181 | the entry's comments and references are extended with the duplicate's |
| Extract.MapMessagesInPlace | packages/config/src/commands/extract.ts:173-188 | the map has the keys and values of `MapMessages`, each value being one of the entries themselves, and the entries are left merged as `Absorbed` says |
| Extract.MapForLocale | packages/config/src/commands/extract.ts:78 | one locale's catalogue is `MapMessages` of the current entries, which it leaves absorbed |
| Extract.MessagesPerLocaleAsWritten | packages/config/src/commands/extract.ts:75-81 | the n-th locale's catalogue is mapped from entries that earlier locales already merged n times |
| Extract.SecondLocaleRepeatsReferences | packages/config/src/commands/extract.ts:75-81 | with two sightings of one message, the first locale lists each reference once and the second lists the duplicate's reference twice |
| Extract.PairMerged | packages/config/src/commands/extract.ts:173-188 | two messages with the same hash give one entry: the first absorbing the second |
| Extract.UpdateMessages | packages/config/src/commands/extract.ts:213-233 | the loop builds the catalogue `Updated` specifies |
| Extract.UpdatedEntries | packages/config/src/commands/extract.ts:219-229 | the merged catalogue has exactly the new ids; context, comments and references come from the new entry; text and translation come from the existing entry when there is one, else the new text and no translation |
| Extract.Updated | packages/config/src/commands/extract.ts:219-229 | the merged catalogue has exactly the new ids; a new id starts untranslated with the new text, an existing one keeps its text and translation |
| Extract.UpdateIdempotent | packages/config/src/commands/extract.ts:213-233 | merging the same new messages twice is merging them once |
| Extract.MessagesToWrite | packages/config/src/commands/extract.ts:244-247 | the source locale writes the new messages as they are; every other locale writes them merged into its existing catalogue; the ids are the new ones either way |
| Extract.ResolveOutputFilePathFills | packages/config/src/commands/extract.ts:190-200 | a template of plain text and any number of `{locale}` and `{extension}` placeholders, in any order, becomes the text with every placeholder replaced by its value |
| Extract.SlotsReplaced | packages/config/src/commands/extract.ts:196-198 | one `replaceAll` replaces every slot of its placeholder and copies everything else |
| Extract.ResolveOutputFilePathExample | packages/config/src/commands/extract.ts:195-199 | `{locale}/{locale}` resolves to `fr/fr` for `fr` |
| Extract.ResolveOutputFilePath | packages/config/src/commands/extract.ts:190-200 | a template without placeholders is the path itself; `ResolveOutputFilePathFills` gives every other template |
| Compile.Fallbacks | packages/config/src/commands/compile.ts:104-107 | a locale's fallbacks end with the source locale |
| Compile.Hydrate | packages/config/src/commands/compile.ts:66-85 | the cache only grows and ends holding the returned table under the locale; no compiled text is empty |
| Compile.Apply | packages/config/src/commands/compile.ts:87-120 | the cache only grows, compiled texts stay non-empty, and hashes already in the result stay |
| Compile.FirstFallback | packages/config/src/commands/compile.ts:109-116 | the cache only grows and a text taken from a fallback is non-empty |
| Compile.CompileFrom | packages/config/src/commands/compile.ts:26-40 | one table per locale, in order, each the cached table of that locale |
| Compile.Compiler.constructor | packages/config/src/commands/compile.ts:24 | a catalogue starts with an empty cache |
| Compile.Compiler.HydrateMessages | packages/config/src/commands/compile.ts:66-85 | returns the table and leaves the cache `Hydrate` specifies, or nothing when the recursion does not end |
| Compile.Compiler.ApplyFallbacks | packages/config/src/commands/compile.ts:87-120 | returns the table and leaves the cache `Apply` specifies, or nothing when the recursion does not end |
| Compile.Compiler.FindFallback | packages/config/src/commands/compile.ts:109-116 | the first fallback locale with a translation gives the text, leaving the cache `FirstFallback` specifies, or nothing when the recursion does not end |
| Compile.Compiler.CompileLocales | packages/config/src/commands/compile.ts:21-43 | returns the tables and leaves the cache `CompileFrom` specifies, or nothing when the recursion does not end |
| Compile.FirstFallbackFromCache | packages/config/src/commands/compile.ts:109-116 | with every fallback cached, the text is the first truthy one among the fallbacks' tables and the cache is unchanged |
| Compile.ApplyFromCache | packages/config/src/commands/compile.ts:96-117 | with the fallbacks cached, applying them gives the table `Compiled` defines and changes no cache |
| Compile.HydrateFromCache | packages/config/src/commands/compile.ts:73-84 | an uncached locale whose fallbacks are cached gets that table, cached under it |
| Compile.CompiledTranslation | packages/config/src/commands/compile.ts:99-102 | the last truthy translation of a hash is its compiled text |
| Compile.Compiled | packages/config/src/commands/compile.ts:96-117 | every message with a truthy translation has an entry under its hash |
| Compile.CompiledDomain | packages/config/src/commands/compile.ts:96-117 | a hash has an entry exactly when some message carries it with a truthy translation or a fallback has a cached text for it; with neither the hash is absent |
| Compile.CompiledFallback | packages/config/src/commands/compile.ts:104-114 | an untranslated message, last with its hash, takes the first cached fallback text |
| Compile.CompiledKeys | packages/config/src/commands/compile.ts:96-117 | every compiled hash is the hash of some message, and its text is non-empty |
| Compile.UntranslatedDiverges | packages/config/src/commands/compile.ts:73-84 | locales whose first fallbacks lead back among themselves, none cached, recurse without end once one has an untranslated message |
| Compile.ApplyDiverges | packages/config/src/commands/compile.ts:104-116 | the same, from any message before the untranslated one |
| Compile.UntranslatedSourceDiverges | packages/config/src/commands/compile.ts:104-111 | an untranslated message of the source locale, which is its own last fallback, recurses without end |
| Compile.FallbackCycleDiverges | packages/config/src/commands/compile.ts:104-111 | two locales that name each other as first fallback recurse without end on an untranslated message |
| Compile.SourceTableFirst | packages/config/src/commands/compile.ts:26-40 | a source locale listed first with every message translated compiles to its own translations |
| Compile.ApplyKeepsOwn | packages/config/src/commands/compile.ts:96-117 | whatever the fallbacks give, a hash whose last message has a truthy translation ends with that translation |
| Compile.ApplyKeepsRest | packages/config/src/commands/compile.ts:96-117 | a hash that no message from the `i`-th on carries keeps the value it had in the table before them |
| Compile.RereadKeepsOwnTranslations | packages/config/src/commands/compile.ts:109-111 | when every fallback table is built from that locale's own catalogue, each table keeps that catalogue's translations |
| Compile.ApplyCacheKeepsOwn | packages/config/src/commands/compile.ts:109-113 | building fallback tables from their own catalogues keeps every cached table faithful to its catalogue |
| Compile.FirstFallbackKeepsOwn | packages/config/src/commands/compile.ts:109-116 | the same for the search through the fallbacks |
| Compile.FallbackCompiledFromRequester | packages/config/src/commands/compile.ts:109-111 | as written, `fr` falling back to `fr-CA` builds and caches `fr-CA`'s table from `fr`'s messages, so `fr-CA` later compiles to `Hi` although its catalogue says `Salut` |
| Compile.FallbackCompiledFromOwnCatalogue | packages/config/src/commands/compile.ts:109-111 | built from `fr-CA`'s own catalogue, both locales get `Salut` |
| Compile.SecondLocaleKept | packages/config/src/commands/compile.ts:46-55 | as written, a path template naming `{locale}` twice keeps the second placeholder |
| Compile.LocaleFileMissesSecondLocale | packages/config/src/commands/compile.ts:46-55 | `{locale}/{locale}` is read from `fr/{locale}`, while `Extract.ResolveOutputFilePathExample` writes it to `fr/fr` |
| Compile.ResolveLocaleFileAsWritten | packages/config/src/commands/compile.ts:46-55 | a template without placeholders is the path itself |
| BestLocale.Language | packages/integration-carbon/src/utils/get-best-locale.ts:10 | the language is the prefix of the tag before its first `-` |
| BestLocale.LastPrefixMatch | packages/integration-carbon/src/utils/get-best-locale.ts:8-12 | the last available locale starting with the language, or none exactly when no locale does |
| BestLocale.Best | packages/integration-carbon/src/utils/get-best-locale.ts:1-18 | no locale exactly when none is available; a locale returned is always available |
| BestLocale.GetBestLocale | packages/integration-carbon/src/utils/get-best-locale.ts:1-18 | the loops return `Best` |
| BestLocale.FirstMatchingUserWins | packages/integration-carbon/src/utils/get-best-locale.ts:5-9 | the first user locale that matches at all decides, and an exact match returns it |
| BestLocale.FirstLanguageMatchWins | packages/integration-carbon/src/utils/get-best-locale.ts:10-14 | otherwise the last available locale starting with that user locale's language is returned |
| BestLocale.NoMatchTakesFirst | packages/integration-carbon/src/utils/get-best-locale.ts:17 | with no user locale matched, the first available locale is returned |
| BestLocale.LaterStart | packages/integration-carbon/src/utils/get-best-locale.ts:5-15 | unmatched user locales are skipped |
| BestLocale.LanguageExamples | packages/integration-carbon/src/utils/get-best-locale.ts:10 | `en-GB` has language `en`; `fr` and the empty tag are their own |
| CommandOptions.Keys | packages/integration-carbon/src/utils/combine-command-options.ts:23 | an object's keys in order; an array's indices in decimal; nothing else has keys |
| CommandOptions.Put | packages/integration-carbon/src/utils/combine-command-options.ts:29-43 | the key takes the value and keeps its place, or goes last when new; every other key is unchanged |
| CommandOptions.UnionKeys | packages/integration-carbon/src/utils/combine-command-options.ts:23 | the keys of all values, each once |
| CommandOptions.UnionKeysStep | packages/integration-carbon/src/utils/combine-command-options.ts:23 | adding one more value only appends keys after those already collected |
| CommandOptions.UnionKeysExtends | packages/integration-carbon/src/utils/combine-command-options.ts:23 | first-seen order: the keys of the first `m` values keep their places among the keys of the first `n`, for `m <= n` |
| CommandOptions.PrefixOfPrefix | packages/integration-carbon/src/utils/combine-command-options.ts:23 | a prefix of a prefix is a prefix, the step that makes the key order carry over from value to value |
| CommandOptions.KeyColumn | packages/integration-carbon/src/utils/combine-command-options.ts:43 | the property `key` of each value, `undefined` where missing |
| CommandOptions.LocaleIndex | packages/integration-carbon/src/utils/combine-command-options.ts:28 | the first position of the default locale, or none exactly when it is not selected |
| CommandOptions.SelectedExactly | packages/integration-carbon/src/utils/combine-command-options.ts:13-15 | a record is selected exactly when it is one of the records and its locale is allowed or is the default one |
| CommandOptions.SelectedCons | packages/integration-carbon/src/utils/combine-command-options.ts:13-15 | the first record is kept exactly when its locale is allowed or the default one, and the rest are filtered on their own |
| CommandOptions.SelectedAppend | packages/integration-carbon/src/utils/combine-command-options.ts:13-15 | filtering keeps the order: the records selected from `a + b` are those from `a`, then those from `b` |
| CommandOptions.SelectedOne | packages/integration-carbon/src/utils/combine-command-options.ts:13-15 | a single record is kept exactly when its locale is allowed or the default one |
| CommandOptions.Combined | packages/integration-carbon/src/utils/combine-command-options.ts:9-54 | fails, as the source throws, exactly when no record is selected |
| CommandOptions.Recurse | packages/integration-carbon/src/utils/combine-command-options.ts:17-51 | returns `Merge` |
| CommandOptions.RecurseItems | packages/integration-carbon/src/utils/combine-command-options.ts:18-20 | one item per item of the first array, each merged from its column |
| CommandOptions.RecurseFields | packages/integration-carbon/src/utils/combine-command-options.ts:22-47 | the fields are the writes of every key pass applied in order |
| CommandOptions.LocalisationMap | packages/integration-carbon/src/utils/combine-command-options.ts:31-39 | the loop builds the map `Localisations` specifies |
| CommandOptions.CombineCommandOptions | packages/integration-carbon/src/utils/combine-command-options.ts:9-54 | returns `Combined` |
| CommandOptions.MergeArrays | packages/integration-carbon/src/utils/combine-command-options.ts:18-20 | when all values are arrays, the result is an array as long as the first, item i merged from the i-th items |
| CommandOptions.Merge | packages/integration-carbon/src/utils/combine-command-options.ts:17-51 | arrays merge into an array as long as the first; objects, some not arrays, into an object; and if any value is not an object, the result is one of the values or `undefined` |
| CommandOptions.MergeLeaf | packages/integration-carbon/src/utils/combine-command-options.ts:50 | when some value is not an object, the result is the default locale's value, `undefined` without one |
| CommandOptions.MergeObjectKey | packages/integration-carbon/src/utils/combine-command-options.ts:26-44 | every key but the localised ones is present exactly when some value has it, merged from the values' properties |
| CommandOptions.MergeLocalisedKey | packages/integration-carbon/src/utils/combine-command-options.ts:27-41 | `name` and `description` take the default locale's value when defined, and their `Localizations` map |
| CommandOptions.LocalisationsHold | packages/integration-carbon/src/utils/combine-command-options.ts:34-39 | the localisation map holds each non-default locale's defined value, and nothing for any other locale |
| Renderer.GetComponent | packages/integration-react/src/components/renderer.ts:24-28 | a resolver's component, or the tag as an intrinsic element; a record's entry for a non-empty tag, else `Fragment` |
| Renderer.TextEnd | packages/integration-react/src/components/renderer.ts:71-72 | a text runs to the next `<` or the end, and holds no `<` |
| Renderer.IsSelfClosing | packages/integration-react/src/components/renderer.ts:40-42 | a tag self-closes exactly when the first `>` after `<` comes right after a `/` |
| Renderer.TagName | packages/integration-react/src/components/renderer.ts:46 | a tag with no `/` is just its trimmed text |
| Renderer.TagNameDropsFirstSlash | packages/integration-react/src/components/renderer.ts:46 | for any tag text whose first `/` is at `k`, the name is that text with the `/` at `k` dropped, trimmed |
| Renderer.SelfClosingTagName | packages/integration-react/src/components/renderer.ts:46 | `x/` names the tag `x`, trimmed |
| Renderer.SelfClosingTag | packages/integration-react/src/components/renderer.ts:39-42 | `<x/>`, for any `x` without `/` or `>`, is self-closing and not a closing tag |
| Renderer.SelfClosingGt | packages/integration-react/src/components/renderer.ts:40-45 | in `<x/>` the first `>` after the `<`, and after the tag start, is the one that ends it |
| Renderer.ScanStep | packages/integration-react/src/components/renderer.ts:37-76 | every pass moves forward and never lowers the key counter; a pass that stops does so at the `<` it started from |
| Renderer.Scan | packages/integration-react/src/components/renderer.ts:37-79 | the key counter never goes down, and a scan that fails does so at a `<` inside the input |
| Renderer.ParseNode | packages/integration-react/src/components/renderer.ts:32-80 | the loop ends with the outcome `Scan` specifies |
| Renderer.ParseStep | packages/integration-react/src/components/renderer.ts:38-76 | one pass of the loop body gives the step `ScanStep` specifies |
| Renderer.ParseTag | packages/integration-react/src/components/renderer.ts:38-69 | the pass for a `<` gives the step `ScanStep` specifies |
| Renderer.StepKeys | packages/integration-react/src/components/renderer.ts:50-69 | each pass keeps the element keys, open frames first, numbered 0, 1, ... in creation order |
| Renderer.ScanKeys | packages/integration-react/src/components/renderer.ts:37-77 | the whole scan keeps that numbering |
| Renderer.ParsedKeys | packages/integration-react/src/components/renderer.ts:30-80 | a well-nested string gives elements keyed 0, 1, ... with no key repeated |
| Renderer.PlainText | packages/integration-react/src/components/renderer.ts:70-76 | a string without `<` is one text node |
| Renderer.NestedExample | packages/integration-react/src/components/renderer.ts:32-80 | `<0>Hi</0><1/>` gives the mapped component around `Hi`, keyed 0, then the intrinsic `br`, keyed 1 |
| Runtime.SetLoader | packages/integration/src/runtime.ts:40 | the locale gets the loader; other locales keep theirs; a new locale goes last; the keys listed stay exactly the keys with a loader, each once |
| Runtime.Assigned | packages/integration/src/runtime.ts:38-41 | the cache holds the messages under the locale, whose loader now returns them; other loaders are unchanged |
| Runtime.Sayable.constructor | packages/integration/src/runtime.ts:14-18 | takes the loader record, an empty cache of its own, and no active locale |
| Runtime.Sayable.Locale | packages/integration/src/runtime.ts:20-23 | the active locale, and an error exactly when none or the empty one is active |
| Runtime.Sayable.Assign | packages/integration/src/runtime.ts:38-41 | the shared state becomes `Assigned` of the old one |
| Runtime.Sayable.Load | packages/integration/src/runtime.ts:29-36 | the shared state becomes the passes of the `load` loop over the requested locales, or over every locale when none is requested |
| Runtime.Sayable.Messages | packages/integration/src/runtime.ts:43-46 | the active locale's cached messages, and an error exactly when there is no active locale or nothing is cached for it |
| Runtime.Sayable.Activate | packages/integration/src/runtime.ts:48-53 | succeeds exactly when the locale has a loader, and only then changes the active locale |
| Runtime.Sayable.Clone | packages/integration/src/runtime.ts:60-65 | a new object sharing the loader record and the cache, with the same active locale |
| Runtime.Sayable.Call | packages/integration/src/runtime.ts:67-84 | the formatted message of the id, and an error exactly when there are no messages or the id's text is missing or empty |
| Runtime.AssignKeepsConsistent | packages/integration/src/runtime.ts:38-41 | after `assign`, every cached locale's loader returns its cached messages |
| Runtime.LoadKeepsConsistent | packages/integration/src/runtime.ts:29-36 | `load` keeps that agreement |
| Runtime.LoadStep | packages/integration/src/runtime.ts:31-35 | after one pass the locale is settled, and no cached catalogue changes |
| Runtime.LoadKeepsWellKeyed | packages/integration/src/runtime.ts:25-36 | after `load`, `locales` still lists exactly the locales that have a loader, each once |
| Runtime.LoadKeepsCached | packages/integration/src/runtime.ts:32 | a cached locale is never loaded again |
| Runtime.LoadSettles | packages/integration/src/runtime.ts:29-36 | after `load`, every requested locale is cached, without a loader, or with a loader that yields nothing |
| Runtime.StepKeepsSettled | packages/integration/src/runtime.ts:31-35 | a pass settles its locale and keeps every settled locale settled |
| Runtime.LoadIdempotent | packages/integration/src/runtime.ts:29-36 | loading the same locales twice is loading them once |
| Runtime.SettledLoadIsIdentity | packages/integration/src/runtime.ts:29-36 | loading settled locales changes nothing |
| Runtime.LoadCaches | packages/integration/src/runtime.ts:31-35 | a requested locale whose loader yields messages ends cached |
| Runtime.LoaderKeptUntilCached | packages/integration/src/runtime.ts:29-36 | `load` only grows the cache, and changes no loader of a locale it does not cache |
| Runtime.StepKeepsLoader | packages/integration/src/runtime.ts:32-34 | one pass only grows the cache, and changes only the loader of the locale it caches |
| Runtime.AssignThroughClone | packages/integration/src/runtime.ts:60-65 | messages assigned through a clone are cached, with their loader, in the original too |
| Text.AsciiLowerString | packages/factory/src/features/jsx/parser.rs:242 | lower-cases character by character, keeping the length |
| Text.TrimStart | packages/factory/src/core/messages/convert.rs:74 | removes exactly the leading whitespace |
| Text.TrimEnd | packages/factory/src/core/messages/convert.rs:74 | removes exactly the trailing whitespace |
| Text.RustTrimIdempotent | packages/factory/src/core/messages/convert.rs:74 | trimming twice is trimming once |
| Text.CollapseWhitespace | packages/factory/src/features/jsx/parser.rs:84-92 | every whitespace left is a space and no two are adjacent; a leading space means the text began with whitespace; the other characters are those of the text, in order |
| Text.CollapseByPosition | packages/factory/src/features/jsx/parser.rs:84-92 | collapsing keeps every other character in place and writes exactly one space for each maximal whitespace run |
| Text.CollapseIdempotent | packages/factory/src/features/jsx/parser.rs:90-92 | collapsing twice is collapsing once |
| Text.NatToString | packages/factory/src/core/context.rs:41 | non-empty decimal digits, with no leading zero except for zero |
| Text.NatToStringValue | packages/factory/src/core/context.rs:41 | the digits read back as the number |
| Text.NatToStringInjective | packages/factory/src/core/context.rs:41 | different counters print differently |
| Text.ParseI32 | packages/factory/src/core/messages/convert.rs:45 | a parsed key fits in 32 signed bits |
| Text.ParseI32OfPrinted | packages/factory/src/core/messages/convert.rs:45-46 | a printed 32-bit integer parses back to itself |
| Text.DigitsParseAsF64 | packages/factory/src/features/jsx/generator.rs:32 | a name of digits parses as a float |
| Text.IndexOf | packages/integration-react/src/components/renderer.ts:41-45 | the first occurrence at or after the start, or none exactly when there is no occurrence |
| Text.ReplaceAtFirstOccurrence | packages/config/src/commands/compile.ts:52-53 | replacing a pattern rewrites its first occurrence; replacing all continues after it |
| Text.ReplaceAbsent | packages/config/src/commands/compile.ts:52-53 | a pattern that does not occur changes nothing |
| Text.ReplaceAllFromParts | packages/config/src/commands/extract.ts:196-198 | on a text cut into parts that are either the `{`-pattern or cannot start it, `replaceAll` turns exactly the parts equal to the pattern into the replacement and keeps the rest in order |
| Runtime.LoaderTable.constructor | packages/integration/src/runtime.ts:14-15 | the record holds the loaders it was given |
| Runtime.MessageCache.constructor | packages/integration/src/runtime.ts:16 | a new cache is empty |

## Left out

- Asynchrony: `load`, the loaders and both commands await one step at a time; the model runs those steps in the same order, sequentially.
- Runtime.Sayable.Call: `IntlMessageFormat` is a parameter `format`, given the message text and the locale; the descriptor's values passed to it are not modelled.
- Runtime.Sayable.Call: the check that a message is a string (runtime.ts:79-80) is not modelled, because catalogue texts are strings by type.
- Runtime.Sayable.Load: an application loader is a `Supplied` name whose result the `fetch` parameter gives, `None` standing for a falsy result. A loader that throws is not modelled, and neither are inherited keys such as `toString` of the loader record.
- Runtime.Sayable.Call: a catalogue is a map, so inherited keys are not modelled. In the source, `messages[descriptor.id]` (packages/integration/src/runtime.ts:76) finds `Object.prototype` members: an id such as `toString` reaches the "is not a string" error of line 80, where the model reports "not found".
- Renderer.GetComponent: `tag in components` (packages/integration-react/src/components/renderer.ts:27) also sees inherited properties. A record without a `constructor` entry gives the tag `constructor` the inherited `Object` function, where the model gives `Fragment`.
- JsGenerator.CallId: its descriptor-id branch models `message.descriptor.id` of packages/factory/src/features/js/generator.rs:26-30. The Composite message of packages/factory/src/core/messages/types.rs:126-134 declares no such field; the model's `CompositeMessage.id` stands for it. No parser in the model sets it, so every parsed message takes the hash branch.
- Runtime: `freeze` and the `inspect` hook are left out. `Object.freeze` does not reach private fields, so it changes nothing the model tracks, and the hook only formats for display.
- Hash: SHA-256 is a parameter, known only to yield 32 bytes. UTF-8 and base64 are written out.
- Extract and Compile: `generateHash` of the message utilities is a parameter `Hasher`. Where a lemma needs it, `IsGenerateHash` ties it to `Hash.GenerateHash`.
- Extract and Compile: file reads and writes, glob, mkdir, `path.resolve`, the formatter's `parse` and `stringify`, and the logger are left out. Catalogues read are inputs (`files` in Compile); the tables written are the results.
- Extract: `watchDebounce` and the watch loop are left out, as timers and concurrency. So is the extractor plugin call: its messages are the input of `ExtractMessages`.
- Extract.ExtractedEntry: extract.ts:12 and 162 build the catalogue text with `generateIcuMessageFormat` from packages/tsc-plugin/src/icu-generator.ts:6-32, which is not part of this model; the model uses the factory's `Messages.ConvertMessageToIcu` in its place. The plugin does not trim (icu-generator.ts:9, against convert.rs:74), writes `=k` only for keys of ASCII digits (icu-generator.ts:22, against every i32 key such as `+5` or `-3` in convert.rs:45-48), and lists choice branches in `Object.entries` order, integer-like keys first. So the source files a message ` Hello ` under the hash of ` Hello ` and the model under the hash of `Hello`; `ExtractedEntryKey` holds only where the two texts agree.
- Extract.UpdatedEntries: every parsed entry is taken to carry a `message` field. The source's object spread would keep the new text for an entry without one.
- Compile: `hydrateMessages` and `applyFallbacks` recurse without a bound. The model gives them a `fuel` count, and `Diverges` stands for a run that does not finish within it. `UntranslatedSourceDiverges` and `FallbackCycleDiverges` prove that some inputs diverge for every fuel: in JavaScript these overflow the stack.
- JsxParser: Rust's `to_lowercase` of the member name is modelled as ASCII lower-casing (`AsciiLowerString`); other letters keep their case.
- JsxParser: the `back()` after a failed parse of the made-up `<Say>` is not modelled as a branch. `FakeSayAlwaysParses` proves that branch is unreachable.
- JsxParser: a choice element's valueless attribute that is not `_` adds no branch. The source panics there (see Findings).
- Syntax: the swc syntax tree is modelled by a few constructors (identifiers, calls, members, objects, literals, tagged templates, JSX), with positions as numbers and leading comments as a map from position to texts.
- Text: JavaScript strings are UTF-16 code units; the model's characters are Unicode scalar values. Indices into text holding characters outside the Basic Multilingual Plane are not modelled.
- CommandOptions: a string, number, boolean or function value is an opaque `Scalar`. Carbon's `Locale` values are the parameter `allowed`. Object keys are kept in insertion order, although JavaScript lists integer-like keys first. The `length` of an array and inherited properties are not keys in the model.
- CommandOptions.Keys: `Object.keys` of a string (its indices) is not modelled; a string has no keys here.
- Renderer: `createElement` is modelled by the `Element` node it builds, and the `Fragment` wrapping the result is left out.
- Renderer: a `<` with no `>` after it gives `Unterminated`. In the source, the scan restarts from the beginning with the stack it has, and then either never ends or throws at a closing tag with nothing open.
- Renderer: a closing tag with no open tag gives `CloseWithoutOpen`, where the source throws reading `tag` of `undefined`.
- Messages: a message with other than one variant set is `unreachable!` in the source, so the renderer requires `WellFormed`.
- Extract and Compile: catalogues and compiled tables are maps, so the order of their entries is not modelled. The source writes them in `Object.fromEntries` and insertion order, and JavaScript lists integer-like keys, which some hashes are, first. Nothing in the core depends on that order.
- Runtime.SetLoader: `Runtime.Record` keeps its locale keys in plain insertion order, where JavaScript would list an integer-like key such as `123` first. Nothing in the core depends on that order.
- Extract.ResolveOutputFilePathFills: holds for a locale without `{` and for values without `$`, which `replaceAll` would expand as a pattern (`Text.Substitution` models that expansion, but no lemma follows it through the path).

## Findings

| source | as written | input that shows it | evidently intended | confidence | as-written member | corrected member |
|---|---|---|---|---|---|---|
| packages/factory/src/features/jsx/parser.rs:156-160 | the value of each attribute of a choice element is unwrapped before the `_` attribute is skipped, so a valueless attribute panics | `<Say.select _ other="x" />` | a valueless `_` reads as `true`, as `find_attribute_value` (lines 257-279) was written to do, and a valueless branch adds nothing | not executed | JsxParser.ValuelessSelectorAborts | JsxParser.ValuelessSelectorParses |
| packages/factory/src/features/jsx/generator.rs:32-34 | every name that parses as an f64 gets an underscore, including `NaN`, `inf` and `infinity` | a placeholder named `NaN`, as in `<Say>{NaN}</Say>` | prefix exactly the names the React side decodes (`_` and digits, packages/integration-react/src/types.ts:10), so every name comes back | not executed | JsxGenerator.AsWrittenNaNIsLost | JsxGenerator.SafeNameRoundTrip |
| packages/config/src/commands/extract.ts:75-81 | `mapMessages` appends a duplicate's references to the first entry's own array, and runs once per locale over the same entries | one message found at `a.ts:1` and `b.ts:2`, with two locales | every locale's catalogue lists each reference once | not executed | Extract.SecondLocaleRepeatsReferences | Extract.MapMessagesMerges |
| packages/config/src/commands/compile.ts:109-111 | a fallback locale's table is built from the requesting locale's messages and cached as the fallback's own | `fr` falls back to `fr-CA`; `fr` leaves `Hi` untranslated; `fr-CA` translates it `Salut` and is compiled after `fr` | each locale's table is built from its own catalogue | not executed | Compile.FallbackCompiledFromRequester | Compile.RereadKeepsOwnTranslations |
| packages/config/src/commands/compile.ts:50-53 | `replace` substitutes only the first `{locale}` and `{extension}`, while `extract` writes the file with `replaceAll` | output template `{locale}/{locale}` and locale `fr` | compile reads the file extract wrote, every placeholder replaced | not executed | Compile.SecondLocaleKept | Extract.ResolveOutputFilePathFills |
