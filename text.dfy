/** String operations the core relies on, written out with the exact
    semantics of the Rust standard library (`trim`, `parse::<i32>`,
    `parse::<f64>`, the `regex` crate's `\s+`) and of JavaScript's
    `String.prototype` methods (`trim`, `replace`, `replaceAll`, `indexOf`). */
module Text {
  import opened Wrappers

  // ---------------------------------------------------------------------------
  // Character classes

  /** Unicode White_Space: Rust's `char::is_whitespace`, `str::trim` and
      the `regex` crate's Unicode `\s`. */
  predicate IsRustWhitespace(c: char) {
    ('\t' <= c <= '\r') || c == ' ' || c == '\U{85}' || c == '\U{A0}' || c == '\U{1680}'
    || ('\U{2000}' <= c <= '\U{200A}') || c == '\U{2028}' || c == '\U{2029}'
    || c == '\U{202F}' || c == '\U{205F}' || c == '\U{3000}'
  }

  /** WhiteSpace and LineTerminator of ECMAScript, stripped by `String.prototype.trim`.
      Unlike Rust it includes U+FEFF and excludes U+0085. */
  predicate IsJsWhitespace(c: char) {
    ('\t' <= c <= '\r') || c == ' ' || c == '\U{A0}' || c == '\U{1680}'
    || ('\U{2000}' <= c <= '\U{200A}') || c == '\U{2028}' || c == '\U{2029}'
    || c == '\U{202F}' || c == '\U{205F}' || c == '\U{3000}' || c == '\U{FEFF}'
  }

  predicate IsAsciiDigit(c: char) {
    '0' <= c <= '9'
  }

  predicate AllDigits(s: string) {
    forall k :: 0 <= k < |s| ==> IsAsciiDigit(s[k])
  }

  function AsciiLower(c: char): char {
    if 'A' <= c <= 'Z' then (c as int + 32) as char else c
  }

  function AsciiLowerString(s: string): (r: string)
    ensures |r| == |s|
    ensures forall k :: 0 <= k < |s| ==> r[k] == AsciiLower(s[k])
  {
    seq(|s|, k requires 0 <= k < |s| => AsciiLower(s[k]))
  }

  // ---------------------------------------------------------------------------
  // Trimming

  /** Drops the leading characters satisfying `ws`. */
  function TrimStart(s: string, ws: char -> bool): (r: string)
    ensures |r| <= |s| && r == s[|s| - |r|..]
    ensures forall k :: 0 <= k < |s| - |r| ==> ws(s[k])
    ensures r != [] ==> !ws(r[0])
  {
    if s != [] && ws(s[0]) then TrimStart(s[1..], ws) else s
  }

  /** Drops the trailing characters satisfying `ws`. */
  function TrimEnd(s: string, ws: char -> bool): (r: string)
    ensures |r| <= |s| && r == s[..|r|]
    ensures forall k :: |r| <= k < |s| ==> ws(s[k])
    ensures r != [] ==> !ws(r[|r| - 1])
  {
    if s != [] && ws(s[|s| - 1]) then TrimEnd(s[..|s| - 1], ws) else s
  }

  /** Rust `str::trim`. */
  function RustTrim(s: string): string {
    TrimEnd(TrimStart(s, IsRustWhitespace), IsRustWhitespace)
  }

  /** ECMAScript `String.prototype.trim`. */
  function JsTrim(s: string): string {
    JsTrimEnd(JsTrimStart(s))
  }

  function JsTrimStart(s: string): string {
    if s != [] && IsJsWhitespace(s[0]) then JsTrimStart(s[1..]) else s
  }

  function JsTrimEnd(s: string): string {
    if s != [] && IsJsWhitespace(s[|s| - 1]) then JsTrimEnd(s[..|s| - 1]) else s
  }

  /** Trimming twice is trimming once. */
  lemma {:induction false} RustTrimIdempotent(s: string)
    ensures RustTrim(RustTrim(s)) == RustTrim(s)
  {
    var r := RustTrim(s);
    if r != [] {
      assert TrimStart(r, IsRustWhitespace) == r;
      assert TrimEnd(r, IsRustWhitespace) == r;
    }
  }

  // ---------------------------------------------------------------------------
  // Whitespace collapsing: the `regex` crate's `Regex::new(r"\s+").replace_all(s, " ")`

  function CollapseWhitespace(s: string): (r: string)
    ensures forall k :: 0 <= k < |r| && IsRustWhitespace(r[k]) ==> r[k] == ' '
    ensures forall k :: 0 <= k < |r| - 1 ==> !(IsRustWhitespace(r[k]) && IsRustWhitespace(r[k + 1]))
    ensures r != [] && IsRustWhitespace(r[0]) ==> s != [] && IsRustWhitespace(s[0])
    ensures Visible(r) == Visible(s)
    decreases |s|
  {
    if s == [] then []
    else if IsRustWhitespace(s[0]) then
      var rest := TrimStart(s, IsRustWhitespace);
      VisibleAfterRun(s, |s| - |rest|);
      assert (" " + CollapseWhitespace(rest))[1..] == CollapseWhitespace(rest);
      " " + CollapseWhitespace(rest)
    else
      assert ([s[0]] + CollapseWhitespace(s[1..]))[1..] == CollapseWhitespace(s[1..]);
      [s[0]] + CollapseWhitespace(s[1..])
  }

  /** The characters of `s` that are not whitespace, in order. */
  function Visible(s: string): string {
    if s == [] then []
    else if IsRustWhitespace(s[0]) then Visible(s[1..])
    else [s[0]] + Visible(s[1..])
  }

  /** A leading run of whitespace adds nothing visible. */
  lemma {:induction false} VisibleAfterRun(s: string, j: nat)
    requires j <= |s| && forall k :: 0 <= k < j ==> IsRustWhitespace(s[k])
    ensures Visible(s) == Visible(s[j..])
    decreases j
  {
    if j > 0 {
      assert s[1..][j - 1..] == s[j..];
      VisibleAfterRun(s[1..], j - 1);
    }
  }

  /** The replacement read position by position: a character that is not
      whitespace is kept, the first character of each maximal whitespace run
      becomes one space, and the rest of the run is dropped. */
  function CollapsedFrom(s: string, k: nat): string
    requires k <= |s|
    decreases |s| - k
  {
    if k == |s| then []
    else if !IsRustWhitespace(s[k]) then [s[k]] + CollapsedFrom(s, k + 1)
    else if k == 0 || !IsRustWhitespace(s[k - 1]) then " " + CollapsedFrom(s, k + 1)
    else CollapsedFrom(s, k + 1)
  }

  /** Collapsing gives exactly one space per maximal whitespace run and keeps
      every other character where it was. */
  lemma CollapseByPosition(s: string)
    ensures CollapseWhitespace(s) == CollapsedFrom(s, 0)
  {
    assert s[0..] == s;
    CollapseAt(s, 0);
  }

  lemma {:induction false} CollapseAt(s: string, k: nat)
    requires k <= |s|
    requires k < |s| && IsRustWhitespace(s[k]) && k > 0 ==> !IsRustWhitespace(s[k - 1])
    ensures CollapseWhitespace(s[k..]) == CollapsedFrom(s, k)
    decreases |s| - k
  {
    if k < |s| {
      var t := s[k..];
      if !IsRustWhitespace(s[k]) {
        assert t[1..] == s[k + 1..];
        CollapseAt(s, k + 1);
      } else {
        var rest := TrimStart(t, IsRustWhitespace);
        var j := k + (|t| - |rest|);
        assert rest == s[j..];
        assert t[0] == s[k];
        forall m | k <= m < j
          ensures IsRustWhitespace(s[m])
        {
          assert s[m] == t[m - k];
        }
        SkipRun(s, k + 1, j);
        CollapseAt(s, j);
      }
    }
  }

  /** Inside a whitespace run nothing more is written. */
  lemma {:induction false} SkipRun(s: string, k: nat, j: nat)
    requires 0 < k <= j <= |s|
    requires forall m :: k - 1 <= m < j ==> IsRustWhitespace(s[m])
    ensures CollapsedFrom(s, k) == CollapsedFrom(s, j)
    decreases j - k
  {
    if k < j {
      SkipRun(s, k + 1, j);
    }
  }

  /** Text without whitespace runs is left as it is: collapsing is idempotent. */
  lemma {:induction false} CollapseIdempotent(s: string)
    ensures CollapseWhitespace(CollapseWhitespace(s)) == CollapseWhitespace(s)
    decreases |s|
  {
    if s == [] {
    } else if IsRustWhitespace(s[0]) {
      var rest := TrimStart(s, IsRustWhitespace);
      var c := CollapseWhitespace(rest);
      CollapseIdempotent(rest);
      var cc := " " + c;
      assert cc[1..] == c;
      if c != [] {
        assert !IsRustWhitespace(c[0]);
      }
      assert TrimStart(cc, IsRustWhitespace) == c;
    } else {
      CollapseIdempotent(s[1..]);
      var cc := [s[0]] + CollapseWhitespace(s[1..]);
      assert cc[1..] == CollapseWhitespace(s[1..]);
    }
  }

  // ---------------------------------------------------------------------------
  // Decimal numbers

  function DigitChar(d: nat): char
    requires d < 10
  {
    ('0' as int + d) as char
  }

  function DigitsValue(s: string): nat
    requires AllDigits(s)
  {
    if s == [] then 0 else DigitsValue(s[..|s| - 1]) * 10 + (s[|s| - 1] as int - '0' as int)
  }

  /** `usize::to_string`: the decimal digits of `n`, without leading zeros. */
  function NatToString(n: nat): (r: string)
    ensures r != [] && AllDigits(r)
    ensures r[0] == '0' ==> n == 0
  {
    if n < 10 then [DigitChar(n)] else NatToString(n / 10) + [DigitChar(n % 10)]
  }

  /** Rust's `Display` for a signed integer. */
  function IntToString(n: int): string {
    if n < 0 then "-" + NatToString(-n) else NatToString(n)
  }

  /** Decimal printing is read back by digit evaluation. */
  lemma {:induction false} NatToStringValue(n: nat)
    ensures DigitsValue(NatToString(n)) == n
  {
    if n >= 10 {
      NatToStringValue(n / 10);
      var s := NatToString(n);
      assert s[..|s| - 1] == NatToString(n / 10);
    }
  }

  /** Printed naturals are distinct for distinct numbers. */
  lemma NatToStringInjective(a: nat, b: nat)
    ensures NatToString(a) == NatToString(b) ==> a == b
  {
    NatToStringValue(a);
    NatToStringValue(b);
  }

  const I32Min: int := -0x8000_0000
  const I32Max: int := 0x7FFF_FFFF

  /** Rust `str::parse::<i32>`: an optional `+` or `-` sign followed by at least
      one ASCII digit, with the value in range; leading zeros are accepted. */
  function ParseI32(s: string): (r: Option<int>)
    ensures r.Some? ==> I32Min <= r.value <= I32Max
  {
    var negative := |s| > 0 && s[0] == '-';
    var digits := if |s| > 0 && (s[0] == '-' || s[0] == '+') then s[1..] else s;
    if digits == [] || !AllDigits(digits) then None
    else
      var d: int := DigitsValue(digits);
      var v := if negative then -d else d;
      if I32Min <= v <= I32Max then Some(v) else None
  }

  /** Every 32-bit integer survives printing and parsing. */
  lemma ParseI32OfPrinted(n: int)
    requires I32Min <= n <= I32Max
    ensures ParseI32(IntToString(n)) == Some(n)
  {
    if n < 0 {
      ParseI32OfNegative(n);
    } else {
      ParseI32OfNonNegative(n);
    }
  }

  lemma ParseI32OfNegative(n: int)
    requires I32Min <= n < 0
    ensures ParseI32(IntToString(n)) == Some(n)
  {
    var digits := NatToString(-n);
    NatToStringValue(-n);
    var s := "-" + digits;
    assert s[0] == '-' && s[1..] == digits;
  }

  lemma ParseI32OfNonNegative(n: int)
    requires 0 <= n <= I32Max
    ensures ParseI32(IntToString(n)) == Some(n)
  {
    NatToStringValue(n);
    var s := NatToString(n);
    assert s[0] != '-' && s[0] != '+';
  }

  /** Rust `str::parse::<f64>` succeeds exactly on the strings of the grammar
      `Sign? ('inf' | 'infinity' | 'nan' | Number)`, compared without ASCII case,
      where `Number ::= (Digit+ | Digit+ '.' Digit* | Digit* '.' Digit+) Exp?`
      and `Exp ::= 'e' Sign? Digit+`. */
  predicate ParsesAsF64(s: string) {
    var body := if |s| > 0 && (s[0] == '+' || s[0] == '-') then s[1..] else s;
    var lower := AsciiLowerString(body);
    lower == "inf" || lower == "infinity" || lower == "nan" || IsDecimalNumber(lower)
  }

  predicate IsMantissa(m: string) {
    && (forall k :: 0 <= k < |m| ==> IsAsciiDigit(m[k]) || m[k] == '.')
    && (forall j, k :: 0 <= j < k < |m| && m[j] == '.' ==> m[k] != '.')
    && (exists k :: 0 <= k < |m| && IsAsciiDigit(m[k]))
  }

  predicate IsExponent(e: string) {
    var digits := if |e| > 0 && (e[0] == '+' || e[0] == '-') then e[1..] else e;
    digits != [] && AllDigits(digits)
  }

  /** `Number` over a lower-cased string: a mantissa, optionally followed by
      `e` and an exponent. */
  predicate IsDecimalNumber(t: string) {
    IsMantissa(t) || exists k :: 0 <= k < |t| && t[k] == 'e' && IsMantissa(t[..k]) && IsExponent(t[k + 1..])
  }

  /** The numeric names the code generators meet (`0`, `12`) parse as f64. */
  lemma DigitsParseAsF64(s: string)
    requires s != [] && AllDigits(s)
    ensures ParsesAsF64(s)
  {
    var lower := AsciiLowerString(s);
    assert lower == s;
    assert IsAsciiDigit(s[0]);
    assert IsMantissa(s);
  }

  // ---------------------------------------------------------------------------
  // Searching and replacing

  predicate StartsWith(s: string, prefix: string) {
    |prefix| <= |s| && s[..|prefix|] == prefix
  }

  predicate OccursAt(s: string, pat: string, i: nat) {
    i + |pat| <= |s| && s[i..i + |pat|] == pat
  }

  predicate Contains(s: string, pat: string) {
    exists i: nat :: i <= |s| && OccursAt(s, pat, i)
  }

  /** ECMAScript `s.indexOf(pat, from)`: the first occurrence at or after `from`
      (`None` standing for -1). */
  function IndexOf(s: string, pat: string, from: nat): (r: Option<nat>)
    ensures r.Some? ==> from <= r.value && OccursAt(s, pat, r.value)
    ensures r.Some? ==> forall k: nat :: from <= k < r.value ==> !OccursAt(s, pat, k)
    ensures r.None? ==> forall k: nat :: from <= k ==> !OccursAt(s, pat, k)
    decreases |s| - from
  {
    if from + |pat| > |s| then None
    else if OccursAt(s, pat, from) then Some(from)
    else IndexOf(s, pat, from + 1)
  }

  /** ECMAScript GetSubstitution for a string pattern (no capture groups):
      `$$`, `$&`, `` $` `` and `$'` are expanded, any other `$` is kept. */
  function Substitution(s: string, pos: nat, pat: string, rep: string): string
    requires pos + |pat| <= |s|
  {
    if rep == [] then []
    else if rep[0] == '$' && |rep| >= 2 && rep[1] == '$' then "$" + Substitution(s, pos, pat, rep[2..])
    else if rep[0] == '$' && |rep| >= 2 && rep[1] == '&' then pat + Substitution(s, pos, pat, rep[2..])
    else if rep[0] == '$' && |rep| >= 2 && rep[1] == '`' then s[..pos] + Substitution(s, pos, pat, rep[2..])
    else if rep[0] == '$' && |rep| >= 2 && rep[1] == '\'' then s[pos + |pat|..] + Substitution(s, pos, pat, rep[2..])
    else [rep[0]] + Substitution(s, pos, pat, rep[1..])
  }

  /** A replacement without `$` is inserted as it is. */
  lemma {:induction false} SubstitutionPlain(s: string, pos: nat, pat: string, rep: string)
    requires pos + |pat| <= |s|
    requires '$' !in rep
    ensures Substitution(s, pos, pat, rep) == rep
  {
    if rep != [] {
      assert rep[0] != '$';
      assert rep[1..] == rep[1..];
      assert forall c :: c in rep[1..] ==> c in rep;
      SubstitutionPlain(s, pos, pat, rep[1..]);
    }
  }

  /** ECMAScript `s.replace(pat, rep)` with a string pattern: only the first
      occurrence is replaced. */
  function ReplaceFirst(s: string, pat: string, rep: string): string {
    match IndexOf(s, pat, 0)
    case None => s
    case Some(i) => s[..i] + Substitution(s, i, pat, rep) + s[i + |pat|..]
  }

  /** ECMAScript `s.replaceAll(pat, rep)` with a non-empty string pattern:
      every non-overlapping occurrence, scanning left to right, is replaced. */
  function ReplaceAll(s: string, pat: string, rep: string): string
    requires pat != []
  {
    ReplaceAllFrom(s, pat, rep, 0)
  }

  function ReplaceAllFrom(s: string, pat: string, rep: string, from: nat): string
    requires pat != [] && from <= |s|
    decreases |s| - from
  {
    match IndexOf(s, pat, from)
    case None => s[from..]
    case Some(i) => s[from..i] + Substitution(s, i, pat, rep) + ReplaceAllFrom(s, pat, rep, i + |pat|)
  }

  /** A string without the pattern is left unchanged by both replacements. */
  lemma ReplaceAbsent(s: string, pat: string, rep: string)
    requires pat != []
    requires forall k: nat :: !OccursAt(s, pat, k)
    ensures ReplaceFirst(s, pat, rep) == s
    ensures ReplaceAll(s, pat, rep) == s
  {
  }

  /** A text with no `{` holds no placeholder, so neither replacement changes it. */
  lemma BracelessUnchanged(s: string, pat: string, rep: string)
    requires pat != [] && pat[0] == '{' && '{' !in s
    ensures ReplaceFirst(s, pat, rep) == s
    ensures ReplaceAll(s, pat, rep) == s
  {
    NoOccurrenceWithoutBrace(s, pat, 0, |s|);
    ReplaceAbsent(s, pat, rep);
  }

  /** A pattern opening with `{` cannot start where the text has no `{`. */
  lemma NoOccurrenceWithoutBrace(s: string, pat: string, lo: nat, hi: nat)
    requires pat != [] && pat[0] == '{' && hi <= |s|
    requires forall k :: lo <= k < hi ==> s[k] != '{'
    ensures forall k: nat :: lo <= k < hi ==> !OccursAt(s, pat, k)
  {
    forall k: nat | lo <= k < hi
      ensures !OccursAt(s, pat, k)
    {
      if k + |pat| <= |s| {
        assert s[k..k + |pat|][0] == s[k];
      }
    }
  }

  /** `replaceAll` copies a stretch `w` holding no occurrence as it is. */
  lemma {:induction false} ReplaceAllFromSkip(s: string, pat: string, rep: string, from: nat, j: nat, w: string)
    requires pat != [] && '$' !in rep && from <= j <= |s| && s[from..j] == w
    requires forall k: nat :: from <= k < j ==> !OccursAt(s, pat, k)
    ensures ReplaceAllFrom(s, pat, rep, from) == w + ReplaceAllFrom(s, pat, rep, j)
    decreases j - from
  {
    if from < j {
      SliceTail(s, from, j, w);
      ReplaceAllFromStep(s, pat, rep, from);
      ReplaceAllFromSkip(s, pat, rep, from + 1, j, w[1..]);
      SnocJoin(s, from, w, ReplaceAllFrom(s, pat, rep, from), ReplaceAllFrom(s, pat, rep, from + 1),
               ReplaceAllFrom(s, pat, rep, j));
    } else {
      NilJoin(w, ReplaceAllFrom(s, pat, rep, j));
    }
  }

  lemma SliceTail(s: string, from: nat, j: nat, w: string)
    requires from < j <= |s| && s[from..j] == w
    ensures w != [] && w[0] == s[from] && s[from + 1..j] == w[1..]
  {
    assert w[0] == s[from..j][0];
  }

  lemma NilJoin(w: string, b: string)
    requires w == []
    ensures w + b == b
  {
  }

  /** An occurrence right at `from` is replaced; the scan goes on at `j`. */
  lemma ReplaceAllFromHere(s: string, pat: string, rep: string, from: nat, j: nat)
    requires pat != [] && '$' !in rep && OccursAt(s, pat, from) && j == from + |pat|
    ensures ReplaceAllFrom(s, pat, rep, from) == rep + ReplaceAllFrom(s, pat, rep, j)
  {
    IndexOfFrom(s, pat, from, from);
    ReplaceAllFromFound(s, pat, rep, from, from);
    EmptyJoin(ReplaceAllFrom(s, pat, rep, from), s[from..from], rep, ReplaceAllFrom(s, pat, rep, j));
  }

  lemma EmptyJoin(r: string, e: string, a: string, b: string)
    requires r == e + a + b && e == []
    ensures r == a + b
  {
  }

  /** A part that cannot start a pattern opening with `{` is copied. */
  lemma ReplaceAllFromBraced(s: string, pat: string, rep: string, from: nat, w: string)
    requires |pat| >= 2 && pat[0] == '{' && '$' !in rep
    requires from + |w| <= |s| && s[from..from + |w|] == w
    requires BracedPart(w, pat) && w != pat
    ensures ReplaceAllFrom(s, pat, rep, from) == w + ReplaceAllFrom(s, pat, rep, from + |w|)
  {
    NoBracedStart(s, pat, from, w);
    ReplaceAllFromSkip(s, pat, rep, from, from + |w|, w);
  }

  /** The parts of a text, joined in order. */
  function Concat(parts: seq<string>): string {
    if parts == [] then [] else parts[0] + Concat(parts[1..])
  }

  /** Each part equal to the pattern becomes the replacement. */
  function SubstParts(parts: seq<string>, pat: string, rep: string): (r: seq<string>)
    ensures |r| == |parts|
  {
    if parts == [] then []
    else [if parts[0] == pat then rep else parts[0]] + SubstParts(parts[1..], pat, rep)
  }

  /** Every part is the `{`-pattern itself or cannot start it: it has no `{`
      after its first character, and if it opens with `{` its second character
      differs from the pattern's. */
  predicate BracedParts(parts: seq<string>, pat: string)
    requires |pat| >= 2
  {
    parts != [] ==> BracedPart(parts[0], pat) && BracedParts(parts[1..], pat)
  }

  predicate BracedPart(w: string, pat: string)
    requires |pat| >= 2
  {
    w == pat || ((w != [] ==> '{' !in w[1..]) && (w != [] && w[0] == '{' ==> |w| >= 2 && w[1] != pat[1]))
  }

  /** `replaceAll` over a text cut into such parts replaces exactly the parts
      that are the pattern. */
  lemma {:induction false} ReplaceAllFromParts(s: string, pat: string, rep: string, from: nat, parts: seq<string>)
    requires |pat| >= 2 && pat[0] == '{' && '$' !in rep && BracedParts(parts, pat)
    requires from <= |s| && s[from..] == Concat(parts)
    ensures ReplaceAllFrom(s, pat, rep, from) == Concat(SubstParts(parts, pat, rep))
    decreases |parts|
  {
    if parts == [] {
      ReplaceAllFromEnd(s, pat, rep, from);
    } else {
      var w := parts[0];
      ConcatHead(s, from, parts);
      ReplaceAllFromParts(s, pat, rep, from + |w|, parts[1..]);
      ConcatSubstHead(parts, pat, rep);
      if w == pat {
        ReplaceAllFromPattern(s, pat, rep, from, w);
        Rejoin(ReplaceAllFrom(s, pat, rep, from), rep, ReplaceAllFrom(s, pat, rep, from + |w|),
               Concat(SubstParts(parts[1..], pat, rep)), Concat(SubstParts(parts, pat, rep)));
      } else {
        ReplaceAllFromBraced(s, pat, rep, from, w);
        Rejoin(ReplaceAllFrom(s, pat, rep, from), w, ReplaceAllFrom(s, pat, rep, from + |w|),
               Concat(SubstParts(parts[1..], pat, rep)), Concat(SubstParts(parts, pat, rep)));
      }
    }
  }

  lemma ConcatHead(s: string, from: nat, parts: seq<string>)
    requires parts != [] && from <= |s| && s[from..] == Concat(parts)
    ensures from + |parts[0]| <= |s| && s[from..from + |parts[0]|] == parts[0]
    ensures s[from + |parts[0]|..] == Concat(parts[1..])
  {
    var w := parts[0];
    assert s[from..] == w + Concat(parts[1..]);
    assert s[from..from + |w|] == s[from..][..|w|];
  }

  lemma ReplaceAllFromEnd(s: string, pat: string, rep: string, from: nat)
    requires pat != [] && from == |s|
    ensures ReplaceAllFrom(s, pat, rep, from) == []
  {
    assert IndexOf(s, pat, from) == None;
  }

  /** A part that is the pattern becomes the replacement. */
  lemma ReplaceAllFromPattern(s: string, pat: string, rep: string, from: nat, w: string)
    requires pat != [] && '$' !in rep && w == pat
    requires from + |w| <= |s| && s[from..from + |w|] == w
    ensures ReplaceAllFrom(s, pat, rep, from) == rep + ReplaceAllFrom(s, pat, rep, from + |w|)
  {
    PatternOccurs(s, pat, from, w);
    ReplaceAllFromHere(s, pat, rep, from, from + |w|);
  }

  lemma PatternOccurs(s: string, pat: string, from: nat, w: string)
    requires w == pat && from + |w| <= |s| && s[from..from + |w|] == w
    ensures |w| == |pat| && OccursAt(s, pat, from)
  {
  }

  lemma ConcatSubstHead(parts: seq<string>, pat: string, rep: string)
    requires parts != []
    ensures Concat(SubstParts(parts, pat, rep))
         == (if parts[0] == pat then rep else parts[0]) + Concat(SubstParts(parts[1..], pat, rep))
  {
    var r := SubstParts(parts, pat, rep);
    assert r[1..] == SubstParts(parts[1..], pat, rep);
  }

  lemma Rejoin(a: string, x: string, b: string, c: string, d: string)
    requires a == x + b && b == c && d == x + c
    ensures a == d
  {
  }

  lemma NoBracedStart(s: string, pat: string, from: nat, w: string)
    requires |pat| >= 2 && pat[0] == '{'
    requires from + |w| <= |s| && s[from..from + |w|] == w
    requires w != [] ==> '{' !in w[1..]
    requires w != [] && w[0] == '{' ==> |w| >= 2 && w[1] != pat[1]
    ensures forall k: nat :: from <= k < from + |w| ==> !OccursAt(s, pat, k)
  {
    forall k: nat | from <= k < from + |w|
      ensures !OccursAt(s, pat, k)
    {
      assert s[k] == w[k - from];
      if k + |pat| <= |s| {
        assert s[k..k + |pat|][0] == s[k];
        if k == from {
          if w[0] == '{' {
            assert s[k..k + |pat|][1] == s[from + 1] == w[1];
          }
        } else {
          assert w[k - from] == w[1..][k - from - 1];
        }
      }
    }
  }

  /** A position where the pattern does not start is copied. */
  lemma {:induction false} ReplaceAllFromStep(s: string, pat: string, rep: string, q: nat)
    requires pat != [] && '$' !in rep && q < |s| && !OccursAt(s, pat, q)
    ensures ReplaceAllFrom(s, pat, rep, q) == [s[q]] + ReplaceAllFrom(s, pat, rep, q + 1)
  {
    assert IndexOf(s, pat, q) == IndexOf(s, pat, q + 1);
    var r0, r1 := ReplaceAllFrom(s, pat, rep, q), ReplaceAllFrom(s, pat, rep, q + 1);
    match IndexOf(s, pat, q)
    case Some(i) =>
      ReplaceAllFromFound(s, pat, rep, q, i);
      ReplaceAllFromFound(s, pat, rep, q + 1, i);
      ConsJoin(s, q, i, rep, ReplaceAllFrom(s, pat, rep, i + |pat|), r0, r1);
    case None =>
      ReplaceAllFromNone(s, pat, rep, q);
      ReplaceAllFromNone(s, pat, rep, q + 1);
      ConsJoin(s, q, |s|, [], [], r0, r1);
  }

  lemma SnocJoin(s: string, from: nat, w: string, r0: string, r1: string, r2: string)
    requires from < |s| && w != [] && w[0] == s[from]
    requires r0 == [s[from]] + r1 && r1 == w[1..] + r2
    ensures r0 == w + r2
  {
    assert w == [w[0]] + w[1..];
  }

  lemma ConsJoin(s: string, q: nat, i: nat, a: string, b: string, r0: string, r1: string)
    requires q < i <= |s|
    requires r0 == s[q..i] + a + b && r1 == s[q + 1..i] + a + b
    ensures r0 == [s[q]] + r1
  {
    assert s[q..i] == [s[q]] + s[q + 1..i];
  }

  /** `replaceAll` with a `$`-free replacement, from `from` to the occurrence
      `indexOf` finds. */
  lemma {:induction false} ReplaceAllFromFound(s: string, pat: string, rep: string, from: nat, i: nat)
    requires pat != [] && '$' !in rep && from <= |s|
    requires IndexOf(s, pat, from) == Some(i)
    ensures i + |pat| <= |s|
    ensures ReplaceAllFrom(s, pat, rep, from) == s[from..i] + rep + ReplaceAllFrom(s, pat, rep, i + |pat|)
  {
    ReplaceAllFromAt(s, pat, rep, from, i);
    SubstitutionPlain(s, i, pat, rep);
  }

  lemma ReplaceAllFromNone(s: string, pat: string, rep: string, from: nat)
    requires pat != [] && from <= |s| && IndexOf(s, pat, from) == None
    ensures ReplaceAllFrom(s, pat, rep, from) == s[from..]
  {
  }

  /** The first one-character `pat` at or after `from` is at `i` when none
      lies between. */
  lemma IndexOfChar(s: string, pat: string, from: nat, i: nat)
    requires |pat| == 1 && from <= i < |s| && s[i] == pat[0]
    requires forall k | from <= k < i :: s[k] != pat[0]
    ensures IndexOf(s, pat, from) == Some(i)
  {
    forall k: nat | from <= k < i
      ensures !OccursAt(s, pat, k)
    {
      assert s[k..k + 1] == [s[k]];
    }
    assert s[i..i + 1] == pat;
    IndexOfFrom(s, pat, from, i);
  }

  /** `indexOf` from `from` finds the first occurrence at or after it. */
  lemma IndexOfFrom(s: string, pat: string, from: nat, i: nat)
    requires from <= i && OccursAt(s, pat, i)
    requires forall k: nat :: from <= k < i ==> !OccursAt(s, pat, k)
    ensures IndexOf(s, pat, from) == Some(i)
  {
  }

  /** `replaceAll` with a `$`-free replacement, from `from` to the next
      occurrence at `i` of a pattern opening with `{`, when no `{` lies
      between. */
  lemma ReplaceAllFromNext(s: string, pat: string, rep: string, from: nat, i: nat)
    requires pat != [] && pat[0] == '{' && '$' !in rep
    requires from <= i && OccursAt(s, pat, i)
    requires '{' !in s[from..i]
    ensures ReplaceAllFrom(s, pat, rep, from) == s[from..i] + rep + ReplaceAllFrom(s, pat, rep, i + |pat|)
  {
    forall k | from <= k < i
      ensures s[k] != '{'
    {
      assert s[k] == s[from..i][k - from];
    }
    NoOccurrenceWithoutBrace(s, pat, from, i);
    IndexOfFrom(s, pat, from, i);
    ReplaceAllFromAt(s, pat, rep, from, i);
    SubstitutionPlain(s, i, pat, rep);
  }

  /** `replaceAll` from `from` keeps a rest with no `{`. */
  lemma ReplaceAllFromBraceless(s: string, pat: string, rep: string, from: nat)
    requires pat != [] && pat[0] == '{' && from <= |s|
    requires '{' !in s[from..]
    ensures ReplaceAllFrom(s, pat, rep, from) == s[from..]
  {
    forall k | from <= k < |s|
      ensures s[k] != '{'
    {
      assert s[k] == s[from..][k - from];
    }
    NoOccurrenceWithoutBrace(s, pat, from, |s|);
    assert IndexOf(s, pat, from) == None;
  }

  /** Trimming keeps an occurrence of a pattern that starts and ends with a
      character that is not whitespace. */
  lemma ContainsTrimmed(s: string, pat: string)
    requires pat != [] && !IsRustWhitespace(pat[0]) && !IsRustWhitespace(pat[|pat| - 1])
    requires Contains(s, pat)
    ensures Contains(RustTrim(s), pat)
  {
    var i: nat :| i <= |s| && OccursAt(s, pat, i);
    var j := ContainsTrimStart(s, pat, i);
    ContainsTrimEnd(TrimStart(s, IsRustWhitespace), pat, j);
    assert OccursAt(RustTrim(s), pat, j);
  }

  lemma ContainsTrimStart(s: string, pat: string, i: nat) returns (j: nat)
    requires pat != [] && !IsRustWhitespace(pat[0]) && OccursAt(s, pat, i)
    ensures OccursAt(TrimStart(s, IsRustWhitespace), pat, j)
  {
    var t := TrimStart(s, IsRustWhitespace);
    var a := |s| - |t|;
    assert s[i] == s[i..i + |pat|][0];
    assert a <= i;
    j := i - a;
    assert t[j..j + |pat|] == s[i..i + |pat|];
  }

  lemma ContainsTrimEnd(t: string, pat: string, i: nat)
    requires pat != [] && !IsRustWhitespace(pat[|pat| - 1]) && OccursAt(t, pat, i)
    ensures OccursAt(TrimEnd(t, IsRustWhitespace), pat, i)
  {
    var u := TrimEnd(t, IsRustWhitespace);
    assert t[i + |pat| - 1] == t[i..i + |pat|][|pat| - 1];
    assert i + |pat| <= |u|;
    assert u[i..i + |pat|] == t[i..i + |pat|];
  }

  /** `indexOf` finds the first occurrence. */
  lemma IndexOfFirst(s: string, pat: string, i: nat)
    requires OccursAt(s, pat, i) && forall k: nat :: k < i ==> !OccursAt(s, pat, k)
    ensures IndexOf(s, pat, 0) == Some(i)
  {
  }

  lemma ReplaceFirstAt(s: string, pat: string, rep: string, i: nat)
    requires IndexOf(s, pat, 0) == Some(i)
    ensures ReplaceFirst(s, pat, rep) == s[..i] + Substitution(s, i, pat, rep) + s[i + |pat|..]
  {
  }

  lemma ReplaceAllFromAt(s: string, pat: string, rep: string, from: nat, i: nat)
    requires pat != [] && from <= |s|
    requires IndexOf(s, pat, from) == Some(i)
    ensures ReplaceAllFrom(s, pat, rep, from) == s[from..i] + Substitution(s, i, pat, rep) + ReplaceAllFrom(s, pat, rep, i + |pat|)
  {
  }

  /** With a `$`-free replacement, `replace` rewrites the first occurrence and
      keeps the rest; `replaceAll` goes on replacing after it. */
  lemma ReplaceAtFirstOccurrence(s: string, pat: string, rep: string, i: nat)
    requires pat != [] && '$' !in rep
    requires OccursAt(s, pat, i) && forall k: nat :: k < i ==> !OccursAt(s, pat, k)
    ensures ReplaceFirst(s, pat, rep) == s[..i] + rep + s[i + |pat|..]
    ensures ReplaceAll(s, pat, rep) == s[..i] + rep + ReplaceAllFrom(s, pat, rep, i + |pat|)
  {
    IndexOfFirst(s, pat, i);
    SubstitutionPlain(s, i, pat, rep);
    ReplaceFirstAt(s, pat, rep, i);
    ReplaceAllFromAt(s, pat, rep, 0, i);
    assert s[0..i] == s[..i];
  }
}
