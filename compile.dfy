/** `sayable compile` (packages/config/src/commands/compile.ts): each locale's
    catalogue becomes a runtime table from message hash to text, where an
    untranslated message takes the text of the first fallback locale that
    has one. Fallback locales are compiled on demand and every compiled
    table is cached per catalogue.

    The TypeScript functions `hydrateMessages` and `applyFallbacks` call
    each other without a bound; here they carry a `fuel` count of nested
    calls, and `Diverges` stands for a run that does not finish within it. */
module Compile {
  import opened Wrappers
  import opened Text
  import opened Formatter
  import Extract

  /** A compiled locale file: message hash to text. */
  type Table = map<string, string>
  /** The per-catalogue cache: locale to compiled table. */
  type Cache = map<string, Table>

  /** The configuration fields the command reads; an absent
      `fallbackLocales` is the empty map. */
  datatype Config = Config(sourceLocale: string, locales: seq<string>, fallbackLocales: map<string, seq<string>>)

  /** Where a fallback locale's messages come from when it is compiled on
      demand: `Requesting` passes on the messages of the locale that asked
      (as written), `Reread` reads the fallback locale's own catalogue. */
  datatype FallbackSource = Requesting | Reread(files: string -> seq<Message>)

  datatype Run<T> = Diverges | Done(value: T, cache: Cache)

  /** The fallback list of a locale: its configured fallbacks, then the
      source locale. */
  function Fallbacks(config: Config, locale: string): (r: seq<string>)
    ensures |r| >= 1 && r[|r| - 1] == config.sourceLocale
  {
    (if locale in config.fallbackLocales then config.fallbackLocales[locale] else []) + [config.sourceLocale]
  }

  function FallbackMessages(src: FallbackSource, fallback: string, messages: seq<Message>): seq<Message> {
    match src
    case Requesting => messages
    case Reread(files) => files(fallback)
  }

  /** Every table in `b` that `a` has is unchanged: the cache only grows. */
  predicate Extends(a: Cache, b: Cache) {
    forall l :: l in a ==> l in b && b[l] == a[l]
  }

  /** No compiled text is empty. */
  predicate NonEmptyTexts(t: Table) {
    forall h :: h in t ==> t[h] != ""
  }

  predicate CacheNonEmpty(cache: Cache) {
    forall l :: l in cache ==> NonEmptyTexts(cache[l])
  }

  // ---------------------------------------------------------------------------
  // The specification of the mutual recursion

  /** `hydrateMessages`: a cached table is returned as it is; otherwise the
      fallbacks are applied and the result is cached under the locale. */
  function Hydrate(hash: Hasher, config: Config, src: FallbackSource, fuel: nat, cache: Cache,
                   locale: string, messages: seq<Message>): (r: Run<Table>)
    ensures r.Done? ==> Extends(cache, r.cache) && locale in r.cache && r.cache[locale] == r.value
    ensures r.Done? && CacheNonEmpty(cache) ==> CacheNonEmpty(r.cache)
    decreases fuel, 0
  {
    if locale in cache then Done(cache[locale], cache)
    else if fuel == 0 then Diverges
    else
      match Apply(hash, config, src, fuel - 1, cache, locale, messages, 0, map[])
      case Diverges => Diverges
      case Done(table, c) => Done(table, c[locale := table])
  }

  /** `applyFallbacks` from the `i`-th message on, with the table built so
      far: a truthy translation is taken; otherwise the first fallback
      locale whose compiled table has a truthy text for the hash gives it;
      otherwise the hash stays out of the table. */
  function Apply(hash: Hasher, config: Config, src: FallbackSource, fuel: nat, cache: Cache,
                 locale: string, messages: seq<Message>, i: nat, result: Table): (r: Run<Table>)
    requires i <= |messages|
    ensures r.Done? ==> Extends(cache, r.cache)
    ensures r.Done? && CacheNonEmpty(cache) ==> CacheNonEmpty(r.cache)
    ensures r.Done? && NonEmptyTexts(result) ==> NonEmptyTexts(r.value)
    ensures r.Done? ==> forall h :: h in result ==> h in r.value
    decreases fuel, 2, |messages| - i
  {
    if i == |messages| then Done(result, cache)
    else
      var m := messages[i];
      var h := Key(hash, m);
      if Truthy(m.translation) then
        Apply(hash, config, src, fuel, cache, locale, messages, i + 1, result[h := m.translation.value])
      else
        match FirstFallback(hash, config, src, fuel, cache, messages, Fallbacks(config, locale), h, 0)
        case Diverges => Diverges
        case Done(found, c) =>
          Apply(hash, config, src, fuel, c, locale, messages, i + 1,
                if found.Some? then result[h := found.value] else result)
  }

  /** The inner loop of `applyFallbacks` from the `j`-th fallback on: each
      fallback locale is compiled (or taken from the cache) until one has a
      truthy text for `h`. */
  function FirstFallback(hash: Hasher, config: Config, src: FallbackSource, fuel: nat, cache: Cache,
                         messages: seq<Message>, fallbacks: seq<string>, h: string, j: nat): (r: Run<Option<string>>)
    requires j <= |fallbacks|
    ensures r.Done? ==> Extends(cache, r.cache)
    ensures r.Done? && CacheNonEmpty(cache) ==> CacheNonEmpty(r.cache)
    ensures r.Done? && r.value.Some? ==> r.value.value != ""
    decreases fuel, 1, |fallbacks| - j
  {
    if j == |fallbacks| then Done(None, cache)
    else
      var fallback := fallbacks[j];
      match Hydrate(hash, config, src, fuel, cache, fallback, FallbackMessages(src, fallback, messages))
      case Diverges => Diverges
      case Done(table, c) =>
        if h in table && table[h] != "" then Done(Some(table[h]), c)
        else FirstFallback(hash, config, src, fuel, c, messages, fallbacks, h, j + 1)
  }

  /** The locale loop of the command from the `n`-th locale on: each
      locale's catalogue (`files`, which stands for `readMessages`) is
      hydrated and the table written. */
  function CompileFrom(hash: Hasher, config: Config, src: FallbackSource, fuel: nat, cache: Cache,
                       files: string -> seq<Message>, n: nat, written: seq<Table>): (r: Run<seq<Table>>)
    requires n <= |config.locales|
    ensures r.Done? ==> Extends(cache, r.cache)
    ensures r.Done? ==> |r.value| == |written| + |config.locales| - n && r.value[..|written|] == written
    ensures r.Done? ==> forall k :: n <= k < |config.locales| ==>
      config.locales[k] in r.cache && r.value[|written| + k - n] == r.cache[config.locales[k]]
    decreases |config.locales| - n
  {
    if n == |config.locales| then Done(written, cache)
    else
      var locale := config.locales[n];
      match Hydrate(hash, config, src, fuel, cache, locale, files(locale))
      case Diverges => Diverges
      case Done(table, c) =>
        var r := CompileFrom(hash, config, src, fuel, c, files, n + 1, written + [table]);
        CompileStep(config.locales, n, cache, c, table, written, r);
        r
  }

  /** One more locale compiled: what holds from `n + 1` on holds from `n`. */
  lemma CompileStep(locales: seq<string>, n: nat, cache: Cache, c: Cache, table: Table, written: seq<Table>, r: Run<seq<Table>>)
    requires n < |locales| && Extends(cache, c) && locales[n] in c && c[locales[n]] == table
    requires r.Done? ==> Extends(c, r.cache)
    requires r.Done? ==> |r.value| == |written| + 1 + |locales| - (n + 1) && r.value[..|written| + 1] == written + [table]
    requires r.Done? ==> forall k :: n + 1 <= k < |locales| ==>
      locales[k] in r.cache && r.value[|written| + 1 + k - (n + 1)] == r.cache[locales[k]]
    ensures r.Done? ==> Extends(cache, r.cache)
    ensures r.Done? ==> |r.value| == |written| + |locales| - n && r.value[..|written|] == written
    ensures r.Done? ==> forall k :: n <= k < |locales| ==>
      locales[k] in r.cache && r.value[|written| + k - n] == r.cache[locales[k]]
  {
    if r.Done? {
      assert r.value[..|written|] == (written + [table])[..|written|];
      assert r.value[|written|] == (written + [table])[|written|];
    }
  }

  // ---------------------------------------------------------------------------
  // The commands as written

  /** The state of one catalogue's compilation: the `cache` map of
      `sayable compile`, which `hydrateMessages` fills. The code as written is
      `src == Requesting`. */
  class Compiler {
    const hash: Hasher
    const config: Config
    const src: FallbackSource
    var cache: Cache

    constructor(hash: Hasher, config: Config, src: FallbackSource)
      ensures this.hash == hash && this.config == config && this.src == src && cache == map[]
    {
      this.hash := hash;
      this.config := config;
      this.src := src;
      cache := map[];
    }

    /** `hydrateMessages`; `None` when the nesting exceeds `fuel`. */
    method HydrateMessages(fuel: nat, locale: string, messages: seq<Message>) returns (r: Option<Table>)
      modifies this
      decreases fuel, 0
      ensures var run := Hydrate(hash, config, src, fuel, old(cache), locale, messages);
        && (run.Diverges? <==> r.None?)
        && (run.Done? ==> r == Some(run.value) && cache == run.cache)
    {
      if locale in cache {
        return Some(cache[locale]);
      }
      if fuel == 0 {
        return None;
      }
      var hydrated := ApplyFallbacks(fuel - 1, locale, messages);
      if hydrated.Some? {
        cache := cache[locale := hydrated.value];
      }
      return hydrated;
    }

    /** `applyFallbacks`. */
    method ApplyFallbacks(fuel: nat, locale: string, messages: seq<Message>) returns (r: Option<Table>)
      modifies this
      decreases fuel, 2
      ensures var run := Apply(hash, config, src, fuel, old(cache), locale, messages, 0, map[]);
        && (run.Diverges? <==> r.None?)
        && (run.Done? ==> r == Some(run.value) && cache == run.cache)
    {
      var result: Table := map[];
      var i := 0;
      while i < |messages|
        invariant i <= |messages|
        invariant Apply(hash, config, src, fuel, old(cache), locale, messages, 0, map[])
               == Apply(hash, config, src, fuel, cache, locale, messages, i, result)
      {
        var message := messages[i];
        var h := hash(message.message, message.context);
        if Truthy(message.translation) {
          result := result[h := message.translation.value];
        } else {
          var found := FindFallback(fuel, messages, Fallbacks(config, locale), h);
          if found.None? {
            return None;
          }
          if found.value.Some? {
            result := result[h := found.value.value];
          }
        }
        i := i + 1;
      }
      return Some(result);
    }

    /** The inner loop of `applyFallbacks`: each fallback locale in turn is
        hydrated until one has a truthy text for `h`; `None` when the
        nesting exceeds `fuel`. */
    method FindFallback(fuel: nat, messages: seq<Message>, fallbacks: seq<string>, h: string)
      returns (r: Option<Option<string>>)
      modifies this
      decreases fuel, 1
      ensures var run := FirstFallback(hash, config, src, fuel, old(cache), messages, fallbacks, h, 0);
        && (run.Diverges? <==> r.None?)
        && (run.Done? ==> r == Some(run.value) && cache == run.cache)
    {
      var j := 0;
      while j < |fallbacks|
        invariant j <= |fallbacks|
        invariant FirstFallback(hash, config, src, fuel, old(cache), messages, fallbacks, h, 0)
               == FirstFallback(hash, config, src, fuel, cache, messages, fallbacks, h, j)
      {
        var fallbackMessages := HydrateMessages(fuel, fallbacks[j], FallbackMessages(src, fallbacks[j], messages));
        if fallbackMessages.None? {
          return None;
        }
        if h in fallbackMessages.value && fallbackMessages.value[h] != "" {
          return Some(Some(fallbackMessages.value[h]));
        }
        j := j + 1;
      }
      return Some(None);
    }

    /** The body of the command for one catalogue: every locale in turn is
        read, hydrated and written; the tables written are returned in order. */
    method CompileLocales(fuel: nat, files: string -> seq<Message>) returns (r: Option<seq<Table>>)
      modifies this
      ensures var run := CompileFrom(hash, config, src, fuel, old(cache), files, 0, []);
        && (run.Diverges? <==> r.None?)
        && (run.Done? ==> r == Some(run.value) && cache == run.cache)
    {
      var written: seq<Table> := [];
      var n := 0;
      while n < |config.locales|
        invariant n <= |config.locales|
        invariant CompileFrom(hash, config, src, fuel, old(cache), files, 0, [])
               == CompileFrom(hash, config, src, fuel, cache, files, n, written)
      {
        var locale := config.locales[n];
        var hydrated := HydrateMessages(fuel, locale, files(locale));
        if hydrated.None? {
          return None;
        }
        written := written + [hydrated.value];
        n := n + 1;
      }
      return Some(written);
    }
  }

  // ---------------------------------------------------------------------------
  // A reference definition: compiling against cached fallbacks

  /** The text of `h` in the first fallback, from the `j`-th on, whose cached
      table has a truthy one. */
  function FirstCached(cache: Cache, fallbacks: seq<string>, h: string, j: nat): Option<string>
    requires j <= |fallbacks|
    decreases |fallbacks| - j
  {
    if j == |fallbacks| then None
    else if fallbacks[j] in cache && h in cache[fallbacks[j]] && cache[fallbacks[j]][h] != "" then Some(cache[fallbacks[j]][h])
    else FirstCached(cache, fallbacks, h, j + 1)
  }

  /** The table of a locale whose fallbacks are all compiled already: each
      message in turn writes its truthy translation, or else the first cached
      fallback text, under its hash. */
  function Compiled(hash: Hasher, config: Config, cache: Cache, locale: string, ms: seq<Message>): (r: Table)
    ensures forall i :: 0 <= i < |ms| && Truthy(ms[i].translation) ==> Key(hash, ms[i]) in r
  {
    if ms == [] then map[]
    else
      var prev := Compiled(hash, config, cache, locale, ms[..|ms| - 1]);
      var m := ms[|ms| - 1];
      if Truthy(m.translation) then prev[Key(hash, m) := m.translation.value]
      else match FirstCached(cache, Fallbacks(config, locale), Key(hash, m), 0)
        case Some(text) => prev[Key(hash, m) := text]
        case None => prev
  }

  /** Untranslated messages need every fallback of the locale in the cache. */
  predicate FallbacksReady(hash: Hasher, config: Config, cache: Cache, locale: string, ms: seq<Message>) {
    forall k :: 0 <= k < |ms| && !Truthy(ms[k].translation) ==>
      forall f :: f in Fallbacks(config, locale) ==> f in cache
  }

  lemma {:induction false} FirstFallbackFromCache(hash: Hasher, config: Config, src: FallbackSource, fuel: nat, cache: Cache,
                                                  ms: seq<Message>, fallbacks: seq<string>, h: string, j: nat)
    requires j <= |fallbacks|
    requires forall k :: j <= k < |fallbacks| ==> fallbacks[k] in cache
    ensures FirstFallback(hash, config, src, fuel, cache, ms, fallbacks, h, j) == Done(FirstCached(cache, fallbacks, h, j), cache)
    decreases |fallbacks| - j
  {
    if j < |fallbacks| {
      FirstFallbackFromCache(hash, config, src, fuel, cache, ms, fallbacks, h, j + 1);
    }
  }

  lemma {:induction false} ApplyFromCache(hash: Hasher, config: Config, src: FallbackSource, fuel: nat, cache: Cache,
                                          locale: string, ms: seq<Message>, i: nat)
    requires i <= |ms|
    requires FallbacksReady(hash, config, cache, locale, ms)
    ensures Apply(hash, config, src, fuel, cache, locale, ms, i, Compiled(hash, config, cache, locale, ms[..i]))
         == Done(Compiled(hash, config, cache, locale, ms), cache)
    decreases |ms| - i
  {
    if i == |ms| {
      assert ms[..i] == ms;
    } else {
      ApplyStepFromCache(hash, config, src, fuel, cache, locale, ms, i);
      ApplyFromCache(hash, config, src, fuel, cache, locale, ms, i + 1);
    }
  }

  /** One message of that loop writes what `Compiled` writes for it. */
  lemma ApplyStepFromCache(hash: Hasher, config: Config, src: FallbackSource, fuel: nat, cache: Cache,
                           locale: string, ms: seq<Message>, i: nat)
    requires i < |ms|
    requires FallbacksReady(hash, config, cache, locale, ms)
    ensures Apply(hash, config, src, fuel, cache, locale, ms, i, Compiled(hash, config, cache, locale, ms[..i]))
         == Apply(hash, config, src, fuel, cache, locale, ms, i + 1, Compiled(hash, config, cache, locale, ms[..i + 1]))
  {
    assert ms[..i + 1][..i] == ms[..i];
    if !Truthy(ms[i].translation) {
      FirstFallbackFromCache(hash, config, src, fuel, cache, ms, Fallbacks(config, locale), Key(hash, ms[i]), 0);
    }
  }

  /** When the fallbacks the locale needs are compiled already, hydrating it
      caches exactly the reference table. This is the case `sayable compile`
      is built for: the source locale comes first in `locales`. */
  lemma HydrateFromCache(hash: Hasher, config: Config, src: FallbackSource, fuel: nat, cache: Cache,
                         locale: string, ms: seq<Message>)
    requires fuel >= 1 && locale !in cache
    requires FallbacksReady(hash, config, cache, locale, ms)
    ensures var table := Compiled(hash, config, cache, locale, ms);
      Hydrate(hash, config, src, fuel, cache, locale, ms) == Done(table, cache[locale := table])
  {
    assert ms[..0] == [];
    ApplyFromCache(hash, config, src, fuel - 1, cache, locale, ms, 0);
  }

  /** The `i`-th message is the last one filed under its hash. */
  predicate LastWithKey(hash: Hasher, ms: seq<Message>, i: nat)
    requires i < |ms|
  {
    forall k :: i < k < |ms| ==> Key(hash, ms[k]) != Key(hash, ms[i])
  }

  /** A truthy translation is compiled as it is, unless a later message with
      the same hash overrides it. */
  lemma {:induction false} CompiledTranslation(hash: Hasher, config: Config, cache: Cache, locale: string,
                                               ms: seq<Message>, i: nat)
    requires i < |ms| && Truthy(ms[i].translation) && LastWithKey(hash, ms, i)
    ensures Key(hash, ms[i]) in Compiled(hash, config, cache, locale, ms)
    ensures Compiled(hash, config, cache, locale, ms)[Key(hash, ms[i])] == ms[i].translation.value
    decreases |ms|
  {
    if i < |ms| - 1 {
      var prefix := ms[..|ms| - 1];
      assert prefix[i] == ms[i];
      CompiledTranslation(hash, config, cache, locale, prefix, i);
    }
  }

  /** A message without a truthy translation takes the first cached
      fallback text, unless a later message with the same hash overrides it. */
  lemma {:induction false} CompiledFallback(hash: Hasher, config: Config, cache: Cache, locale: string,
                                            ms: seq<Message>, i: nat)
    requires i < |ms| && !Truthy(ms[i].translation) && LastWithKey(hash, ms, i)
    requires FirstCached(cache, Fallbacks(config, locale), Key(hash, ms[i]), 0).Some?
    ensures Key(hash, ms[i]) in Compiled(hash, config, cache, locale, ms)
    ensures Compiled(hash, config, cache, locale, ms)[Key(hash, ms[i])]
         == FirstCached(cache, Fallbacks(config, locale), Key(hash, ms[i]), 0).value
    decreases |ms|
  {
    if i < |ms| - 1 {
      var prefix := ms[..|ms| - 1];
      assert prefix[i] == ms[i];
      CompiledFallback(hash, config, cache, locale, prefix, i);
    }
  }

  /** A hash is compiled exactly when some message carries it and either
      that message has a truthy translation or a fallback has a cached text
      for it: a hash with no translation anywhere and no fallback text is
      left out of the table. */
  lemma {:induction false} CompiledDomain(hash: Hasher, config: Config, cache: Cache, locale: string,
                                          ms: seq<Message>, h: string)
    ensures h in Compiled(hash, config, cache, locale, ms) <==>
      exists i :: 0 <= i < |ms| && Key(hash, ms[i]) == h
        && (Truthy(ms[i].translation) || FirstCached(cache, Fallbacks(config, locale), h, 0).Some?)
    decreases |ms|
  {
    if ms != [] {
      var prefix := ms[..|ms| - 1];
      CompiledDomain(hash, config, cache, locale, prefix, h);
      var fallback := FirstCached(cache, Fallbacks(config, locale), h, 0).Some?;
      if exists i :: 0 <= i < |prefix| && Key(hash, prefix[i]) == h && (Truthy(prefix[i].translation) || fallback) {
        var i :| 0 <= i < |prefix| && Key(hash, prefix[i]) == h && (Truthy(prefix[i].translation) || fallback);
        assert ms[i] == prefix[i];
      }
      if exists i :: 0 <= i < |ms| && Key(hash, ms[i]) == h && (Truthy(ms[i].translation) || fallback) {
        var i :| 0 <= i < |ms| && Key(hash, ms[i]) == h && (Truthy(ms[i].translation) || fallback);
        if i < |ms| - 1 {
          assert prefix[i] == ms[i];
        }
      }
    }
  }

  /** Every compiled hash is the hash of one of the messages, and every text
      is non-empty. */
  lemma {:induction false} CompiledKeys(hash: Hasher, config: Config, cache: Cache, locale: string, ms: seq<Message>)
    ensures forall h :: h in Compiled(hash, config, cache, locale, ms) ==>
      (exists i :: 0 <= i < |ms| && Key(hash, ms[i]) == h) && Compiled(hash, config, cache, locale, ms)[h] != ""
    decreases |ms|
  {
    if ms != [] {
      var prefix := ms[..|ms| - 1];
      CompiledKeys(hash, config, cache, locale, prefix);
      FirstCachedNonEmpty(cache, Fallbacks(config, locale), Key(hash, ms[|ms| - 1]), 0);
      forall h | h in Compiled(hash, config, cache, locale, prefix)
        ensures exists i :: 0 <= i < |ms| && Key(hash, ms[i]) == h
      {
        var i :| 0 <= i < |prefix| && Key(hash, prefix[i]) == h;
        assert ms[i] == prefix[i];
      }
    }
  }

  lemma {:induction false} FirstCachedNonEmpty(cache: Cache, fallbacks: seq<string>, h: string, j: nat)
    requires j <= |fallbacks|
    ensures FirstCached(cache, fallbacks, h, j).Some? ==> FirstCached(cache, fallbacks, h, j).value != ""
    decreases |fallbacks| - j
  {
    if j < |fallbacks| {
      FirstCachedNonEmpty(cache, fallbacks, h, j + 1);
    }
  }

  // ---------------------------------------------------------------------------
  // Divergence

  /** A set of uncached locales that each fall back first to a locale of
      the set. The source locale without a fallback list of its own is one
      (it is its own first fallback), and so is a cycle of fallback lists. */
  predicate Trap(config: Config, cache: Cache, trap: set<string>) {
    forall l :: l in trap ==> l !in cache && Fallbacks(config, l)[0] in trap
  }

  /** `hydrateMessages` marks a locale as done only after its table is built.
      So once an untranslated message sends a locale of a trap to its first
      fallback, the locales of the trap call each other without end, whatever
      the fuel. */
  lemma {:induction false} UntranslatedDiverges(hash: Hasher, config: Config, fuel: nat, cache: Cache,
                                                trap: set<string>, locale: string, ms: seq<Message>, i0: nat)
    requires Trap(config, cache, trap) && locale in trap
    requires i0 < |ms| && !Truthy(ms[i0].translation)
    ensures Hydrate(hash, config, Requesting, fuel, cache, locale, ms).Diverges?
    decreases fuel, 0
  {
    if fuel > 0 {
      ApplyDiverges(hash, config, fuel - 1, cache, trap, locale, ms, 0, map[], i0);
    }
  }

  lemma {:induction false} ApplyDiverges(hash: Hasher, config: Config, fuel: nat, cache: Cache, trap: set<string>,
                                         locale: string, ms: seq<Message>, i: nat, result: Table, i0: nat)
    requires Trap(config, cache, trap) && locale in trap
    requires i <= i0 < |ms| && !Truthy(ms[i0].translation)
    ensures Apply(hash, config, Requesting, fuel, cache, locale, ms, i, result).Diverges?
    decreases fuel, 1, i0 - i
  {
    var m := ms[i];
    if Truthy(m.translation) {
      ApplyDiverges(hash, config, fuel, cache, trap, locale, ms, i + 1, result[Key(hash, m) := m.translation.value], i0);
    } else {
      UntranslatedDiverges(hash, config, fuel, cache, trap, Fallbacks(config, locale)[0], ms, i0);
    }
  }

  /** The source locale, uncached and without a fallback list, never finishes
      with an untranslated entry. With the source locale first in `locales`,
      this is any source catalogue with an empty or absent translation. */
  lemma UntranslatedSourceDiverges(hash: Hasher, config: Config, fuel: nat, ms: seq<Message>, i0: nat)
    requires config.sourceLocale !in config.fallbackLocales
    requires i0 < |ms| && !Truthy(ms[i0].translation)
    ensures Hydrate(hash, config, Requesting, fuel, map[], config.sourceLocale, ms).Diverges?
  {
    UntranslatedDiverges(hash, config, fuel, map[], {config.sourceLocale}, config.sourceLocale, ms, i0);
  }

  /** Two locales falling back to each other never finish either. */
  lemma FallbackCycleDiverges(hash: Hasher, config: Config, fuel: nat, a: string, b: string, ms: seq<Message>, i0: nat)
    requires a in config.fallbackLocales && config.fallbackLocales[a] != [] && config.fallbackLocales[a][0] == b
    requires b in config.fallbackLocales && config.fallbackLocales[b] != [] && config.fallbackLocales[b][0] == a
    requires i0 < |ms| && !Truthy(ms[i0].translation)
    ensures Hydrate(hash, config, Requesting, fuel, map[], a, ms).Diverges?
  {
    UntranslatedDiverges(hash, config, fuel, map[], {a, b}, a, ms, i0);
  }

  /** With the source locale first in `locales`, as the configuration
      requires, and every source entry translated, the first table written is
      the source catalogue's own translations. */
  lemma SourceTableFirst(hash: Hasher, config: Config, src: FallbackSource, fuel: nat, files: string -> seq<Message>)
    requires config.locales != [] && config.locales[0] == config.sourceLocale && fuel >= 1
    requires forall k :: 0 <= k < |files(config.sourceLocale)| ==> Truthy(files(config.sourceLocale)[k].translation)
    ensures var run := CompileFrom(hash, config, src, fuel, map[], files, 0, []);
      run.Done? ==> run.value[0] == Compiled(hash, config, map[], config.sourceLocale, files(config.sourceLocale))
  {
    HydrateFromCache(hash, config, src, fuel, map[], config.sourceLocale, files(config.sourceLocale));
  }

  // ---------------------------------------------------------------------------
  // Which catalogue a fallback locale is compiled from

  /** The table keeps every truthy translation of the catalogue that is the
      last one under its hash. */
  predicate KeepsOwn(hash: Hasher, ms: seq<Message>, t: Table) {
    forall i :: 0 <= i < |ms| && Truthy(ms[i].translation) && LastWithKey(hash, ms, i) ==>
      Key(hash, ms[i]) in t && t[Key(hash, ms[i])] == ms[i].translation.value
  }

  predicate CacheKeepsOwn(hash: Hasher, files: string -> seq<Message>, cache: Cache) {
    forall l :: l in cache ==> KeepsOwn(hash, files(l), cache[l])
  }

  /** Whatever the fallbacks give, `applyFallbacks` ends with the last truthy
      translation of each hash. */
  lemma {:induction false} ApplyKeepsOwn(hash: Hasher, config: Config, src: FallbackSource, fuel: nat, cache: Cache,
                                         locale: string, ms: seq<Message>, i: nat, result: Table)
    requires i <= |ms|
    ensures var r := Apply(hash, config, src, fuel, cache, locale, ms, i, result);
      r.Done? ==>
        forall k :: i <= k < |ms| && Truthy(ms[k].translation) && LastWithKey(hash, ms, k) ==>
          Key(hash, ms[k]) in r.value && r.value[Key(hash, ms[k])] == ms[k].translation.value
    decreases |ms| - i
  {
    if i < |ms| {
      var m := ms[i];
      var h := Key(hash, m);
      var r := Apply(hash, config, src, fuel, cache, locale, ms, i, result);
      if Truthy(m.translation) {
        var next := result[h := m.translation.value];
        ApplyKeepsOwn(hash, config, src, fuel, cache, locale, ms, i + 1, next);
        ApplyKeepsRest(hash, config, src, fuel, cache, locale, ms, i + 1, next);
        assert r == Apply(hash, config, src, fuel, cache, locale, ms, i + 1, next);
      } else {
        match FirstFallback(hash, config, src, fuel, cache, ms, Fallbacks(config, locale), h, 0)
        case Diverges =>
        case Done(found, c) =>
          ApplyKeepsOwn(hash, config, src, fuel, c, locale, ms, i + 1, if found.Some? then result[h := found.value] else result);
      }
    }
  }

  /** `applyFallbacks` leaves the hashes no later message has as they were. */
  lemma {:induction false} ApplyKeepsRest(hash: Hasher, config: Config, src: FallbackSource, fuel: nat, cache: Cache,
                                          locale: string, ms: seq<Message>, i: nat, result: Table)
    requires i <= |ms|
    ensures var r := Apply(hash, config, src, fuel, cache, locale, ms, i, result);
      r.Done? ==>
        forall h :: h in result && (forall k :: i <= k < |ms| ==> Key(hash, ms[k]) != h) ==>
          h in r.value && r.value[h] == result[h]
    decreases |ms| - i
  {
    if i < |ms| {
      var m := ms[i];
      var h := Key(hash, m);
      if Truthy(m.translation) {
        ApplyKeepsRest(hash, config, src, fuel, cache, locale, ms, i + 1, result[h := m.translation.value]);
      } else {
        match FirstFallback(hash, config, src, fuel, cache, ms, Fallbacks(config, locale), h, 0)
        case Diverges =>
        case Done(found, c) =>
          ApplyKeepsRest(hash, config, src, fuel, c, locale, ms, i + 1, if found.Some? then result[h := found.value] else result);
      }
    }
  }

  /** Reading each fallback locale's own catalogue, every table that is
      cached, the one returned included, keeps its own catalogue's
      translations. */
  lemma {:induction false} RereadKeepsOwnTranslations(hash: Hasher, config: Config, files: string -> seq<Message>,
                                                      fuel: nat, cache: Cache, locale: string)
    requires CacheKeepsOwn(hash, files, cache)
    ensures var r := Hydrate(hash, config, Reread(files), fuel, cache, locale, files(locale));
      r.Done? ==> KeepsOwn(hash, files(locale), r.value) && CacheKeepsOwn(hash, files, r.cache)
    decreases fuel, 0
  {
    if locale !in cache && fuel > 0 {
      ApplyCacheKeepsOwn(hash, config, files, fuel - 1, cache, locale, files(locale), 0, map[]);
      ApplyKeepsOwn(hash, config, Reread(files), fuel - 1, cache, locale, files(locale), 0, map[]);
    }
  }

  lemma {:induction false} ApplyCacheKeepsOwn(hash: Hasher, config: Config, files: string -> seq<Message>, fuel: nat,
                                              cache: Cache, locale: string, ms: seq<Message>, i: nat, result: Table)
    requires i <= |ms| && CacheKeepsOwn(hash, files, cache)
    ensures var r := Apply(hash, config, Reread(files), fuel, cache, locale, ms, i, result);
      r.Done? ==> CacheKeepsOwn(hash, files, r.cache)
    decreases fuel, 2, |ms| - i
  {
    if i < |ms| {
      var m := ms[i];
      var h := Key(hash, m);
      if Truthy(m.translation) {
        ApplyCacheKeepsOwn(hash, config, files, fuel, cache, locale, ms, i + 1, result[h := m.translation.value]);
      } else {
        var fallbacks := Fallbacks(config, locale);
        FirstFallbackKeepsOwn(hash, config, files, fuel, cache, ms, fallbacks, h, 0);
        match FirstFallback(hash, config, Reread(files), fuel, cache, ms, fallbacks, h, 0)
        case Diverges =>
        case Done(found, c) =>
          ApplyCacheKeepsOwn(hash, config, files, fuel, c, locale, ms, i + 1, if found.Some? then result[h := found.value] else result);
      }
    }
  }

  lemma {:induction false} FirstFallbackKeepsOwn(hash: Hasher, config: Config, files: string -> seq<Message>, fuel: nat,
                                                 cache: Cache, ms: seq<Message>, fallbacks: seq<string>, h: string, j: nat)
    requires j <= |fallbacks| && CacheKeepsOwn(hash, files, cache)
    ensures var r := FirstFallback(hash, config, Reread(files), fuel, cache, ms, fallbacks, h, j);
      r.Done? ==> CacheKeepsOwn(hash, files, r.cache)
    decreases fuel, 1, |fallbacks| - j
  {
    if j < |fallbacks| {
      var fallback := fallbacks[j];
      RereadKeepsOwnTranslations(hash, config, files, fuel, cache, fallback);
      match Hydrate(hash, config, Reread(files), fuel, cache, fallback, files(fallback))
      case Diverges =>
      case Done(table, c) =>
        FirstFallbackKeepsOwn(hash, config, files, fuel, c, ms, fallbacks, h, j + 1);
    }
  }

  /** `fr` falls back to `fr-CA`, then to the source locale `en`, whose table
      is compiled. */
  const Regional: Config := Config("en", ["en", "fr", "fr-CA"], map["fr" := ["fr-CA"]])
  /** `Hi` as the `fr` catalogue has it (untranslated) and as the `fr-CA`
      catalogue has it. */
  const Untranslated: Message := Message("Hi", None, None, None, None)
  const Salut: Message := Message("Hi", Some("Salut"), None, None, None)

  /** As written: compiling `fr` compiles `fr-CA` from the `fr` catalogue and
      caches it, so `fr` and, later, `fr-CA` itself get the source text `Hi`
      although the `fr-CA` catalogue translates it as `Salut`. */
  lemma FallbackCompiledFromRequester(hash: Hasher)
    ensures var h := Key(hash, Untranslated);
      var start := map["en" := map[h := "Hi"]];
      var fr := Hydrate(hash, Regional, Requesting, 2, start, "fr", [Untranslated]);
      && fr == Done(map[h := "Hi"], start["fr-CA" := map[h := "Hi"]]["fr" := map[h := "Hi"]])
      && Hydrate(hash, Regional, Requesting, 1, fr.cache, "fr-CA", [Salut]).value[h] == "Hi"
  {
    var h := Key(hash, Untranslated);
    var start := map["en" := map[h := "Hi"]];
    assert Fallbacks(Regional, "fr") == ["fr-CA", "en"];
    assert Fallbacks(Regional, "fr-CA") == ["en"];
    var table := map[h := "Hi"];
    HydrateFromCache(hash, Regional, Requesting, 1, start, "fr-CA", [Untranslated]);
    assert Compiled(hash, Regional, start, "fr-CA", [Untranslated]) == table by {
      assert [Untranslated][..0] == [];
    }
    var c := start["fr-CA" := table];
    assert FirstFallback(hash, Regional, Requesting, 1, start, [Untranslated], ["fr-CA", "en"], h, 0) == Done(Some("Hi"), c);
    assert Apply(hash, Regional, Requesting, 1, c, "fr", [Untranslated], 1, table) == Done(table, c);
  }

  /** Reading `fr-CA`'s own catalogue instead, both `fr-CA` and `fr` get `Salut`. */
  lemma FallbackCompiledFromOwnCatalogue(hash: Hasher, files: string -> seq<Message>)
    requires files("fr-CA") == [Salut]
    ensures var h := Key(hash, Untranslated);
      var start := map["en" := map[h := "Hi"]];
      var fr := Hydrate(hash, Regional, Reread(files), 2, start, "fr", [Untranslated]);
      fr == Done(map[h := "Salut"], start["fr-CA" := map[h := "Salut"]]["fr" := map[h := "Salut"]])
  {
    var h := Key(hash, Untranslated);
    var start := map["en" := map[h := "Hi"]];
    assert Key(hash, Salut) == h;
    assert Fallbacks(Regional, "fr") == ["fr-CA", "en"];
    var table := map[h := "Salut"];
    HydrateFromCache(hash, Regional, Reread(files), 1, start, "fr-CA", [Salut]);
    assert Compiled(hash, Regional, start, "fr-CA", [Salut]) == table by {
      assert [Salut][..0] == [];
    }
    var c := start["fr-CA" := table];
    assert FirstFallback(hash, Regional, Reread(files), 1, start, [Untranslated], ["fr-CA", "en"], h, 0) == Done(Some("Salut"), c);
    assert Apply(hash, Regional, Reread(files), 1, c, "fr", [Untranslated], 1, table) == Done(table, c);
  }

  // ---------------------------------------------------------------------------
  // The locale file path

  /** `resolveLocaleFile` (and the path `writeMessagesForLocale` writes, with
      the extension `json`), before `path.resolve`: `replace` with a string
      pattern replaces only the first `{locale}` and `{extension}`. */
  function ResolveLocaleFileAsWritten(output: string, locale: string, extension: string): (r: string)
    ensures '{' !in output ==> r == output
  {
    if '{' !in output then
      BracelessUnchanged(output, "{locale}", locale);
      BracelessUnchanged(output, "{extension}", extension);
      ReplaceFirst(ReplaceFirst(output, "{locale}", locale), "{extension}", extension)
    else
      ReplaceFirst(ReplaceFirst(output, "{locale}", locale), "{extension}", extension)
  }

  /** As written, only the first `{locale}` is replaced: for a template
      naming the locale twice, which `Extract.ResolveOutputFilePathFills`
      resolves in both places, the second placeholder stays. */
  lemma SecondLocaleKept(p1: string, p2: string, p3: string, locale: string, extension: string)
    requires '{' !in p1 && '{' !in p2 && '{' !in p3 && '{' !in locale && '$' !in locale
    ensures ResolveLocaleFileAsWritten(p1 + "{locale}" + p2 + "{locale}" + p3, locale, extension)
         == p1 + locale + p2 + "{locale}" + p3
  {
    var pat := "{locale}";
    var s := p1 + pat + p2 + pat + p3;
    var a := |p1|;
    assert s[a..a + 8] == pat;
    assert s[..a] == p1 && s[a + 8..] == p2 + pat + p3;
    forall k | 0 <= k < a
      ensures s[k] != '{'
    {
      assert s[k] == p1[k];
    }
    NoOccurrenceWithoutBrace(s, pat, 0, a);
    ReplaceAtFirstOccurrence(s, pat, locale, a);
    var head := p1 + locale + p2;
    var t := head + pat + p3;
    assert ReplaceFirst(s, pat, locale) == t;
    NoExtensionAfterLocale(head, p3);
    ReplaceAbsent(t, "{extension}", extension);
  }

  /** `{extension}` cannot occur where the only `{` opens `{locale}`. */
  lemma NoExtensionAfterLocale(head: string, tail: string)
    requires '{' !in head && '{' !in tail
    ensures forall k: nat :: !OccursAt(head + "{locale}" + tail, "{extension}", k)
  {
    var t := head + "{locale}" + tail;
    var c := |head|;
    forall k: nat
      ensures !OccursAt(t, "{extension}", k)
    {
      if k + 11 <= |t| {
        assert t[k..k + 11][0] == t[k] && t[k..k + 11][1] == t[k + 1];
        if k < c {
          assert t[k] == head[k];
        } else if k == c {
          assert t[k + 1] == 'l';
        } else if k < c + 8 {
          assert t[k] == "{locale}"[k - c];
        } else {
          assert t[k] == tail[k - c - 8];
        }
      }
    }
  }

  /** A template naming the locale twice: `sayable compile` reads
      `fr/{locale}`, where `sayable extract` writes `fr/fr`
      (`Extract.ResolveOutputFilePathExample`). */
  lemma LocaleFileMissesSecondLocale()
    ensures ResolveLocaleFileAsWritten("{locale}/{locale}", "fr", ".po") == "fr/{locale}"
  {
    SecondLocaleKept("", "/", "", "fr", ".po");
    TwoLocaleTemplate();
    HalfReplaced();
  }

  lemma TwoLocaleTemplate()
    ensures "" + "{locale}" + "/" + "{locale}" + "" == "{locale}/{locale}"
  {
  }

  lemma HalfReplaced()
    ensures "" + "fr" + "/" + "{locale}" + "" == "fr/{locale}"
  {
  }
}
