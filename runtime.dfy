/** The translation runtime (packages/integration/src/runtime.ts): a `Sayable`
    holds a record of loaders by locale, a cache of loaded messages by
    locale, and the active locale. Loading a locale runs its loader once and
    caches what it returns; assigning messages also replaces the locale's
    loader by one that returns them. A clone shares the loader record and
    the cache with its original. */
module Runtime {
  import opened Wrappers

  /** A catalogue: message id to ICU text. */
  type Messages = map<string, string>

  /** A loader: one the application supplied, known by a name, or the
      constant loader `assign` installs. */
  datatype Loader = Supplied(name: string) | Constant(messages: Messages)

  /** The loader record: its own keys in insertion order, and the loader
      under each key. */
  datatype Record = Record(keys: seq<string>, table: map<string, Loader>)

  /** What a supplied loader resolves to for a locale, `None` standing for a
      falsy result. It calls into the application, so it is a parameter. */
  type Fetch = (string, string) -> Option<Messages>

  function Invoke(fetch: Fetch, loader: Loader, locale: string): Option<Messages> {
    match loader
    case Supplied(name) => fetch(name, locale)
    case Constant(messages) => Some(messages)
  }

  /** The keys listed are exactly the keys with a loader, each listed once,
      as for the own keys of a JavaScript object. */
  ghost predicate WellKeyed(r: Record) {
    && (forall l :: l in r.table <==> l in r.keys)
    && (forall i, j :: 0 <= i < j < |r.keys| ==> r.keys[i] != r.keys[j])
  }

  /** `loaders[locale]`. */
  function LoaderOf(r: Record, locale: string): Option<Loader> {
    if locale in r.table then Some(r.table[locale]) else None
  }

  /** `loaders[locale] = loader`: an existing key keeps its place, a new key
      goes last, and every other key keeps its loader. */
  function SetLoader(r: Record, locale: string, loader: Loader): (r': Record)
    ensures LoaderOf(r', locale) == Some(loader)
    ensures forall l :: l != locale ==> LoaderOf(r', l) == LoaderOf(r, l)
    ensures r'.keys == if locale in r.keys then r.keys else r.keys + [locale]
    ensures WellKeyed(r) ==> WellKeyed(r')
  {
    Record(if locale in r.keys then r.keys else r.keys + [locale], r.table[locale := loader])
  }

  // ---------------------------------------------------------------------------
  // The shared state, as values

  /** The loader record and the cache. */
  datatype Store = Store(loaders: Record, cache: map<string, Messages>)

  /** `assign(locale, messages)`. */
  function Assigned(s: Store, locale: string, messages: Messages): (r: Store)
    ensures r.cache == s.cache[locale := messages]
    ensures LoaderOf(r.loaders, locale) == Some(Constant(messages))
    ensures forall l :: l != locale ==> LoaderOf(r.loaders, l) == LoaderOf(s.loaders, l)
  {
    Store(SetLoader(s.loaders, locale, Constant(messages)), s.cache[locale := messages])
  }

  /** One pass of the `load` loop: it leaves the locale settled and changes
      no cached catalogue. */
  function LoadStep(fetch: Fetch, s: Store, locale: string): (r: Store)
    ensures Settled(fetch, r, locale)
    ensures forall l :: l in s.cache ==> l in r.cache && r.cache[l] == s.cache[l]
  {
    if locale in s.cache then s
    else
      match LoaderOf(s.loaders, locale)
      case None => s
      case Some(loader) =>
        match Invoke(fetch, loader, locale)
        case None => s
        case Some(messages) => Assigned(s, locale, messages)
  }

  /** The first `n` passes of the `load` loop over `locales`. */
  function LoadPasses(fetch: Fetch, s: Store, locales: seq<string>, n: nat): Store
    requires n <= |locales|
  {
    if n == 0 then s else LoadStep(fetch, LoadPasses(fetch, s, locales, n - 1), locales[n - 1])
  }

  /** The cache agrees with the loader record: every cached locale's loader
      is the constant one returning its cached messages. */
  ghost predicate Consistent(s: Store) {
    forall l :: l in s.cache ==> LoaderOf(s.loaders, l) == Some(Constant(s.cache[l]))
  }

  /** A locale `load` has nothing more to do for: cached, without a loader,
      or with a loader that yields nothing. */
  predicate Settled(fetch: Fetch, s: Store, locale: string) {
    locale in s.cache
    || LoaderOf(s.loaders, locale).None?
    || Invoke(fetch, LoaderOf(s.loaders, locale).value, locale).None?
  }

  // ---------------------------------------------------------------------------
  // The objects

  /** The loader record passed to the constructor (shared, not copied). */
  class LoaderTable {
    var record: Record

    constructor(record: Record)
      ensures this.record == record
    {
      this.record := record;
    }
  }

  /** The `Map` of loaded catalogues. */
  class MessageCache {
    var entries: map<string, Messages>

    constructor()
      ensures entries == map[]
    {
      entries := map[];
    }
  }

  class Sayable {
    var loaders: LoaderTable
    var cache: MessageCache
    var active: Option<string>

    constructor(loaders: LoaderTable)
      ensures this.loaders == loaders && fresh(cache) && cache.entries == map[] && active == None
    {
      this.loaders := loaders;
      cache := new MessageCache();
      active := None;
    }

    /** The `locale` getter: the active locale, an error when none is active
      (the empty string being falsy counts as none). */
    function Locale(): (r: Result<string, string>)
      reads this
      ensures r.Ok? <==> active.Some? && active.value != ""
      ensures r.Ok? ==> r.value == active.value
    {
      match active
      case Some(locale) => if locale != "" then Ok(locale) else Err("No locale activated")
      case None => Err("No locale activated")
    }

    /** The `locales` getter. */
    function Locales(): seq<string>
      reads this, loaders
    {
      loaders.record.keys
    }

    ghost function State(): Store
      reads this, loaders, cache
    {
      Store(loaders.record, cache.entries)
    }

    /** `assign(locale, messages)`. */
    method Assign(locale: string, messages: Messages)
      modifies loaders, cache
      ensures State() == Assigned(old(State()), locale, messages)
    {
      cache.entries := cache.entries[locale := messages];
      loaders.record := SetLoader(loaders.record, locale, Constant(messages));
    }

    /** `load(...locales)`: every locale of the list, or of the record when
      the list is empty, that is not cached yet and whose loader yields a
      catalogue, is assigned it. */
    method Load(fetch: Fetch, requested: seq<string>)
      modifies loaders, cache
      ensures var locales := if requested == [] then old(Locales()) else requested;
        State() == LoadPasses(fetch, old(State()), locales, |locales|)
    {
      var locales := if requested == [] then Locales() else requested;
      ghost var start := State();
      for i := 0 to |locales|
        invariant State() == LoadPasses(fetch, start, locales, i)
      {
        var locale := locales[i];
        if locale in cache.entries {
          continue;
        }
        var loader := LoaderOf(loaders.record, locale);
        if loader.Some? {
          var messages := Invoke(fetch, loader.value, locale);
          if messages.Some? {
            Assign(locale, messages.value);
          }
        }
      }
    }

    /** The `messages` getter. */
    function Messages(): (r: Result<Messages, string>)
      reads this, cache
      ensures r.Ok? <==> Locale().Ok? && Locale().value in cache.entries
      ensures r.Ok? ==> r.value == cache.entries[Locale().value]
    {
      match Locale()
      case Err(e) => Err(e)
      case Ok(locale) => if locale in cache.entries then Ok(cache.entries[locale]) else Err("No messages for locale")
    }

    /** `activate(locale)`: only a locale of the loader record. */
    method Activate(locale: string) returns (r: Result<(), string>)
      modifies this
      ensures loaders == old(loaders) && cache == old(cache)
      ensures r.Ok? <==> locale in Locales()
      ensures active == if r.Ok? then Some(locale) else old(active)
    {
      if locale !in loaders.record.keys {
        return Err("No loader for locale '" + locale + "'");
      }
      active := Some(locale);
      return Ok(());
    }

    /** `clone()`: a new object over the same loader record and cache. */
    method Clone() returns (c: Sayable)
      ensures fresh(c) && c.loaders == loaders && c.cache == cache && c.active == active
    {
      c := new Sayable(loaders);
      c.cache := cache;
      c.active := active;
    }

    /** `call(descriptor)`: the active catalogue's message for `id`, formatted
      for the active locale; a missing or empty message is an error.
      `IntlMessageFormat` is the parameter `format`. */
    function Call(id: string, format: (string, string) -> string): (r: Result<string, string>)
      reads this, cache
      ensures r.Ok? <==> Messages().Ok? && id in Messages().value && Messages().value[id] != ""
      ensures r.Ok? ==> r.value == format(Messages().value[id], Locale().value)
    {
      match Messages()
      case Err(e) => Err(e)
      case Ok(messages) =>
        if id !in messages || messages[id] == "" then Err("Descriptor '" + id + "' not found")
        else Ok(format(messages[id], Locale().value))
    }
  }

  // ---------------------------------------------------------------------------
  // What loading promises

  /** `assign` keeps the cache and the loader record in agreement. */
  lemma AssignKeepsConsistent(s: Store, locale: string, messages: Messages)
    requires Consistent(s)
    ensures Consistent(Assigned(s, locale, messages))
  {
  }

  /** So does every `load`. */
  lemma {:induction false} LoadKeepsConsistent(fetch: Fetch, s: Store, locales: seq<string>, n: nat)
    requires Consistent(s) && n <= |locales|
    ensures Consistent(LoadPasses(fetch, s, locales, n))
  {
    if n > 0 {
      LoadKeepsConsistent(fetch, s, locales, n - 1);
      var before := LoadPasses(fetch, s, locales, n - 1);
      var locale := locales[n - 1];
      if locale !in before.cache && LoaderOf(before.loaders, locale).Some? {
        var loader := LoaderOf(before.loaders, locale).value;
        if Invoke(fetch, loader, locale).Some? {
          AssignKeepsConsistent(before, locale, Invoke(fetch, loader, locale).value);
        }
      }
    }
  }

  /** `load` keeps the `locales` list exactly the keys that have a loader. */
  lemma {:induction false} LoadKeepsWellKeyed(fetch: Fetch, s: Store, locales: seq<string>, n: nat)
    requires WellKeyed(s.loaders) && n <= |locales|
    ensures WellKeyed(LoadPasses(fetch, s, locales, n).loaders)
  {
    if n > 0 {
      LoadKeepsWellKeyed(fetch, s, locales, n - 1);
      var before := LoadPasses(fetch, s, locales, n - 1);
      var after := LoadStep(fetch, before, locales[n - 1]);
      assert LoadPasses(fetch, s, locales, n) == after;
    }
  }

  /** Loading never changes a cached catalogue: cached locales are skipped. */
  lemma {:induction false} LoadKeepsCached(fetch: Fetch, s: Store, locales: seq<string>, n: nat, locale: string)
    requires n <= |locales| && locale in s.cache
    ensures var r := LoadPasses(fetch, s, locales, n);
      locale in r.cache && r.cache[locale] == s.cache[locale]
  {
    if n > 0 {
      LoadKeepsCached(fetch, s, locales, n - 1, locale);
      var before := LoadPasses(fetch, s, locales, n - 1);
      var after := LoadStep(fetch, before, locales[n - 1]);
      assert LoadPasses(fetch, s, locales, n) == after;
      StepKeepsLoader(fetch, before, locales[n - 1], locale);
    }
  }

  /** After a load every requested locale is settled: cached, or without a
      loader, or with a loader that yields nothing. */
  lemma {:induction false} LoadSettles(fetch: Fetch, s: Store, locales: seq<string>, n: nat)
    requires n <= |locales|
    ensures forall i :: 0 <= i < n ==> Settled(fetch, LoadPasses(fetch, s, locales, n), locales[i])
  {
    if n > 0 {
      LoadSettles(fetch, s, locales, n - 1);
      var before := LoadPasses(fetch, s, locales, n - 1);
      var after := LoadStep(fetch, before, locales[n - 1]);
      assert LoadPasses(fetch, s, locales, n) == after;
      StepKeepsAllSettled(fetch, before, locales, n);
    }
  }

  lemma StepKeepsAllSettled(fetch: Fetch, before: Store, locales: seq<string>, n: nat)
    requires 0 < n <= |locales|
    requires forall i :: 0 <= i < n - 1 ==> Settled(fetch, before, locales[i])
    ensures forall i :: 0 <= i < n ==> Settled(fetch, LoadStep(fetch, before, locales[n - 1]), locales[i])
  {
    forall i | 0 <= i < n
      ensures Settled(fetch, LoadStep(fetch, before, locales[n - 1]), locales[i])
    {
      StepKeepsSettled(fetch, before, locales[n - 1], locales[i]);
    }
  }

  lemma StepKeepsSettled(fetch: Fetch, s: Store, locale: string, other: string)
    ensures Settled(fetch, LoadStep(fetch, s, locale), locale)
    ensures Settled(fetch, s, other) ==> Settled(fetch, LoadStep(fetch, s, locale), other)
  {
  }

  /** Loading the same locales again changes nothing. */
  lemma LoadIdempotent(fetch: Fetch, s: Store, locales: seq<string>)
    ensures var once := LoadPasses(fetch, s, locales, |locales|);
      LoadPasses(fetch, once, locales, |locales|) == once
  {
    var once := LoadPasses(fetch, s, locales, |locales|);
    LoadSettles(fetch, s, locales, |locales|);
    SettledLoadIsIdentity(fetch, once, locales, |locales|);
  }

  lemma {:induction false} SettledLoadIsIdentity(fetch: Fetch, s: Store, locales: seq<string>, n: nat)
    requires n <= |locales|
    requires forall i :: 0 <= i < n ==> Settled(fetch, s, locales[i])
    ensures LoadPasses(fetch, s, locales, n) == s
  {
    if n > 0 {
      SettledLoadIsIdentity(fetch, s, locales, n - 1);
    }
  }

  /** A requested locale whose loader yields a catalogue ends up cached, with
      that catalogue unless it was cached already. */
  lemma LoadCaches(fetch: Fetch, s: Store, locales: seq<string>, i: nat)
    requires i < |locales|
    requires LoaderOf(s.loaders, locales[i]).Some?
    requires Invoke(fetch, LoaderOf(s.loaders, locales[i]).value, locales[i]).Some?
    ensures var r := LoadPasses(fetch, s, locales, |locales|);
      locales[i] in r.cache
  {
    LoadSettles(fetch, s, locales, |locales|);
    LoaderKeptUntilCached(fetch, s, locales, |locales|, locales[i]);
  }

  /** A locale's loader changes only when the locale gets cached. */
  lemma {:induction false} LoaderKeptUntilCached(fetch: Fetch, s: Store, locales: seq<string>, n: nat, locale: string)
    requires n <= |locales|
    ensures var r := LoadPasses(fetch, s, locales, n);
      locale in r.cache || LoaderOf(r.loaders, locale) == LoaderOf(s.loaders, locale)
  {
    if n > 0 {
      LoaderKeptUntilCached(fetch, s, locales, n - 1, locale);
      var before := LoadPasses(fetch, s, locales, n - 1);
      var after := LoadStep(fetch, before, locales[n - 1]);
      assert LoadPasses(fetch, s, locales, n) == after;
      StepKeepsLoader(fetch, before, locales[n - 1], locale);
    }
  }

  lemma StepKeepsLoader(fetch: Fetch, s: Store, locale: string, other: string)
    ensures var r := LoadStep(fetch, s, locale);
      (other in s.cache ==> other in r.cache && r.cache[other] == s.cache[other])
      && (other in r.cache || LoaderOf(r.loaders, other) == LoaderOf(s.loaders, other))
  {
  }

  /** A clone sees what is assigned through its original, and the reverse:
      both hold the same cache object. */
  method AssignThroughClone(s: Sayable, locale: string, messages: Messages) returns (c: Sayable)
    modifies s.loaders, s.cache
    ensures fresh(c) && c.cache == s.cache && c.loaders == s.loaders && c.active == s.active
    ensures locale in s.cache.entries && s.cache.entries[locale] == messages
    ensures LoaderOf(s.loaders.record, locale) == Some(Constant(messages))
  {
    c := s.Clone();
    c.Assign(locale, messages);
  }
}
