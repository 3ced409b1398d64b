/**
 * The I18N application component: the object that owns the `translations`
 * table, resolves a category to a message source (attaching catalogs that
 * exist on disk and creating them when nothing matches), registers missing
 * keys in the catalogs, and formats the result. The file system and the
 * process-wide cache of included catalogs are objects the component shares.
 */
module I18NComponent {
  import opened Wrappers
  import opened Paths
  import opened MessageFormat
  import opened Sources
  import opened CatalogFiles

  /**
   * `$messageSource->translate($category, $message, $language)` of a
   * resolved source; `None` is its `false`, the miss.
   */
  type SourceLookup = (Source, string, string, string) -> Option<string>

  /** What the component reads from the application: `@system`, the two languages, the language list. */
  datatype Settings = Settings(systemDir: string, appLanguage: string, appSourceLanguage: string, languages: seq<string>)

  /** The file system the component reads and writes. */
  class FileSystem {
    var disk: Disk

    constructor (disk: Disk)
      ensures this.disk == disk
    {
      this.disk := disk;
    }
  }

  /** `I18N::$files`: the included catalogs, shared by every component object of the process. */
  class CatalogCache {
    var entries: map<string, FileData>

    constructor ()
      ensures entries == map[]
    {
      entries := map[];
    }
  }

  // ---------------------------------------------------------------------------
  // Specification of the component's operations
  // ---------------------------------------------------------------------------

  /** The `basePath` `AttachIfCreatedFile` gives a module-scoped or a global category. */
  function AttachedBasePath(d: Disk, systemDir: string, category: string): string
  {
    if IsModule(d, systemDir, category) then ModuleDir(systemDir, category) + "/translates/" else "@system/translates/"
  }

  /** The configuration `AttachIfCreatedFile` registers for a category whose catalog exists. */
  function AttachedSource(d: Disk, s: Settings, category: string): Source
  {
    Config(SourceConfig(PhpMessageSource, s.appLanguage, AttachedBasePath(d, s.systemDir, category), true))
  }

  /** The catalog of a category in the application language, whose existence `AttachIfCreatedFile` tests. */
  function AppCatalog(d: Disk, s: Settings, category: string): string
  {
    CatalogPath(CategoryDir(d, s.systemDir, category), s.appLanguage, category)
  }

  /**
   * The table after `AttachIfCreatedFile`: when the application-language
   * catalog exists, the category's entry is overwritten with a fresh
   * configuration, whatever it held; otherwise nothing changes.
   */
  function Attach(t: Table, d: Disk, s: Settings, category: string): (r: Table)
    ensures Exists(d, AppCatalog(d, s, category)) ==> Get(r, category) == Some(AttachedSource(d, s, category))
    ensures !Exists(d, AppCatalog(d, s, category)) ==> r == t
    ensures forall k :: k != category ==> Get(r, k) == Get(t, k)
    ensures UniquePatterns(t) ==> UniquePatterns(r)
    ensures forall next: nat :: InstancesBelow(t, next) ==> InstancesBelow(r, next)
  {
    if Exists(d, AppCatalog(d, s, category)) then
      PutKeepsUnique(t, category, AttachedSource(d, s, category));
      PutOnlyWrites(t, category, AttachedSource(d, s, category));
      Put(t, category, AttachedSource(d, s, category))
    else t
  }

  /** The outcome of `getMessageSource`: the source (`None` when it would not return), the table, the object counter and the disk. */
  datatype Lookup = Lookup(source: Option<Source>, table: Table, next: nat, disk: Disk)

  /**
   * `getMessageSource($category)`: attach, look the category up in the
   * table; when nothing matches, create the category's catalogs, attach and
   * look up once more. Where that second look-up fails too, the source
   * calls itself again; the model stops there and answers `None`.
   */
  function ResolveCategory(t: Table, next: nat, d: Disk, s: Settings, category: string): (r: Lookup)
    ensures r.source.Some? ==> r.source.value.Instance?
  {
    var t1 := Attach(t, d, s, category);
    match ResolveInTable(t1, category, next)
    case Some(R) => Lookup(Some(R.source), R.table, R.next, d)
    case None =>
      var d2 := CreateCategory(d, s.systemDir, category, s.languages);
      var t2 := Attach(t1, d2, s, category);
      match ResolveInTable(t2, category, next)
      case Some(R) => Lookup(Some(R.source), R.table, R.next, d2)
      case None => Lookup(None, t2, next, d2)
  }

  /** The outcome of `translate`: the result (`None` when resolution does not return), the table, the counter and the store. */
  datatype Outcome = Outcome(result: Option<string>, table: Table, next: nat, store: Store)

  /**
   * `translate($category, $message, $params, $language)`: a `false` from the
   * source is a miss, which registers the key and formats the message in the
   * source's language; anything else is a hit, formatted in `language`.
   */
  function TranslateSpec(t: Table, next: nat, st: Store, s: Settings, category: string, message: string,
                         params: Params, language: string, lookup: SourceLookup, icu: IcuFormatter): (r: Outcome)
    ensures var L := ResolveCategory(t, next, st.disk, s, category);
      (r.result.None? <==> L.source.None?) &&
      r.table == L.table && r.next == L.next &&
      (L.source.None? || lookup(L.source.value, category, message, language).Some? ==> r.store == Store(L.disk, st.cache))
  {
    var L := ResolveCategory(t, next, st.disk, s, category);
    match L.source
    case None => Outcome(None, L.table, L.next, Store(L.disk, st.cache))
    case Some(src) =>
      match lookup(src, category, message, language)
      case Some(translation) =>
        Outcome(Some(Format(translation, params, language, icu)), L.table, L.next, Store(L.disk, st.cache))
      case None =>
        Outcome(Some(Format(message, params, src.config.sourceLanguage, icu)), L.table, L.next,
                RegisterCategory(Store(L.disk, st.cache), s.systemDir, category, message, s.languages, CacheKey))
  }

  // ---------------------------------------------------------------------------
  // Properties of resolution and translation
  // ---------------------------------------------------------------------------

  /**
   * Resolution keeps the table well formed, only adds keys (at most the
   * category), creates at most one object, and keeps the cache coherent
   * with the disk.
   */
  lemma ResolveCategoryKeepsValid(t: Table, next: nat, st: Store, s: Settings, category: string)
    requires UniquePatterns(t) && InstancesBelow(t, next) && Coherent(st)
    ensures var L := ResolveCategory(t, next, st.disk, s, category);
      UniquePatterns(L.table) && InstancesBelow(L.table, L.next) && Coherent(Store(L.disk, st.cache)) &&
      Patterns(t) <= Patterns(L.table) <= Patterns(t) + {category} &&
      next <= L.next <= next + 1 &&
      (L.disk == st.disk || L.disk == CreateCategory(st.disk, s.systemDir, category, s.languages))
  {
    var t1 := Attach(t, st.disk, s, category);
    ResolveKeepsTableWellFormed(t1, category, next);
    if ResolveInTable(t1, category, next).None? {
      var d2 := CreateCategory(st.disk, s.systemDir, category, s.languages);
      CreateKeepsCoherence(st, s.systemDir, category, s.languages);
      ResolveKeepsTableWellFormed(Attach(t1, d2, s, category), category, next);
    }
  }

  /**
   * The retry after auto-creation succeeds when the application language is
   * in the language list and the catalog's directory can be made: always
   * for a category without '/', otherwise only when its subdirectory
   * exists. The source found is then the attached configuration's object.
   */
  lemma ResolveCategoryTerminates(t: Table, next: nat, d: Disk, s: Settings, category: string)
    requires s.appLanguage in s.languages
    requires '/' !in category || ParentDir(AppCatalog(d, s, category)) in d.dirs
    ensures var L := ResolveCategory(t, next, d, s, category);
      L.source.Some? &&
      (ResolveInTable(Attach(t, d, s, category), category, next).None? ==>
         L.source == Some(Instance(next, AttachedSource(d, s, category).config)))
  {
    var t1 := Attach(t, d, s, category);
    if ResolveInTable(t1, category, next).None? {
      var td := CategoryDir(d, s.systemDir, category);
      var d2 := CreateCategory(d, s.systemDir, category, s.languages);
      CreateKeepsCategoryDir(d, s.systemDir, category, s.languages);
      CreateEachCreates(Mkdir(d, td), td, category, s.languages, s.appLanguage);
      assert Exists(d2, AppCatalog(d2, s, category));
      assert AttachedBasePath(d2, s.systemDir, category) == AttachedBasePath(d, s.systemDir, category);
    }
  }

  /**
   * Resolution fails exactly when nothing in the table matches the category
   * and auto-creation leaves the application-language catalog missing.
   */
  lemma ResolveCategoryFails(t: Table, next: nat, d: Disk, s: Settings, category: string)
    ensures var L := ResolveCategory(t, next, d, s, category);
      var d2 := CreateCategory(d, s.systemDir, category, s.languages);
      L.source.None? <==>
        ResolveInTable(Attach(t, d, s, category), category, next).None? && !Exists(d2, AppCatalog(d2, s, category))
  {
    var t1 := Attach(t, d, s, category);
    if ResolveInTable(t1, category, next).None? {
      var d2 := CreateCategory(d, s.systemDir, category, s.languages);
      var t2 := Attach(t1, d2, s, category);
      if !Exists(d2, AppCatalog(d2, s, category)) {
        assert t2 == t1;
      }
    }
  }

  /**
   * A failed resolution is a fixpoint: resolving again from the state it
   * leaves fails in the same way and changes nothing, so the source's
   * retry, calling `getMessageSource` again, never returns. (Auto-creation
   * must have made every catalog it could: always so for a category without
   * '/'.)
   */
  lemma ResolveCategoryFailsAgain(t: Table, next: nat, d: Disk, s: Settings, category: string)
    requires ResolveCategory(t, next, d, s, category).source.None?
    requires forall l :: l in s.languages ==>
               '/' !in category || ParentDir(CatalogPath(CategoryDir(d, s.systemDir, category), l, category)) in d.dirs
    ensures var L := ResolveCategory(t, next, d, s, category);
      ResolveCategory(L.table, L.next, L.disk, s, category) == L
  {
    var L := ResolveCategory(t, next, d, s, category);
    var d2 := CreateCategory(d, s.systemDir, category, s.languages);
    ResolveCategoryFails(t, next, d, s, category);
    assert Attach(t, d, s, category) == t;
    assert L.table == t && L.disk == d2;
    CreateKeepsCategoryDir(d, s.systemDir, category, s.languages);
    CreateCategoryIdempotent(d, s.systemDir, category, s.languages);
  }

  /**
   * While the application-language catalog is absent, a resolved category is
   * memoized: resolving it again returns the same object and changes nothing.
   */
  lemma ResolveCategoryMemoizes(t: Table, next: nat, d: Disk, s: Settings, category: string)
    requires UniquePatterns(t)
    requires !Exists(d, AppCatalog(d, s, category))
    requires ResolveInTable(t, category, next).Some?
    ensures var L := ResolveCategory(t, next, d, s, category);
      ResolveCategory(L.table, L.next, L.disk, s, category) == L
  {
    ResolveIsStable(t, category, next);
  }

  /**
   * Once the application-language catalog exists, every resolution
   * overwrites the memoized object with the configuration again and creates
   * a new object: two resolutions in a row return two different objects.
   */
  lemma AttachDefeatsMemo(t: Table, next: nat, d: Disk, s: Settings, category: string)
    requires Exists(d, AppCatalog(d, s, category))
    ensures var L1 := ResolveCategory(t, next, d, s, category);
      var L2 := ResolveCategory(L1.table, L1.next, L1.disk, s, category);
      var cfg := AttachedSource(d, s, category).config;
      L1.source == Some(Instance(next, cfg)) && L2.source == Some(Instance(next + 1, cfg)) &&
      L1.disk == d && L2.disk == d
  {
    var t1 := Attach(t, d, s, category);
    var L1 := ResolveCategory(t, next, d, s, category);
    assert L1.next == next + 1;
    var t2 := Attach(L1.table, d, s, category);
    assert Get(t2, category) == Some(AttachedSource(d, s, category));
  }

  /**
   * A hit (any translation, the empty string included) is formatted in the
   * requested language and writes nothing: every file on disk before the
   * call holds what it held, and the cache is untouched.
   */
  lemma TranslateHitWritesNothing(t: Table, next: nat, st: Store, s: Settings, category: string, message: string,
                                  params: Params, language: string, lookup: SourceLookup, icu: IcuFormatter)
    requires var L := ResolveCategory(t, next, st.disk, s, category);
      L.source.Some? && lookup(L.source.value, category, message, language).Some?
    ensures var L := ResolveCategory(t, next, st.disk, s, category);
      var translation := lookup(L.source.value, category, message, language).value;
      var O := TranslateSpec(t, next, st, s, category, message, params, language, lookup, icu);
      O.result == Some(Format(translation, params, language, icu)) &&
      O.store.cache == st.cache &&
      forall q :: q in st.disk.files ==> q in O.store.disk.files && O.store.disk.files[q] == st.disk.files[q]
  {
    var td := CategoryDir(st.disk, s.systemDir, category);
    CreateEachOnlyAdds(Mkdir(st.disk, td), td, category, s.languages);
  }

  /** An empty translation is a hit, not a miss: with no parameters it comes back as it is. */
  lemma EmptyTranslationIsAHit(t: Table, next: nat, st: Store, s: Settings, category: string, message: string,
                               language: string, lookup: SourceLookup, icu: IcuFormatter)
    requires var L := ResolveCategory(t, next, st.disk, s, category);
      L.source.Some? && lookup(L.source.value, category, message, language) == Some("")
    ensures TranslateSpec(t, next, st, s, category, message, map[], language, lookup, icu).result == Some("")
  {
  }

  /**
   * A miss returns the message formatted in the source's language and
   * registers it: after the call, every listed language's catalog of the
   * category that held an array (after auto-creation) holds the message,
   * every listed language has a catalog whenever its directory can be made,
   * and files outside the category's catalogs are unchanged.
   */
  lemma TranslateMissRegistersKey(t: Table, next: nat, st: Store, s: Settings, category: string, message: string,
                                  params: Params, language: string, lookup: SourceLookup, icu: IcuFormatter)
    requires UniquePatterns(t) && InstancesBelow(t, next) && Coherent(st)
    requires var L := ResolveCategory(t, next, st.disk, s, category);
      L.source.Some? && lookup(L.source.value, category, message, language).None?
    ensures var L := ResolveCategory(t, next, st.disk, s, category);
      var O := TranslateSpec(t, next, st, s, category, message, params, language, lookup, icu);
      var td := CategoryDir(st.disk, s.systemDir, category);
      O.result == Some(Format(message, params, L.source.value.config.sourceLanguage, icu)) &&
      Coherent(O.store) &&
      (forall l :: l in s.languages ==>
         var p := CatalogPath(td, l, category);
         p in L.disk.files && L.disk.files[p].Entries? ==>
           p in O.store.disk.files && O.store.disk.files[p].Entries? && message in O.store.disk.files[p].entries) &&
      (forall q :: q in L.disk.files && q !in CatalogPaths(td, category, s.languages) ==>
         q in O.store.disk.files && O.store.disk.files[q] == L.disk.files[q]) &&
      (forall l :: l in s.languages && ('/' !in category || ParentDir(CatalogPath(td, l, category)) in st.disk.dirs) ==>
         Exists(O.store.disk, CatalogPath(td, l, category)))
  {
    var L := ResolveCategory(t, next, st.disk, s, category);
    var st1 := Store(L.disk, st.cache);
    ResolveCategoryKeepsValid(t, next, st, s, category);
    CreateKeepsCategoryDir(st.disk, s.systemDir, category, s.languages);
    assert CategoryDir(L.disk, s.systemDir, category) == CategoryDir(st.disk, s.systemDir, category);
    assert st.disk.dirs <= L.disk.dirs by {
      var td := CategoryDir(st.disk, s.systemDir, category);
      CreateEachOnlyAdds(Mkdir(st.disk, td), td, category, s.languages);
    }
    RegisterCategoryKeepsCoherence(st1, s.systemDir, category, message, s.languages);
    RegisterCategoryAddsKey(st1, s.systemDir, category, message, s.languages);
    RegisterCategoryCreates(st1, s.systemDir, category, message, s.languages, CacheKey);
    assert TranslateSpec(t, next, st, s, category, message, params, language, lookup, icu).store ==
           RegisterCategory(st1, s.systemDir, category, message, s.languages, CacheKey);
  }

  // ---------------------------------------------------------------------------
  // The component
  // ---------------------------------------------------------------------------

  class I18N {
    /** `$translations`: category pattern to message source. */
    var translations: Table
    /** How many objects `Yii::createObject` has made. */
    var nextId: nat
    const fs: FileSystem
    const cache: CatalogCache
    const settings: Settings

    ghost predicate Valid()
      reads this, fs, cache
    {
      UniquePatterns(translations) && InstancesBelow(translations, nextId) &&
      Coherent(Store(fs.disk, cache.entries))
    }

    /** The component as configured, before `init`. */
    constructor (translations: Table, fs: FileSystem, cache: CatalogCache, settings: Settings)
      requires UniquePatterns(translations)
      requires Coherent(Store(fs.disk, cache.entries))
      ensures Valid()
      ensures this.translations == translations && this.fs == fs && this.cache == cache && this.settings == settings
    {
      this.translations := translations;
      this.nextId := FreshId(translations);
      this.fs := fs;
      this.cache := cache;
      this.settings := settings;
    }

    /** `init()`: add the `yii` and `app` defaults that are not configured. */
    method Init()
      requires Valid()
      modifies this
      ensures Valid()
      ensures translations == InitTable(old(translations), settings.appSourceLanguage) && nextId == old(nextId)
    {
      ghost var t0 := translations;
      InitKeepsWellFormed(t0, settings.appSourceLanguage, nextId);
      if Get(translations, "yii").None? && Get(translations, "yii*").None? {
        translations := Put(translations, "yii", DefaultSource("en-US", "@yii/messages"));
      }
      assert translations == AddDefault(t0, "yii", "yii*", DefaultSource("en-US", "@yii/messages"));
      if Get(translations, "app").None? && Get(translations, "app*").None? {
        translations := Put(translations, "app", DefaultSource(settings.appSourceLanguage, "@app/messages"));
      }
    }

    /** `Yii::createObject($config)`: a new message source object. */
    method CreateObject(config: SourceConfig) returns (o: Source)
      requires Valid()
      modifies this
      ensures Valid()
      ensures o == Instance(old(nextId), config) && nextId == old(nextId) + 1 && translations == old(translations)
    {
      o := Instance(nextId, config);
      nextId := nextId + 1;
    }

    /** `AttachIfCreatedFile($category)`. */
    method AttachIfCreatedFile(category: string)
      requires Valid()
      modifies this
      ensures Valid()
      ensures translations == Attach(old(translations), fs.disk, settings, category) && nextId == old(nextId)
    {
      var systemDir, lang := settings.systemDir, settings.appLanguage;
      var isModule := Exists(fs.disk, ModuleDir(systemDir, category));
      var fullDir, basePath;
      if isModule {
        fullDir := ModuleDir(systemDir, category) + "/translates/" + lang + "/" + category + ".php";
        basePath := ModuleDir(systemDir, category) + "/translates/";
      } else {
        fullDir := systemDir + "/translates/" + lang + "/" + category + ".php";
        basePath := "@system/translates/";
      }
      assert fullDir == AppCatalog(fs.disk, settings, category);
      if Exists(fs.disk, fullDir) {
        PutKeepsUnique(translations, category, AttachedSource(fs.disk, settings, category));
        PutOnlyWrites(translations, category, AttachedSource(fs.disk, settings, category));
        translations := Put(translations, category, Config(SourceConfig(PhpMessageSource, lang, basePath, true)));
      }
    }

    /** A matched wildcard entry: an object is returned as it is, a configuration instantiated and stored. */
    method UseMatched(pattern: string, source: Source, category: string) returns (r: Source)
      requires Valid()
      modifies this
      ensures var R := UseMatch(old(translations), pattern, source, category, old(nextId));
        r == R.source && translations == R.table && nextId == R.next
    {
      if source.Instance? {
        return source;
      }
      var o := CreateObject(source.config);
      translations := Put(Put(translations, pattern, o), category, o);
      return o;
    }

    /** The three table branches of `getMessageSource`: exact key, first prefix pattern, `*`. */
    method LookUpTable(category: string) returns (r: Option<Source>)
      requires Valid()
      modifies this
      ensures Valid()
      ensures match ResolveInTable(old(translations), category, old(nextId))
        case Some(R) => r == Some(R.source) && translations == R.table && nextId == R.next
        case None => r.None? && translations == old(translations) && nextId == old(nextId)
    {
      ghost var t0, n0 := translations, nextId;
      ResolveKeepsTableWellFormed(t0, category, n0);
      match Get(translations, category)
      case Some(s) =>
        if s.Instance? {
          return Some(s);
        }
        var o := CreateObject(s.config);
        translations := Put(translations, category, o);
        return Some(o);
      case None =>
        var i := FindPrefixPattern(translations, category);
        if i.Some? {
          var o := UseMatched(translations[i.value].pattern, translations[i.value].source, category);
          return Some(o);
        }
        match Get(translations, "*")
        case Some(s) =>
          var o := UseMatched("*", s, category);
          return Some(o);
        case None =>
          return None;
    }

    /** `getMessageSource($category)`, with its recursion unrolled once. */
    method GetMessageSource(category: string) returns (r: Option<Source>)
      requires Valid()
      modifies this, fs
      ensures Valid()
      ensures Lookup(r, translations, nextId, fs.disk) ==
              ResolveCategory(old(translations), old(nextId), old(fs.disk), settings, category)
    {
      AttachIfCreatedFile(category);
      r := LookUpTable(category);
      if r.None? {
        CreateTranslationCategory(category);
        AttachIfCreatedFile(category);
        r := LookUpTable(category);
      }
    }

    /** One language step of `createTranslationCategory`: make the language directory, then the sentinel catalog if it is missing. */
    method CreateCatalogFile(translateDir: string, category: string, lang: string)
      modifies fs
      ensures fs.disk == CreateOne(old(fs.disk), translateDir, category, lang)
    {
      fs.disk := Mkdir(fs.disk, translateDir + lang);
      var path := CatalogPath(translateDir, lang, category);
      if !Exists(fs.disk, path) {
        // `fopen` creates the file only inside an existing directory.
        if ParentDir(path) in fs.disk.dirs {
          fs.disk := Disk(fs.disk.files[path := SentinelCatalog()], fs.disk.dirs);
        }
      }
    }

    /** `createTranslationCategory($category)`. */
    method CreateTranslationCategory(category: string)
      requires Valid()
      modifies fs
      ensures Valid()
      ensures fs.disk == CreateCategory(old(fs.disk), settings.systemDir, category, settings.languages)
    {
      ghost var st := Store(fs.disk, cache.entries);
      CreateKeepsCoherence(st, settings.systemDir, category, settings.languages);
      var isModule := Exists(fs.disk, ModuleDir(settings.systemDir, category));
      var translateDir := TranslateDir(settings.systemDir, category, isModule);
      fs.disk := Mkdir(fs.disk, translateDir);
      ghost var d0 := fs.disk;
      var languages := settings.languages;
      for i := 0 to |languages|
        invariant fs.disk == CreateEach(d0, translateDir, category, languages[..i])
      {
        CreateCatalogFile(translateDir, category, languages[i]);
        assert languages[..i + 1][..i] == languages[..i];
      }
      assert languages[..|languages|] == languages;
    }

    /** One language of `addKeyToTranslationFile`. */
    method AddKeyForLanguage(translateDir: string, category: string, message: string, lang: string)
      modifies fs, cache
      ensures Store(fs.disk, cache.entries) ==
              RegisterOne(Store(old(fs.disk), old(cache.entries)), translateDir, category, message, lang, CacheKey)
    {
      fs.disk := Mkdir(fs.disk, translateDir + lang);
      var path := CatalogPath(translateDir, lang, category);
      if !Exists(fs.disk, path) {
        // `fopen` creates the file only inside an existing directory.
        if ParentDir(path) in fs.disk.dirs {
          fs.disk := Disk(fs.disk.files[path := SentinelCatalog()], fs.disk.dirs);
        }
      } else {
        var id := CacheKey(path);
        if IsEmptyEntry(cache.entries, id) {
          cache.entries := cache.entries[id := Include(fs.disk, path)];
        }
        match cache.entries[id]
        case Entries(m) =>
          if message !in m {
            cache.entries := cache.entries[id := Entries(m[message := message])];
            fs.disk := Disk(fs.disk.files[path := Entries(m[message := message])], fs.disk.dirs);
          }
        case Scalar(_) =>
      }
    }

    /** `addKeyToTranslationFile($category, $message)`, with the cache keyed by path. */
    method AddKeyToTranslationFile(category: string, message: string)
      requires Valid()
      modifies fs, cache
      ensures Valid()
      ensures Store(fs.disk, cache.entries) ==
              RegisterCategory(Store(old(fs.disk), old(cache.entries)), settings.systemDir, category, message,
                               settings.languages, CacheKey)
    {
      ghost var st := Store(fs.disk, cache.entries);
      RegisterCategoryKeepsCoherence(st, settings.systemDir, category, message, settings.languages);
      var isModule := Exists(fs.disk, ModuleDir(settings.systemDir, category));
      var translateDir := TranslateDir(settings.systemDir, category, isModule);
      fs.disk := Mkdir(fs.disk, translateDir);
      ghost var st0 := Store(fs.disk, cache.entries);
      var languages := settings.languages;
      for i := 0 to |languages|
        invariant Store(fs.disk, cache.entries) == RegisterEach(st0, translateDir, category, message, languages[..i], CacheKey)
      {
        AddKeyForLanguage(translateDir, category, message, languages[i]);
        assert languages[..i + 1][..i] == languages[..i];
      }
      assert languages[..|languages|] == languages;
    }

    /** `format($message, $params, $language)`. */
    method Format(message: string, params: Params, language: string, icu: IcuFormatter) returns (r: string)
      ensures r == MessageFormat.Format(message, params, language, icu)
    {
      if params == map[] {
        return message;
      }
      IcuTemplateMatchesRegex(message);
      if IsIcuTemplate(message) {
        match icu(message, params, language)
        case Some(formatted) => return formatted;
        case None => return message;
      }
      var p := BuildTokenMap(params);
      r := Strtr(message, p);
    }

    /** `translate($category, $message, $params, $language)`. */
    method Translate(category: string, message: string, params: Params, language: string,
                     lookup: SourceLookup, icu: IcuFormatter) returns (r: Option<string>)
      requires Valid()
      modifies this, fs, cache
      ensures Valid()
      ensures Outcome(r, translations, nextId, Store(fs.disk, cache.entries)) ==
              TranslateSpec(old(translations), old(nextId), Store(old(fs.disk), old(cache.entries)), settings,
                            category, message, params, language, lookup, icu)
    {
      var source := GetMessageSource(category);
      if source.None? {
        return None;
      }
      var translation := lookup(source.value, category, message, language);
      if translation.None? {
        AddKeyToTranslationFile(category, message);
        var formatted := Format(message, params, source.value.config.sourceLanguage, icu);
        return Some(formatted);
      }
      var formatted := Format(translation.value, params, language, icu);
      return Some(formatted);
    }
  }
}
