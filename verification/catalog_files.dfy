/**
 * The catalog files of the I18N component and the in-process cache in front
 * of them. A catalog file is modelled by what `include` of it evaluates to
 * (the array it returns), the file system by its files and directories. The
 * two loops of the component that write catalogs are given here as folds over
 * the language list: auto-creation (`createTranslationCategory`) and key
 * registration (`addKeyToTranslationFile`).
 */
module CatalogFiles {
  import opened Paths

  /** A catalog: source message to translation. */
  type Catalog = map<string, string>

  /**
   * What `include` of a catalog file evaluates to: the array it returns, or
   * some other value, of which only PHP truthiness matters here.
   */
  datatype FileData = Entries(entries: Catalog) | Scalar(truthy: bool)

  /** The placeholder entry of a freshly created catalog. */
  const Sentinel: string := "start"

  function SentinelCatalog(): FileData
  {
    Entries(map[Sentinel := Sentinel])
  }

  /** The file system: files with their contents, and directories. */
  datatype Disk = Disk(files: map<string, FileData>, dirs: set<string>)

  /** `realpath($p) !== false`: a file or a directory is there. */
  predicate Exists(d: Disk, p: string)
  {
    p in d.files || p in d.dirs
  }

  /** `include $p` of an existing path; a directory yields `false`. */
  function Include(d: Disk, p: string): (r: FileData)
    ensures p in d.files ==> r == d.files[p]
    ensures r != Scalar(false) ==> Exists(d, p)
  {
    if p in d.files then d.files[p] else Scalar(false)
  }

  /** `mkdir($dir, 0777, true)`, errors suppressed: no file changes, and `dir` exists afterwards. */
  function Mkdir(d: Disk, dir: string): (r: Disk)
    ensures r.files == d.files && d.dirs <= r.dirs
    ensures dir != [] ==> dir in r.dirs
  {
    Disk(d.files, d.dirs + MkdirP(dir))
  }

  predicate IsModule(d: Disk, systemDir: string, category: string)
  {
    Exists(d, ModuleDir(systemDir, category))
  }

  /** The `$translateDir` of a category: its module's `translates/` directory, or the global one. */
  function CategoryDir(d: Disk, systemDir: string, category: string): string
  {
    TranslateDir(systemDir, category, IsModule(d, systemDir, category))
  }

  /** The catalog files a category has, one per listed language. */
  function CatalogPaths(translateDir: string, category: string, langs: seq<string>): set<string>
  {
    set l | l in langs :: CatalogPath(translateDir, l, category)
  }

  // ---------------------------------------------------------------------------
  // Auto-creation: createTranslationCategory (I18N.php:248-278)
  // ---------------------------------------------------------------------------

  /**
   * One language of `createTranslationCategory`: make the language
   * directory, then, if the catalog file is not there and its directory is,
   * write a catalog holding only the sentinel entry.
   */
  function CreateOne(d: Disk, translateDir: string, category: string, lang: string): (r: Disk)
    ensures r.dirs == d.dirs + MkdirP(translateDir + lang)
    ensures var p := CatalogPath(translateDir, lang, category);
      (forall q :: q in d.files ==> q in r.files && r.files[q] == d.files[q]) &&
      (forall q :: q in r.files && q !in d.files ==> q == p && !Exists(d, p) && r.files[p] == SentinelCatalog()) &&
      (Exists(r, p) <==> Exists(d, p) || ParentDir(p) in r.dirs)
  {
    var d1 := Mkdir(d, translateDir + lang);
    var p := CatalogPath(translateDir, lang, category);
    if Exists(d1, p) || ParentDir(p) !in d1.dirs then d1
    else Disk(d1.files[p := SentinelCatalog()], d1.dirs)
  }

  /** The loop over the language list, as a fold from the first language. */
  function CreateEach(d: Disk, translateDir: string, category: string, langs: seq<string>): Disk
    decreases |langs|
  {
    if langs == [] then d
    else CreateOne(CreateEach(d, translateDir, category, langs[..|langs| - 1]), translateDir, category, langs[|langs| - 1])
  }

  /** `createTranslationCategory($category)` on a disk. */
  function CreateCategory(d: Disk, systemDir: string, category: string, langs: seq<string>): (r: Disk)
    ensures d.dirs <= r.dirs
    ensures forall q :: q in d.files ==> q in r.files && r.files[q] == d.files[q]
    ensures forall q :: q in r.files && q !in d.files ==>
              q in CatalogPaths(CategoryDir(d, systemDir, category), category, langs) && r.files[q] == SentinelCatalog()
  {
    var td := CategoryDir(d, systemDir, category);
    CreateEachOnlyAdds(Mkdir(d, td), td, category, langs);
    CreateEach(Mkdir(d, td), td, category, langs)
  }

  /**
   * Auto-creation never removes or rewrites a file, only adds directories,
   * and every file it adds is the sentinel catalog of a listed language.
   */
  lemma {:induction false} CreateEachOnlyAdds(d: Disk, translateDir: string, category: string, langs: seq<string>)
    ensures var d' := CreateEach(d, translateDir, category, langs);
      d.dirs <= d'.dirs &&
      (forall p :: p in d.files ==> p in d'.files && d'.files[p] == d.files[p]) &&
      (forall p :: p in d'.files && p !in d.files ==>
         p in CatalogPaths(translateDir, category, langs) && !Exists(d, p) && d'.files[p] == SentinelCatalog()) &&
      (forall p :: p in d'.dirs && p !in d.dirs ==> exists l :: l in langs && p in MkdirP(translateDir + l))
    decreases |langs|
  {
    if langs != [] {
      var init, l := langs[..|langs| - 1], langs[|langs| - 1];
      CreateEachOnlyAdds(d, translateDir, category, init);
      var prev := CreateEach(d, translateDir, category, init);
      var d' := CreateOne(prev, translateDir, category, l);
      forall p | p in d'.dirs && p !in d.dirs
        ensures exists l' :: l' in langs && p in MkdirP(translateDir + l')
      {
        if p in prev.dirs {
          var l' :| l' in init && p in MkdirP(translateDir + l');
          assert l' in langs;
        } else {
          assert l in langs && p in MkdirP(translateDir + l);
        }
      }
      assert forall x :: x in init ==> x in langs;
    }
  }

  /** Auto-creation makes exactly each listed language's directory and its ancestors. */
  lemma {:induction false} CreateEachDirs(d: Disk, translateDir: string, category: string, langs: seq<string>)
    ensures CreateEach(d, translateDir, category, langs).dirs == d.dirs + DirsMade(translateDir, langs)
    decreases |langs|
  {
    if langs != [] {
      CreateEachDirs(d, translateDir, category, langs[..|langs| - 1]);
    }
  }

  /**
   * `createTranslationCategory` makes exactly the category's catalog
   * directory, each listed language's directory, and their ancestors.
   */
  lemma CreateCategoryDirs(d: Disk, systemDir: string, category: string, langs: seq<string>)
    ensures var td := CategoryDir(d, systemDir, category);
      CreateCategory(d, systemDir, category, langs).dirs == d.dirs + MkdirP(td) + DirsMade(td, langs)
  {
    var td := CategoryDir(d, systemDir, category);
    CreateEachDirs(Mkdir(d, td), td, category, langs);
  }

  /**
   * After auto-creation every listed language has a catalog file for the
   * category, provided the file's directory is there: always for a category
   * without '/', otherwise only when that subdirectory existed beforehand.
   */
  lemma {:induction false} CreateEachCreates(d: Disk, translateDir: string, category: string, langs: seq<string>, lang: string)
    requires translateDir != [] && lang in langs
    requires '/' !in category || ParentDir(CatalogPath(translateDir, lang, category)) in d.dirs
    ensures Exists(CreateEach(d, translateDir, category, langs), CatalogPath(translateDir, lang, category))
    decreases |langs|
  {
    var init, l := langs[..|langs| - 1], langs[|langs| - 1];
    var p := CatalogPath(translateDir, lang, category);
    CreateEachOnlyAdds(d, translateDir, category, init);
    if lang in init {
      CreateEachCreates(d, translateDir, category, init, lang);
    } else {
      assert lang == l;
      if '/' !in category {
        CatalogParent(translateDir, lang, category);
      }
      assert translateDir + lang in MkdirP(translateDir + lang);
    }
  }

  /**
   * Auto-creation changes nothing on a disk where every listed language's
   * directory and catalog already exist.
   */
  lemma {:induction false} CreateEachStable(d: Disk, translateDir: string, category: string, langs: seq<string>)
    requires forall l :: l in langs ==> MkdirP(translateDir + l) <= d.dirs && Exists(d, CatalogPath(translateDir, l, category))
    ensures CreateEach(d, translateDir, category, langs) == d
    decreases |langs|
  {
    if langs != [] {
      var init, l := langs[..|langs| - 1], langs[|langs| - 1];
      assert forall x :: x in init ==> x in langs;
      CreateEachStable(d, translateDir, category, init);
      assert d.dirs + MkdirP(translateDir + l) == d.dirs;
    }
  }

  /**
   * Auto-creation run a second time changes nothing, when every listed
   * language's catalog could be made the first time (always for a category
   * without '/').
   */
  lemma CreateCategoryIdempotent(d: Disk, systemDir: string, category: string, langs: seq<string>)
    requires forall l :: l in langs ==>
               '/' !in category || ParentDir(CatalogPath(CategoryDir(d, systemDir, category), l, category)) in d.dirs
    ensures var d2 := CreateCategory(d, systemDir, category, langs);
      CreateCategory(d2, systemDir, category, langs) == d2
  {
    var td := CategoryDir(d, systemDir, category);
    var d2 := CreateCategory(d, systemDir, category, langs);
    CreateKeepsCategoryDir(d, systemDir, category, langs);
    CreateCategoryDirs(d, systemDir, category, langs);
    assert |td| > 0;
    assert Mkdir(d2, td) == d2 by {
      assert d2.dirs + MkdirP(td) == d2.dirs;
    }
    forall l | l in langs
      ensures MkdirP(td + l) <= d2.dirs && Exists(d2, CatalogPath(td, l, category))
    {
      CreateEachCreates(Mkdir(d, td), td, category, langs, l);
    }
    CreateEachStable(d2, td, category, langs);
  }

  /**
   * Auto-creation never makes a category module-scoped, nor stops it being
   * one: the category's catalog directory is the same before and after.
   */
  lemma CreateKeepsCategoryDir(d: Disk, systemDir: string, category: string, langs: seq<string>)
    ensures CategoryDir(CreateCategory(d, systemDir, category, langs), systemDir, category) == CategoryDir(d, systemDir, category)
  {
    var td := CategoryDir(d, systemDir, category);
    var d0 := Mkdir(d, td);
    var d' := CreateCategory(d, systemDir, category, langs);
    var md := ModuleDir(systemDir, category);
    CreateEachOnlyAdds(d0, td, category, langs);
    if !IsModule(d, systemDir, category) {
      assert td == systemDir + "/translates/";
      forall p | p in d'.dirs && p !in d.dirs
        ensures p != md
      {
        if p in d0.dirs {
          GlobalDirsAreNotModules(systemDir, category, td);
        } else {
          var l :| l in langs && p in MkdirP(td + l);
          GlobalDirsAreNotModules(systemDir, category, td + l);
        }
      }
      forall p | p in d'.files && p !in d.files
        ensures p != md
      {
        var l :| l in langs && p == CatalogPath(td, l, category);
        GlobalPathIsNotModule(systemDir, category, p);
      }
    }
  }

  // ---------------------------------------------------------------------------
  // Registration: addKeyToTranslationFile (I18N.php:293-346)
  // ---------------------------------------------------------------------------

  /** The catalog files and the in-process cache of included catalogs. */
  datatype Store = Store(disk: Disk, cache: map<string, FileData>)

  /** `empty(self::$files[$id])`: absent, an empty array, or a falsy value. */
  predicate IsEmptyEntry(cache: map<string, FileData>, id: string)
  {
    id !in cache || cache[id] == Entries(map[]) || cache[id] == Scalar(false)
  }

  /** A catalog after registering `message`: unchanged when the key is there, else gains `message => message`. */
  function WithKey(m: Catalog, message: string): (r: Catalog)
    ensures message in r && m.Keys <= r.Keys && r.Keys <= m.Keys + {message}
    ensures forall k :: k in m ==> r[k] == m[k]
    ensures message !in m ==> r[message] == message
  {
    if message in m then m else m[message := message]
  }

  /** A file's contents after registering `message`: only an array gains the key. */
  function AddKey(f: FileData, message: string): FileData
  {
    match f
    case Entries(m) => Entries(WithKey(m, message))
    case Scalar(b) => Scalar(b)
  }

  lemma AddKeyIdempotent(f: FileData, message: string)
    ensures AddKey(AddKey(f, message), message) == AddKey(f, message)
  {
  }

  /**
   * One language of `addKeyToTranslationFile`, with the cache keyed by
   * `keyOf(path)`: make the language directory; an absent catalog is created
   * holding only the sentinel; an existing one is served from the cache
   * (reloaded when the cache entry is empty) and, when it is an array
   * lacking the key, gains `message => message` in the cache and on disk.
   */
  function RegisterOne(st: Store, translateDir: string, category: string, message: string, lang: string,
                       keyOf: string -> string): (r: Store)
    ensures r.disk.dirs == st.disk.dirs + MkdirP(translateDir + lang)
    ensures var p := CatalogPath(translateDir, lang, category);
      (forall q :: q in st.disk.files && q != p ==> q in r.disk.files && r.disk.files[q] == st.disk.files[q]) &&
      (forall q :: q in r.disk.files ==> q in st.disk.files || q == p) &&
      (p in st.disk.files ==> p in r.disk.files) &&
      (forall id :: id != keyOf(p) ==> (id in r.cache <==> id in st.cache) && (id in st.cache ==> r.cache[id] == st.cache[id]))
  {
    var d := Mkdir(st.disk, translateDir + lang);
    var p := CatalogPath(translateDir, lang, category);
    if !Exists(d, p) then
      if ParentDir(p) in d.dirs then Store(Disk(d.files[p := SentinelCatalog()], d.dirs), st.cache)
      else Store(d, st.cache)
    else
      var id := keyOf(p);
      var cache := if IsEmptyEntry(st.cache, id) then st.cache[id := Include(d, p)] else st.cache;
      match cache[id]
      case Entries(m) =>
        if message in m then Store(d, cache)
        else
          var m' := m[message := message];
          Store(Disk(d.files[p := Entries(m')], d.dirs), cache[id := Entries(m')])
      case Scalar(_) => Store(d, cache)
  }

  function RegisterEach(st: Store, translateDir: string, category: string, message: string, langs: seq<string>,
                        keyOf: string -> string): (r: Store)
    ensures st.disk.dirs <= r.disk.dirs
    ensures forall q :: q in st.disk.files && q !in CatalogPaths(translateDir, category, langs) ==>
              q in r.disk.files && r.disk.files[q] == st.disk.files[q]
    ensures forall q :: q in r.disk.files ==> q in st.disk.files || q in CatalogPaths(translateDir, category, langs)
    decreases |langs|
  {
    if langs == [] then st
    else
      var init := langs[..|langs| - 1];
      var prev := RegisterEach(st, translateDir, category, message, init, keyOf);
      assert forall x :: x in init ==> x in langs;
      RegisterOne(prev, translateDir, category, message, langs[|langs| - 1], keyOf)
  }

  /**
   * `addKeyToTranslationFile($category, $message)` on a store, with the cache
   * keyed by `keyOf`: whatever the cache key, it writes only the category's
   * own catalogs and never removes a file or a directory.
   */
  function RegisterCategory(st: Store, systemDir: string, category: string, message: string, langs: seq<string>,
                            keyOf: string -> string): (r: Store)
    ensures st.disk.dirs <= r.disk.dirs
    ensures var own := CatalogPaths(CategoryDir(st.disk, systemDir, category), category, langs);
      (forall q :: q in st.disk.files && q !in own ==> q in r.disk.files && r.disk.files[q] == st.disk.files[q]) &&
      (forall q :: q in r.disk.files ==> q in st.disk.files || q in own)
  {
    var td := CategoryDir(st.disk, systemDir, category);
    RegisterEach(Store(Mkdir(st.disk, td), st.cache), td, category, message, langs, keyOf)
  }

  /**
   * The cache, keyed by path, agrees with the disk: every cached path exists
   * and holds what `include` of it returns.
   */
  ghost predicate Coherent(st: Store)
  {
    forall p :: p in st.cache ==> Exists(st.disk, p) && st.cache[p] == Include(st.disk, p)
  }

  lemma RegisterOneKeepsCoherence(st: Store, translateDir: string, category: string, message: string, lang: string)
    requires Coherent(st)
    ensures Coherent(RegisterOne(st, translateDir, category, message, lang, CacheKey))
  {
  }

  /**
   * One language step, keyed by path: the files of other paths are
   * untouched, directories only grow, and the language's catalog becomes the
   * sentinel catalog when it was absent (and its directory exists) or gains
   * the key when it held an array.
   */
  lemma RegisterOneEffect(st: Store, translateDir: string, category: string, message: string, lang: string)
    requires Coherent(st)
    ensures var st' := RegisterOne(st, translateDir, category, message, lang, CacheKey);
      var p := CatalogPath(translateDir, lang, category);
      st'.disk.dirs == st.disk.dirs + MkdirP(translateDir + lang) &&
      (forall q :: q in st.disk.files && q != p ==> q in st'.disk.files && st'.disk.files[q] == st.disk.files[q]) &&
      (forall q :: q in st'.disk.files && q !in st.disk.files ==> q == p && st'.disk.files[q] == SentinelCatalog()) &&
      (p in st.disk.files ==> p in st'.disk.files && st'.disk.files[p] == AddKey(st.disk.files[p], message) && p in st'.cache) &&
      Exists(st'.disk, p) == (Exists(st.disk, p) || ParentDir(p) in st'.disk.dirs) &&
      (forall q :: q != p ==> (q in st'.cache <==> q in st.cache))
  {
  }

  /** The directories the registration loop makes: each listed language's directory and its ancestors. */
  function DirsMade(translateDir: string, langs: seq<string>): (made: set<string>)
    ensures forall p :: p in made ==> exists l :: l in langs && p in MkdirP(translateDir + l)
    ensures forall l :: l in langs ==> MkdirP(translateDir + l) <= made
    decreases |langs|
  {
    if langs == [] then {}
    else
      var init, l := langs[..|langs| - 1], langs[|langs| - 1];
      assert forall x :: x in langs <==> x in init || x == l;
      DirsMade(translateDir, init) + MkdirP(translateDir + l)
  }

  /** The registration loop keeps the cache coherent with the disk. */
  lemma {:induction false} RegisterEachKeepsCoherence(st: Store, translateDir: string, category: string,
                                                      message: string, langs: seq<string>)
    requires Coherent(st)
    ensures Coherent(RegisterEach(st, translateDir, category, message, langs, CacheKey))
    decreases |langs|
  {
    if langs != [] {
      var init, l := langs[..|langs| - 1], langs[|langs| - 1];
      RegisterEachKeepsCoherence(st, translateDir, category, message, init);
      RegisterOneKeepsCoherence(RegisterEach(st, translateDir, category, message, init, CacheKey),
                                translateDir, category, message, l);
    }
  }

  /**
   * The registration loop's effect on files: no file is removed, the
   * category's catalogs that existed gain the key, every other file is
   * unchanged, and only the category's catalogs are created.
   */
  lemma {:induction false} RegisterEachFiles(st: Store, translateDir: string, category: string, message: string,
                                             langs: seq<string>)
    requires Coherent(st)
    ensures var st' := RegisterEach(st, translateDir, category, message, langs, CacheKey);
      var own := CatalogPaths(translateDir, category, langs);
      (forall q :: q in st.disk.files ==>
         q in st'.disk.files &&
         st'.disk.files[q] == (if q in own then AddKey(st.disk.files[q], message) else st.disk.files[q])) &&
      (forall q :: q in st'.disk.files && q !in st.disk.files ==> q in own)
    decreases |langs|
  {
    if langs != [] {
      var init, l := langs[..|langs| - 1], langs[|langs| - 1];
      var prev := RegisterEach(st, translateDir, category, message, init, CacheKey);
      RegisterEachFiles(st, translateDir, category, message, init);
      RegisterEachKeepsCoherence(st, translateDir, category, message, init);
      RegisterOneEffect(prev, translateDir, category, message, l);
      var p := CatalogPath(translateDir, l, category);
      var own, ownInit := CatalogPaths(translateDir, category, langs), CatalogPaths(translateDir, category, init);
      assert forall x :: x in init ==> x in langs;
      assert own == ownInit + {p};
      var st' := RegisterOne(prev, translateDir, category, message, l, CacheKey);
      forall q | q in st.disk.files
        ensures q in st'.disk.files
        ensures st'.disk.files[q] == (if q in own then AddKey(st.disk.files[q], message) else st.disk.files[q])
      {
        if q == p && p in ownInit {
          AddKeyIdempotent(st.disk.files[p], message);
        }
      }
    }
  }

  /**
   * The registration loop's effect on directories and on the cache: it makes
   * exactly the language directories, caches each of the category's catalogs
   * that existed, and leaves the cache membership of every other path alone.
   */
  lemma {:induction false} RegisterEachDirsAndCache(st: Store, translateDir: string, category: string,
                                                    message: string, langs: seq<string>)
    requires Coherent(st)
    ensures var st' := RegisterEach(st, translateDir, category, message, langs, CacheKey);
      var own := CatalogPaths(translateDir, category, langs);
      st'.disk.dirs == st.disk.dirs + DirsMade(translateDir, langs) &&
      (forall q :: q in own && q in st.disk.files ==> q in st'.cache) &&
      (forall q :: q !in own ==> (q in st'.cache <==> q in st.cache))
    decreases |langs|
  {
    if langs != [] {
      var init, l := langs[..|langs| - 1], langs[|langs| - 1];
      var prev := RegisterEach(st, translateDir, category, message, init, CacheKey);
      RegisterEachDirsAndCache(st, translateDir, category, message, init);
      RegisterEachFiles(st, translateDir, category, message, init);
      RegisterEachKeepsCoherence(st, translateDir, category, message, init);
      RegisterOneEffect(prev, translateDir, category, message, l);
      var p := CatalogPath(translateDir, l, category);
      var own, ownInit := CatalogPaths(translateDir, category, langs), CatalogPaths(translateDir, category, init);
      assert forall x :: x in init ==> x in langs;
      assert own == ownInit + {p};
    }
  }

  /**
   * Self-healing: after the registration loop every listed language has a
   * catalog file for the category, provided the file's directory can be
   * made: always for a category without '/', otherwise only when that
   * subdirectory existed beforehand. Creation never reads the cache, so this
   * holds whatever the cache key and whatever the cache holds.
   */
  lemma {:induction false} RegisterEachCreates(st: Store, translateDir: string, category: string, message: string,
                                               langs: seq<string>, lang: string, keyOf: string -> string)
    requires translateDir != [] && lang in langs
    requires '/' !in category || ParentDir(CatalogPath(translateDir, lang, category)) in st.disk.dirs
    ensures Exists(RegisterEach(st, translateDir, category, message, langs, keyOf).disk, CatalogPath(translateDir, lang, category))
    decreases |langs|
  {
    var init, l := langs[..|langs| - 1], langs[|langs| - 1];
    var prev := RegisterEach(st, translateDir, category, message, init, keyOf);
    var p := CatalogPath(translateDir, lang, category);
    if lang in init {
      RegisterEachCreates(st, translateDir, category, message, init, lang, keyOf);
      RegisterOneKeepsExisting(prev, translateDir, category, message, l, keyOf, p);
    } else {
      assert lang == l;
      if '/' !in category {
        CatalogParent(translateDir, lang, category);
        assert translateDir + lang in MkdirP(translateDir + lang);
      }
    }
  }

  /** One language step, whatever the cache key, removes neither a file nor a directory. */
  lemma RegisterOneKeepsExisting(st: Store, translateDir: string, category: string, message: string, lang: string,
                                 keyOf: string -> string, q: string)
    requires Exists(st.disk, q)
    ensures Exists(RegisterOne(st, translateDir, category, message, lang, keyOf).disk, q)
  {
  }

  /**
   * Registering `message` for a category (with the cache keyed by path)
   * keeps the cache coherent, never removes a file or a key, leaves every
   * other category's files and cache entries unchanged, adds
   * `message => message` to each listed language's catalog that held an
   * array, creates each missing catalog whose directory can be made, and
   * makes exactly the language directories. (What a created catalog holds
   * is `RegisterEachCreatesSentinels`.)
   */
  lemma RegisterEachEffect(st: Store, translateDir: string, category: string, message: string, langs: seq<string>)
    requires Coherent(st)
    ensures var st' := RegisterEach(st, translateDir, category, message, langs, CacheKey);
      var own := CatalogPaths(translateDir, category, langs);
      Coherent(st') &&
      st'.disk.dirs == st.disk.dirs + DirsMade(translateDir, langs) &&
      (forall q :: q in st.disk.files ==>
         q in st'.disk.files &&
         st'.disk.files[q] == (if q in own then AddKey(st.disk.files[q], message) else st.disk.files[q])) &&
      (forall q :: q in st'.disk.files && q !in st.disk.files ==> q in own) &&
      (forall q :: q in own && q in st.disk.files ==> q in st'.cache) &&
      (forall q :: q !in own ==> (q in st'.cache <==> q in st.cache)) &&
      (translateDir != [] ==>
         forall l :: l in langs && ('/' !in category || ParentDir(CatalogPath(translateDir, l, category)) in st.disk.dirs) ==>
           Exists(st'.disk, CatalogPath(translateDir, l, category)))
  {
    RegisterEachKeepsCoherence(st, translateDir, category, message, langs);
    RegisterEachFiles(st, translateDir, category, message, langs);
    RegisterEachDirsAndCache(st, translateDir, category, message, langs);
    if translateDir != [] {
      forall l | l in langs && ('/' !in category || ParentDir(CatalogPath(translateDir, l, category)) in st.disk.dirs)
        ensures Exists(RegisterEach(st, translateDir, category, message, langs, CacheKey).disk, CatalogPath(translateDir, l, category))
      {
        RegisterEachCreates(st, translateDir, category, message, langs, l, CacheKey);
      }
    }
  }

  /** `mkdir` leaves the cache coherent. */
  lemma MkdirKeepsCoherence(st: Store, dir: string)
    requires Coherent(st)
    ensures Coherent(Store(Mkdir(st.disk, dir), st.cache))
  {
  }

  /** Auto-creation leaves the cache coherent: it never writes a path that exists. */
  lemma CreateKeepsCoherence(st: Store, systemDir: string, category: string, langs: seq<string>)
    requires Coherent(st)
    ensures Coherent(Store(CreateCategory(st.disk, systemDir, category, langs), st.cache))
  {
    var td := CategoryDir(st.disk, systemDir, category);
    CreateEachOnlyAdds(Mkdir(st.disk, td), td, category, langs);
  }

  /**
   * `addKeyToTranslationFile` as a whole, with the cache keyed by path: the
   * effect of the language loop on the category's catalog directory.
   */
  lemma RegisterCategoryEffect(st: Store, systemDir: string, category: string, message: string, langs: seq<string>)
    requires Coherent(st)
    ensures var td := CategoryDir(st.disk, systemDir, category);
      var st' := RegisterCategory(st, systemDir, category, message, langs, CacheKey);
      var own := CatalogPaths(td, category, langs);
      Coherent(st') &&
      st'.disk.dirs == st.disk.dirs + MkdirP(td) + DirsMade(td, langs) &&
      (forall q :: q in st.disk.files ==>
         q in st'.disk.files &&
         st'.disk.files[q] == (if q in own then AddKey(st.disk.files[q], message) else st.disk.files[q])) &&
      (forall q :: q in st'.disk.files && q !in st.disk.files ==> q in own) &&
      (forall q :: q in own && q in st.disk.files ==> q in st'.cache) &&
      (forall q :: q !in own ==> (q in st'.cache <==> q in st.cache)) &&
      (forall l :: l in langs && ('/' !in category || ParentDir(CatalogPath(td, l, category)) in st.disk.dirs) ==>
         Exists(st'.disk, CatalogPath(td, l, category)))
  {
    var td := CategoryDir(st.disk, systemDir, category);
    MkdirKeepsCoherence(st, td);
    RegisterEachEffect(Store(Mkdir(st.disk, td), st.cache), td, category, message, langs);
    RegisterCategoryCreates(st, systemDir, category, message, langs, CacheKey);
  }

  /**
   * Self-healing of `addKeyToTranslationFile`: afterwards every listed
   * language has a catalog of the category whenever its directory can be
   * made. This never reads the cache, so it holds whatever the cache key,
   * the source's `FileId` included.
   */
  lemma RegisterCategoryCreates(st: Store, systemDir: string, category: string, message: string, langs: seq<string>,
                                keyOf: string -> string)
    ensures var td := CategoryDir(st.disk, systemDir, category);
      var st' := RegisterCategory(st, systemDir, category, message, langs, keyOf);
      forall l :: l in langs && ('/' !in category || ParentDir(CatalogPath(td, l, category)) in st.disk.dirs) ==>
        Exists(st'.disk, CatalogPath(td, l, category))
  {
    var td := CategoryDir(st.disk, systemDir, category);
    var st0 := Store(Mkdir(st.disk, td), st.cache);
    assert |td| > 0;
    forall l | l in langs && ('/' !in category || ParentDir(CatalogPath(td, l, category)) in st.disk.dirs)
      ensures Exists(RegisterEach(st0, td, category, message, langs, keyOf).disk, CatalogPath(td, l, category))
    {
      RegisterEachCreates(st0, td, category, message, langs, l, keyOf);
    }
  }

  /** `addKeyToTranslationFile` keeps the cache coherent with the disk. */
  lemma RegisterCategoryKeepsCoherence(st: Store, systemDir: string, category: string, message: string, langs: seq<string>)
    requires Coherent(st)
    ensures Coherent(RegisterCategory(st, systemDir, category, message, langs, CacheKey))
  {
    var td := CategoryDir(st.disk, systemDir, category);
    MkdirKeepsCoherence(st, td);
    RegisterEachKeepsCoherence(Store(Mkdir(st.disk, td), st.cache), td, category, message, langs);
  }

  /**
   * After `addKeyToTranslationFile`, each listed language's catalog of the
   * category that held an array holds the message, and every other file is
   * unchanged.
   */
  lemma RegisterCategoryAddsKey(st: Store, systemDir: string, category: string, message: string, langs: seq<string>)
    requires Coherent(st)
    ensures var td := CategoryDir(st.disk, systemDir, category);
      var st' := RegisterCategory(st, systemDir, category, message, langs, CacheKey);
      (forall l :: l in langs ==>
         var p := CatalogPath(td, l, category);
         p in st.disk.files && st.disk.files[p].Entries? ==>
           p in st'.disk.files && st'.disk.files[p].Entries? && message in st'.disk.files[p].entries) &&
      (forall q :: q in st.disk.files && q !in CatalogPaths(td, category, langs) ==>
         q in st'.disk.files && st'.disk.files[q] == st.disk.files[q])
  {
    RegisterCategoryEffect(st, systemDir, category, message, langs);
  }

  /**
   * A catalog the registration loop has to create holds only the sentinel
   * entry afterwards: the message is not added on that call. (The language
   * list has no duplicates, being the keys of a JSON object.)
   */
  lemma {:induction false} RegisterEachCreatesSentinels(st: Store, translateDir: string, category: string, message: string,
                                                        langs: seq<string>)
    requires Coherent(st)
    requires forall i, j :: 0 <= i < j < |langs| ==> langs[i] != langs[j]
    ensures var st' := RegisterEach(st, translateDir, category, message, langs, CacheKey);
      forall q :: q in st'.disk.files && q !in st.disk.files ==> st'.disk.files[q] == SentinelCatalog()
    decreases |langs|
  {
    if langs != [] {
      var init, l := langs[..|langs| - 1], langs[|langs| - 1];
      var prev := RegisterEach(st, translateDir, category, message, init, CacheKey);
      RegisterEachCreatesSentinels(st, translateDir, category, message, init);
      RegisterEachKeepsCoherence(st, translateDir, category, message, init);
      RegisterEachFiles(st, translateDir, category, message, init);
      RegisterOneEffect(prev, translateDir, category, message, l);
      var p := CatalogPath(translateDir, l, category);
      forall q | q in prev.disk.files && q !in st.disk.files
        ensures q != p
      {
        var l' :| l' in init && q == CatalogPath(translateDir, l', category);
        if q == p {
          CatalogPathInjective(translateDir, l', l, category);
        }
      }
    }
  }

  /**
   * A disk change that only adds the catalog directory, language directories
   * and catalog files of a category keeps that category's catalog directory:
   * nothing added under the global directory is a module directory.
   */
  lemma CategoryDirKept(d: Disk, d': Disk, systemDir: string, category: string, langs: seq<string>)
    requires d.dirs <= d'.dirs && d.files.Keys <= d'.files.Keys
    requires var td := CategoryDir(d, systemDir, category);
      (forall p :: p in d'.dirs && p !in d.dirs ==> p in MkdirP(td) || exists l :: l in langs && p in MkdirP(td + l)) &&
      (forall p :: p in d'.files && p !in d.files ==> p in CatalogPaths(td, category, langs))
    ensures CategoryDir(d', systemDir, category) == CategoryDir(d, systemDir, category)
  {
    var td := CategoryDir(d, systemDir, category);
    var md := ModuleDir(systemDir, category);
    if !IsModule(d, systemDir, category) {
      assert td == systemDir + "/translates/";
      forall p | p in d'.dirs && p !in d.dirs
        ensures p != md
      {
        if p in MkdirP(td) {
          GlobalDirsAreNotModules(systemDir, category, td);
        } else {
          var l :| l in langs && p in MkdirP(td + l);
          GlobalDirsAreNotModules(systemDir, category, td + l);
        }
      }
      forall p | p in d'.files && p !in d.files
        ensures p != md
      {
        var l :| l in langs && p == CatalogPath(td, l, category);
        GlobalPathIsNotModule(systemDir, category, p);
      }
    }
  }

  /** Registration never changes whether a category is module-scoped. */
  lemma RegisterKeepsCategoryDir(st: Store, systemDir: string, category: string, message: string, langs: seq<string>)
    requires Coherent(st)
    ensures var st' := RegisterCategory(st, systemDir, category, message, langs, CacheKey);
      CategoryDir(st'.disk, systemDir, category) == CategoryDir(st.disk, systemDir, category)
  {
    var st' := RegisterCategory(st, systemDir, category, message, langs, CacheKey);
    RegisterCategoryEffect(st, systemDir, category, message, langs);
    CategoryDirKept(st.disk, st'.disk, systemDir, category, langs);
  }

  /**
   * What one registration of `message` does to a store whose category
   * catalogs, one per language, are `own` and whose language directories are
   * `made`.
   */
  ghost predicate RegisteredFrom(st: Store, st': Store, own: set<string>, made: set<string>, message: string)
  {
    Coherent(st') &&
    st'.disk.dirs == st.disk.dirs + made &&
    (forall q :: q in st.disk.files ==>
       q in st'.disk.files &&
       st'.disk.files[q] == (if q in own then AddKey(st.disk.files[q], message) else st.disk.files[q])) &&
    (forall q :: q in st'.disk.files && q !in st.disk.files ==> q in own) &&
    (forall q :: q in own && q in st.disk.files ==> q in st'.cache) &&
    (forall q :: q !in own ==> (q in st'.cache <==> q in st.cache))
  }

  /** A registration after one over the same existing catalogs changes nothing. */
  lemma RegisteredTwice(st: Store, s1: Store, s2: Store, own: set<string>, made: set<string>, message: string)
    requires own <= st.disk.files.Keys
    requires RegisteredFrom(st, s1, own, made, message) && RegisteredFrom(s1, s2, own, made, message)
    ensures s2 == s1
  {
    forall q | q in own
      ensures s2.disk.files[q] == s1.disk.files[q]
    {
      AddKeyIdempotent(st.disk.files[q], message);
    }
    assert s2.disk.files == s1.disk.files;
    assert s2.disk == s1.disk;
    assert s2.cache.Keys == s1.cache.Keys;
    assert s2.cache == s1.cache;
  }

  /**
   * When every listed language already has a catalog file for the category,
   * a second registration of the same message right after the first changes
   * nothing: not the files, not the directories, not the cache.
   */
  lemma RegisterCategoryTwice(st: Store, systemDir: string, category: string, message: string, langs: seq<string>)
    requires Coherent(st)
    requires CatalogPaths(CategoryDir(st.disk, systemDir, category), category, langs) <= st.disk.files.Keys
    ensures var once := RegisterCategory(st, systemDir, category, message, langs, CacheKey);
      RegisterCategory(once, systemDir, category, message, langs, CacheKey) == once
  {
    var td := CategoryDir(st.disk, systemDir, category);
    var own, made := CatalogPaths(td, category, langs), MkdirP(td) + DirsMade(td, langs);
    var s1 := RegisterCategory(st, systemDir, category, message, langs, CacheKey);
    RegisterCategoryEffect(st, systemDir, category, message, langs);
    RegisterKeepsCategoryDir(st, systemDir, category, message, langs);
    RegisterCategoryEffect(s1, systemDir, category, message, langs);
    var s2 := RegisterCategory(s1, systemDir, category, message, langs, CacheKey);
    assert RegisteredFrom(st, s1, own, made, message);
    assert RegisteredFrom(s1, s2, own, made, message);
    RegisteredTwice(st, s1, s2, own, made, message);
  }

  // ---------------------------------------------------------------------------
  // The cache id of a catalog
  // ---------------------------------------------------------------------------

  /**
   * One language step on an existing catalog, whatever the cache key: the
   * array it works on is the cached one, or the file's own when the cache
   * entry is empty; that array gains the key in the cache, and is written to
   * the file when it lacked it. No other file changes.
   */
  lemma RegisterOneOnExisting(st: Store, translateDir: string, category: string, message: string, lang: string,
                              keyOf: string -> string)
    requires CatalogPath(translateDir, lang, category) in st.disk.files
    ensures
      var p := CatalogPath(translateDir, lang, category);
      var id := keyOf(p);
      var c := if IsEmptyEntry(st.cache, id) then st.disk.files[p] else st.cache[id];
      var st' := RegisterOne(st, translateDir, category, message, lang, keyOf);
      (forall q :: q in st.disk.files && q != p ==> q in st'.disk.files && st'.disk.files[q] == st.disk.files[q]) &&
      p in st'.disk.files && id in st'.cache &&
      (c.Entries? ==> st'.cache[id] == Entries(WithKey(c.entries, message)) &&
                      st'.disk.files[p] == if message in c.entries then st.disk.files[p] else st'.cache[id])
  {
  }

  /**
   * Two catalogs that share a cache key share their cached array: registering
   * `x` under the first category and then `y` under the second writes `x`
   * into the catalog of the second.
   */
  lemma SharedKeyLeaks(translateDir: string, lang: string, ca: string, cb: string, x: string, y: string,
                       keyOf: string -> string)
    requires CatalogPath(translateDir, lang, ca) != CatalogPath(translateDir, lang, cb)
    requires keyOf(CatalogPath(translateDir, lang, ca)) == keyOf(CatalogPath(translateDir, lang, cb))
    requires x != Sentinel && y != Sentinel && y != x
    ensures
      var a, b := CatalogPath(translateDir, lang, ca), CatalogPath(translateDir, lang, cb);
      var st0 := Store(Disk(map[a := SentinelCatalog(), b := SentinelCatalog()], {}), map[]);
      var st1 := RegisterOne(st0, translateDir, ca, x, lang, keyOf);
      var st2 := RegisterOne(st1, translateDir, cb, y, lang, keyOf);
      b in st2.disk.files && st2.disk.files[b] == Entries(map[Sentinel := Sentinel][x := x][y := y])
  {
    var a, b := CatalogPath(translateDir, lang, ca), CatalogPath(translateDir, lang, cb);
    var st0 := Store(Disk(map[a := SentinelCatalog(), b := SentinelCatalog()], {}), map[]);
    RegisterOneOnExisting(st0, translateDir, ca, x, lang, keyOf);
    var st1 := RegisterOne(st0, translateDir, ca, x, lang, keyOf);
    var c := Entries(map[Sentinel := Sentinel][x := x]);
    assert st1.cache[keyOf(b)] == c;
    assert !IsEmptyEntry(st1.cache, keyOf(b)) by {
      assert x in c.entries;
    }
    RegisterOneOnExisting(st1, translateDir, cb, y, lang, keyOf);
  }

  /**
   * With the cache keyed by `FileId`, as the source keys it, the catalogs of
   * categories `a_b` and `ab` share one cache entry (`Paths.FileIdCollides`),
   * so a message registered under `a_b` is written into the catalog of `ab`.
   */
  lemma FileIdCacheLeaksKeys(translateDir: string, lang: string, x: string, y: string)
    requires x != Sentinel && y != Sentinel && y != x
    ensures
      var a, b := CatalogPath(translateDir, lang, "a_b"), CatalogPath(translateDir, lang, "ab");
      var st0 := Store(Disk(map[a := SentinelCatalog(), b := SentinelCatalog()], {}), map[]);
      var st1 := RegisterOne(st0, translateDir, "a_b", x, lang, FileId);
      var st2 := RegisterOne(st1, translateDir, "ab", y, lang, FileId);
      b in st2.disk.files && st2.disk.files[b] == Entries(map[Sentinel := Sentinel][x := x][y := y])
  {
    FileIdCollides(translateDir, lang);
    SharedKeyLeaks(translateDir, lang, "a_b", "ab", x, y, FileId);
  }

  /**
   * Two catalogs that share a cache key share whether they hold a message:
   * registering `x` under the first category and then `x` under the second
   * finds `x` in the shared cached array and writes nothing, so the second
   * catalog never gets the key.
   */
  lemma SharedKeyLosesRegistration(translateDir: string, lang: string, ca: string, cb: string, x: string,
                                   keyOf: string -> string)
    requires CatalogPath(translateDir, lang, ca) != CatalogPath(translateDir, lang, cb)
    requires keyOf(CatalogPath(translateDir, lang, ca)) == keyOf(CatalogPath(translateDir, lang, cb))
    requires x != Sentinel
    ensures
      var a, b := CatalogPath(translateDir, lang, ca), CatalogPath(translateDir, lang, cb);
      var st0 := Store(Disk(map[a := SentinelCatalog(), b := SentinelCatalog()], {}), map[]);
      var st1 := RegisterOne(st0, translateDir, ca, x, lang, keyOf);
      var st2 := RegisterOne(st1, translateDir, cb, x, lang, keyOf);
      b in st2.disk.files && st2.disk.files[b] == SentinelCatalog() && x !in st2.disk.files[b].entries
  {
    var a, b := CatalogPath(translateDir, lang, ca), CatalogPath(translateDir, lang, cb);
    var st0 := Store(Disk(map[a := SentinelCatalog(), b := SentinelCatalog()], {}), map[]);
    RegisterOneOnExisting(st0, translateDir, ca, x, lang, keyOf);
    var st1 := RegisterOne(st0, translateDir, ca, x, lang, keyOf);
    var c := Entries(map[Sentinel := Sentinel][x := x]);
    assert st1.cache[keyOf(b)] == c;
    assert !IsEmptyEntry(st1.cache, keyOf(b)) by {
      assert x in c.entries;
    }
    RegisterOneOnExisting(st1, translateDir, cb, x, lang, keyOf);
  }

  /**
   * With the cache keyed by `FileId`, registering `x` under `a_b` and then
   * under `ab` leaves the catalog of `ab` without `x`.
   */
  lemma FileIdCacheLosesRegistration(translateDir: string, lang: string, x: string)
    requires x != Sentinel
    ensures
      var a, b := CatalogPath(translateDir, lang, "a_b"), CatalogPath(translateDir, lang, "ab");
      var st0 := Store(Disk(map[a := SentinelCatalog(), b := SentinelCatalog()], {}), map[]);
      var st1 := RegisterOne(st0, translateDir, "a_b", x, lang, FileId);
      var st2 := RegisterOne(st1, translateDir, "ab", x, lang, FileId);
      b in st2.disk.files && st2.disk.files[b] == SentinelCatalog() && x !in st2.disk.files[b].entries
  {
    FileIdCollides(translateDir, lang);
    SharedKeyLosesRegistration(translateDir, lang, "a_b", "ab", x, FileId);
  }

  /**
   * The same two registrations with the cache keyed by path: the second
   * catalog holds the sentinel and `y`, and nothing registered under the
   * first category.
   */
  lemma PathCacheKeepsCategoriesApart(translateDir: string, lang: string, ca: string, cb: string, x: string, y: string)
    requires CatalogPath(translateDir, lang, ca) != CatalogPath(translateDir, lang, cb)
    ensures
      var a, b := CatalogPath(translateDir, lang, ca), CatalogPath(translateDir, lang, cb);
      var st0 := Store(Disk(map[a := SentinelCatalog(), b := SentinelCatalog()], {}), map[]);
      var st1 := RegisterOne(st0, translateDir, ca, x, lang, CacheKey);
      var st2 := RegisterOne(st1, translateDir, cb, y, lang, CacheKey);
      b in st2.disk.files && st2.disk.files[b] == Entries(map[Sentinel := Sentinel][y := y])
  {
    var a, b := CatalogPath(translateDir, lang, ca), CatalogPath(translateDir, lang, cb);
    var st0 := Store(Disk(map[a := SentinelCatalog(), b := SentinelCatalog()], {}), map[]);
    RegisterOneEffect(st0, translateDir, ca, x, lang);
    var st1 := RegisterOne(st0, translateDir, ca, x, lang, CacheKey);
    RegisterOneKeepsCoherence(st0, translateDir, ca, x, lang);
    RegisterOneEffect(st1, translateDir, cb, y, lang);
  }
}
