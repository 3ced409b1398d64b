# I18N component of lib-i18n, modelled in Dafny

The `I18N` application component of the Yiiman CMS translation library
(`i18n/I18N.php`) translates a message of a category into a language. It does
four things:

- It resolves the category to a message source through the ordered
  `translations` table. It tries an exact key first, then the first prefix
  pattern such as `app*`, then the universal `*`. It memoizes the object it
  creates from a configuration.
- Before every resolution it attaches a catalog file that already exists for
  the application language. When nothing matches, it creates a placeholder
  catalog for every supported language and retries.
- On a miss (the source answers `false`) it registers the message as a new key
  in every listed language's catalog that holds an array. It goes through a
  process-wide cache of included catalogs. A missing catalog is created holding
  only the placeholder entry `start => start`, and gains the message on a later
  miss.
- It formats the result. A message with an ICU argument goes to the ICU
  formatter. Otherwise each `{name}` token is replaced in one `strtr` pass.

The model has six modules:

- `Wrappers`: the option type.
- `Paths`: directory and catalog path strings, `mkdir -p` and the cache id of a
  catalog.
- `MessageFormat`: `format`, with the regular expression as a scanner proved
  equal to its declarative reading, and `strtr`.
- `Sources`: the `translations` table as an ordered PHP array, the wildcard
  patterns, the three table branches of `getMessageSource`, and `init`.
- `CatalogFiles`: the disk (files with what `include` returns, and directories)
  and the in-process cache. It holds auto-creation and key registration as
  folds over the language list, with their effects.
- `I18NComponent`: the classes `FileSystem`, `CatalogCache` (the static
  `$files`) and `I18N`. Each method of `I18N` is proved equal to the
  specification function of its operation. The component's properties are
  proved as lemmas about those functions.

Outside calls are parameters of the model:

- `Yii::createObject` yields `Instance(id, config)`, numbered by a counter.
- The source's own `translate` is the `lookup` parameter, and the ICU formatter
  is the `icu` parameter. Each answers `None` for PHP's `false`.
- `@system`, the application languages and the language list are `Settings`.

## Model

| member | source | states |
|---|---|---|
| `Paths.ModuleDir` | i18n/I18N.php:250 | `$systemDir . '/modules/' . $category`, the directory whose existence makes a category module-scoped |
| `Paths.TranslateDir` | i18n/I18N.php:250-257 | `$translateDir`: `modules/<category>/translates/` for a module-scoped category, else the global `translates/` |
| `Paths.CatalogPath` | i18n/I18N.php:266-273 | a catalog file is `$translateDir . $languageCode . '/' . $category . '.php'` |
| `Paths.CatalogPathInjective` | i18n/I18N.php:266-273 | two languages never share the catalog file of one category |
| `Paths.MkdirP` | i18n/I18N.php:261-265 | `mkdir($dir, 0777, true)` leaves `dir` and only non-empty prefixes of it in place |
| `Paths.MkdirPMakesAncestors` | i18n/I18N.php:261-265 | `mkdir($dir, 0777, true)` makes every ancestor of `dir` that ends just before a '/', and nothing else besides `dir` |
| `Paths.CatalogParent` | i18n/I18N.php:270-273 | for a category without '/', the file `fopen` creates sits directly in the language directory |
| `Paths.GlobalPathIsNotModule` | i18n/I18N.php:250-257 | no path under the global `translates/` directory is a category's module directory |
| `Paths.GlobalDirsAreNotModules` | i18n/I18N.php:250-265 | no directory `mkdir` makes for a global catalog is a module directory |
| `Paths.FileId` | i18n/I18N.php:323 | the cache id contains none of `/ \ . - _`, is no longer than the path, and is the path itself when the path has none of them |
| `Paths.FileIdIgnores` | i18n/I18N.php:323 | deleting one of `/ \ . - _` anywhere in a path leaves its cache id unchanged |
| `Paths.FileIdCollides` | i18n/I18N.php:323 | the catalogs of categories `a_b` and `ab` are different files with one cache id |
| `MessageFormat.IsIcuTemplate` | i18n/I18N.php:122 | the message matches `~{\s*[\w.]+\s*,~u` somewhere: '{', optional spaces, a name of word characters and dots, optional spaces, ',' |
| `MessageFormat.IcuTemplateMatchesRegex` | i18n/I18N.php:122 | the scanner finds an argument exactly when `{`, optional spaces, word or dot characters, optional spaces and `,` occur in the message |
| `MessageFormat.NoCommaNoIcu` | i18n/I18N.php:122 | a message without a comma never goes to the ICU formatter |
| `MessageFormat.Token` | i18n/I18N.php:140 | the key `'{' . $name . '}'` a parameter is substituted for |
| `MessageFormat.TokenInjective` | i18n/I18N.php:139-141 | distinct parameter names give distinct `{name}` tokens |
| `MessageFormat.TokenMap` | i18n/I18N.php:138-141 | `$p` maps each parameter's token to its value and holds nothing else |
| `MessageFormat.BuildTokenMap` | i18n/I18N.php:138-141 | the `foreach` over the parameters builds exactly `$p` |
| `MessageFormat.LongestKeyLength` | i18n/I18N.php:143 | `strtr` matches the longest key at the current position |
| `MessageFormat.Strtr` | i18n/I18N.php:143 | `strtr` leaves text unchanged when no key can start in it (no '{' in the text, every key starting with '{') |
| `MessageFormat.StrtrWithoutBraces` | i18n/I18N.php:143 | text without `{` passes through `strtr` on the token map unchanged |
| `MessageFormat.StrtrToken` | i18n/I18N.php:143 | a lone token is replaced by its parameter's value |
| `MessageFormat.StrtrTokenThen` | i18n/I18N.php:143 | a token followed by more text: the value is emitted verbatim and the scan resumes right after the token, so nothing in the value is substituted again (parameter names contain no '}') |
| `MessageFormat.Format` | i18n/I18N.php:116-144 | empty params return the message. An ICU argument gives the formatter's result, or the raw message when the formatter fails. Otherwise one `strtr` pass over the token map |
| `MessageFormat.FormatFallsBackToMessage` | i18n/I18N.php:124-133 | a formatter failure yields the message unchanged, never an error |
| `MessageFormat.FormatSubstitutesToken` | i18n/I18N.php:138-143 | plain text followed by `{name}` becomes the text followed by the value (`Hello {name}` with `name: Ana` gives `Hello Ana`) |
| `MessageFormat.FormatDoesNotRescan` | i18n/I18N.php:143 | a message that is one token becomes that parameter's value verbatim, whatever tokens the value holds: substitution is one pass |
| `Sources.FreshId` | i18n/I18N.php:52 | every object already configured in the table has an id below the counter's start |
| `Sources.Get` | i18n/I18N.php:185 | `isset($translations[$k])` holds exactly for the table's keys, and yields that key's entry |
| `Sources.Put` | i18n/I18N.php:191 | assignment sets the key, leaves every other key as it was, and adds exactly that key to the key set |
| `Sources.PutOnlyWrites` | i18n/I18N.php:191 | every entry after the assignment was there before or is the one written |
| `Sources.PutAppendsNewKey` | i18n/I18N.php:191 | a new key is appended after every existing entry |
| `Sources.PutOverwritesInPlace` | i18n/I18N.php:191 | an existing key is overwritten where it stands: the array keeps its length and its key order |
| `Sources.PutKeepsUnique` | i18n/I18N.php:191 | assignment keeps the keys unique |
| `Sources.PutKeepsInstancesBelow` | i18n/I18N.php:191 | storing a configuration, or an object below the counter, keeps every object in the table below the counter |
| `Sources.IndexOf` | i18n/I18N.php:198 | `strpos` gives the first occurrence, or `false` when there is none |
| `Sources.TrimTrailingStars` | i18n/I18N.php:198 | `rtrim($p, '*')` is a prefix of the pattern that drops only trailing stars and ends in something other than a star |
| `Sources.IsPrefixPattern` | i18n/I18N.php:198 | `strpos($pattern, '*') > 0`: the pattern holds a '*', but not first |
| `Sources.PrefixMatches` | i18n/I18N.php:198 | a prefix pattern whose text without trailing '*'s starts the category (`strpos(...) === 0`) |
| `Sources.StarPatternsAreNotPrefixPatterns` | i18n/I18N.php:198 | a pattern starting with `*`, `*` itself among them, never takes the prefix branch |
| `Sources.PrefixPatternHasText` | i18n/I18N.php:198 | a prefix pattern requires non-empty literal text |
| `Sources.FirstPrefixMatch` | i18n/I18N.php:197-208 | the wildcard scan stops at the first matching prefix pattern in table order |
| `Sources.FindPrefixPattern` | i18n/I18N.php:197-208 | the `foreach` loop returns that first match, or none |
| `Sources.UseMatch` | i18n/I18N.php:199-217 | a matched object is returned as it is with the table unchanged. A matched configuration becomes object `next`, stored under the pattern and the category. No other key changes |
| `Sources.ResolveInTable` | i18n/I18N.php:185-218 | the table branches fail exactly when there is no exact key, no matching prefix pattern and no `*`. Success yields an object |
| `Sources.ExactKeyWins` | i18n/I18N.php:185-192 | an exact key beats every wildcard. An object stored there is returned as it is and nothing changes. A configuration becomes object `next`, stored under the key. Every other key keeps its value |
| `Sources.PrefixPatternBeatsStar` | i18n/I18N.php:197-208 | the first matching prefix pattern beats `*`. A configuration is memoized under the pattern and the category. An object is returned without storing the category. Every other key keeps its value |
| `Sources.StarIsTheLastResort` | i18n/I18N.php:211-218 | `*` applies only when nothing else does. A configuration is memoized under `*` and the category. An object under `*` is returned as it is and nothing changes. Every other key keeps its value |
| `Sources.ResolveChangesOnlyMatch` | i18n/I18N.php:185-218 | apart from the category, a lookup changes only the matched wildcard key, which then holds the object returned |
| `Sources.UseMatchKeepsWellFormed` | i18n/I18N.php:199-206 | using a matched entry keeps keys unique, adds at most the category's key and creates at most one object, whose id is the counter |
| `Sources.ResolveKeepsTableWellFormed` | i18n/I18N.php:183-218 | a lookup keeps keys unique, adds at most the category's key and creates at most one new object |
| `Sources.ResolveIsStable` | i18n/I18N.php:185-218 | looking the category up again in the memoized table returns the same source and changes nothing |
| `Sources.DefaultSource` | i18n/I18N.php:61-75 | the default configuration: a `PhpMessageSource` with the given source language and base path |
| `Sources.AddDefault` | i18n/I18N.php:61-75 | a default is stored unless the key or its `key*` pattern is configured |
| `Sources.InitAddsOnlyMissingDefaults` | i18n/I18N.php:58-76 | `init` keeps every configured entry. Afterwards `yii` and `app` are configured. A default is added exactly when neither the key nor its `*` variant was there: with only `yii*` (or `app*`) configured, no `yii` (`app`) key is added |
| `Sources.InitKeepsWellFormed` | i18n/I18N.php:58-76 | `init` keeps keys unique and adds no objects |
| `Sources.InitTable` | i18n/I18N.php:58-76 | `init` keeps every key and adds at most `yii` and `app` |
| `CatalogFiles.CreateEachOnlyAdds` | i18n/I18N.php:260-277 | auto-creation only adds directories. It leaves every existing file as it was, and each file it adds is a listed language's catalog holding only the sentinel |
| `CatalogFiles.CreateEach` | i18n/I18N.php:260-277 | the language loop of `createTranslationCategory`, one `CreateOne` step per listed language in list order |
| `CatalogFiles.CreateEachDirs` | i18n/I18N.php:260-277 | the loop makes exactly each listed language's directory and its ancestors |
| `CatalogFiles.CreateCategoryDirs` | i18n/I18N.php:248-278 | `createTranslationCategory` makes exactly the category's catalog directory, each listed language's directory, and their ancestors |
| `CatalogFiles.CreateEachStable` | i18n/I18N.php:260-277 | the loop changes nothing once every listed language's directory and catalog exist |
| `CatalogFiles.CreateCategoryIdempotent` | i18n/I18N.php:248-278 | a second `createTranslationCategory` changes nothing, when the first could make every catalog (always so for a category without '/') |
| `CatalogFiles.CreateEachCreates` | i18n/I18N.php:260-277 | afterwards every listed language has a catalog, provided the catalog's directory can be made (always for a category without '/') |
| `CatalogFiles.CreateKeepsCategoryDir` | i18n/I18N.php:248-257 | auto-creation never changes whether a category is module-scoped |
| `CatalogFiles.Exists` | i18n/I18N.php:236 | `realpath($p)` is truthy exactly when a file or a directory is at `p` |
| `CatalogFiles.IsModule` | i18n/I18N.php:250 | a category is module-scoped when `systemDir/modules/category` exists |
| `CatalogFiles.CategoryDir` | i18n/I18N.php:250-257 | `$translateDir`: the module's `translates/` directory for a module-scoped category, else the global one |
| `CatalogFiles.Include` | i18n/I18N.php:325 | `include` of a catalog file yields the array it holds. Only an existing path yields anything but `false` |
| `CatalogFiles.Mkdir` | i18n/I18N.php:261-265 | `mkdir -p` changes no file and leaves the directory in place |
| `CatalogFiles.CreateOne` | i18n/I18N.php:261-276 | one language step of auto-creation makes exactly the language directory and its ancestors, and keeps every file. It creates at most the language's catalog, holding only the sentinel, and only where no file or directory was. Afterwards the catalog exists exactly when it existed or its directory does |
| `CatalogFiles.CreateCategory` | i18n/I18N.php:248-278 | `createTranslationCategory` only adds directories, keeps every file, and adds only the category's catalogs, each holding only the sentinel (the exact directories are `CreateCategoryDirs`) |
| `CatalogFiles.IsEmptyEntry` | i18n/I18N.php:324 | `empty(self::$files[$id])`: the entry is absent, an empty array, or `false` |
| `CatalogFiles.AddKey` | i18n/I18N.php:327-329 | a file's contents after registration: an array gains the key when missing, any other value stays as it is |
| `CatalogFiles.AddKeyIdempotent` | i18n/I18N.php:327-329 | adding a key that is already present changes nothing |
| `CatalogFiles.WithKey` | i18n/I18N.php:328-329 | a catalog gains `message => message` only when it lacks the key, and keeps every other entry |
| `CatalogFiles.RegisterOne` | i18n/I18N.php:306-344 | for any cache key, one language step makes exactly the language directory and its ancestors. It writes no file but the language's catalog, removes none, and touches no cache entry but the catalog's own |
| `CatalogFiles.RegisterEach` | i18n/I18N.php:305-345 | for any cache key, the language loop removes no directory, writes only the category's catalogs and creates no other file |
| `CatalogFiles.RegisterCategory` | i18n/I18N.php:293-346 | for any cache key, `addKeyToTranslationFile` removes no directory, writes only the category's catalogs and creates no other file |
| `CatalogFiles.RegisterOneKeepsCoherence` | i18n/I18N.php:311-345 | with the cache keyed by path, one language step keeps the cache equal to the files it caches |
| `CatalogFiles.RegisterOneEffect` | i18n/I18N.php:306-345 | one language step makes the language directory. It creates a missing catalog holding only the sentinel, adds the key to an existing array catalog and touches no other file, with the cache keyed by path (the corrected behaviour under "Findings") |
| `CatalogFiles.DirsMade` | i18n/I18N.php:305-310 | the registration loop makes each listed language's directory and its ancestors, and nothing else |
| `CatalogFiles.RegisterEachKeepsCoherence` | i18n/I18N.php:305-345 | the language loop keeps the cache equal to the files it caches, with the cache keyed by path (the corrected behaviour under "Findings") |
| `CatalogFiles.RegisterEachFiles` | i18n/I18N.php:305-345 | the loop adds the key to each listed language's existing catalog, leaves every other file as it was, and creates only the category's catalogs, with the cache keyed by path (the corrected behaviour under "Findings") |
| `CatalogFiles.RegisterEachDirsAndCache` | i18n/I18N.php:305-345 | the loop makes exactly the language directories, caches each existing catalog of the category, and leaves the cache membership of every other path alone, with the cache keyed by path (the corrected behaviour under "Findings") |
| `CatalogFiles.RegisterEachCreates` | i18n/I18N.php:306-321 | self-healing, whatever the cache key (the source's `FileId` included) and whatever the cache holds: afterwards every listed language has a catalog whenever its directory can be made. That is always so for a category without '/', otherwise when the subdirectory existed |
| `CatalogFiles.RegisterOneKeepsExisting` | i18n/I18N.php:306-344 | whatever the cache key, one language step removes no file and no directory |
| `CatalogFiles.RegisterEachEffect` | i18n/I18N.php:305-345 | the loop keeps the cache coherent and adds the key to each listed language's array catalog. It creates each missing catalog whose directory can be made. Other categories' files and cache entries stay as they were, with the cache keyed by path (the corrected behaviour under "Findings") |
| `CatalogFiles.MkdirKeepsCoherence` | i18n/I18N.php:297-303 | making directories keeps the cache coherent |
| `CatalogFiles.CreateKeepsCoherence` | i18n/I18N.php:248-278 | auto-creation keeps the cache coherent |
| `CatalogFiles.RegisterCategoryEffect` | i18n/I18N.php:293-346 | `addKeyToTranslationFile` as a whole: exact directories made, key added to the category's array catalogs, other files unchanged, cache coherent. Every listed language has a catalog afterwards whenever its directory can be made, with the cache keyed by path (the corrected behaviour under "Findings") |
| `CatalogFiles.RegisterCategoryKeepsCoherence` | i18n/I18N.php:293-346 | `addKeyToTranslationFile` keeps the cache coherent, with the cache keyed by path (the corrected behaviour under "Findings") |
| `CatalogFiles.RegisterCategoryAddsKey` | i18n/I18N.php:293-346 | afterwards every listed language's catalog that held an array holds the message, and every file outside the category's catalogs is unchanged, with the cache keyed by path (the corrected behaviour under "Findings") |
| `CatalogFiles.RegisterCategoryCreates` | i18n/I18N.php:293-346 | self-healing, whatever the cache key (the source's `FileId` included): after `addKeyToTranslationFile` every listed language has a catalog of the category whenever its directory can be made |
| `CatalogFiles.RegisterEachCreatesSentinels` | i18n/I18N.php:314-321 | a catalog the call has to create holds only `start => start`. The message is not added on that call, with the cache keyed by path (the corrected behaviour under "Findings") |
| `CatalogFiles.CategoryDirKept` | i18n/I18N.php:296-303 | adding only a category's own directories and catalogs keeps that category's catalog directory |
| `CatalogFiles.RegisterKeepsCategoryDir` | i18n/I18N.php:293-303 | registration never changes whether a category is module-scoped, with the cache keyed by path (the corrected behaviour under "Findings") |
| `CatalogFiles.RegisterCategoryTwice` | i18n/I18N.php:293-346 | when every listed language's catalog exists, a second registration of the same message changes no file, directory or cache entry, with the cache keyed by path (the corrected behaviour under "Findings") |
| `CatalogFiles.RegisterOneOnExisting` | i18n/I18N.php:322-343 | for any cache key, an existing catalog is served from the cache, or reloaded when the entry is empty. Its array gains the key in the cache and, when it lacked it, on disk |
| `CatalogFiles.SharedKeyLeaks` | i18n/I18N.php:323-337 | two catalogs with one cache key share one cached array, so a message registered for one is written into the other |
| `CatalogFiles.FileIdCacheLeaksKeys` | i18n/I18N.php:323-337 | with the source's cache id, a message registered under `a_b` ends up in the catalog of `ab` |
| `CatalogFiles.SharedKeyLosesRegistration` | i18n/I18N.php:323-337 | two catalogs with one cache key: registering `x` under the first and then under the second leaves the second with only the sentinel, because `isset` finds `x` in the shared array |
| `CatalogFiles.FileIdCacheLosesRegistration` | i18n/I18N.php:323-337 | with the source's cache id, registering `x` under `a_b` and then under `ab` never writes `x` into `ab`'s catalog |
| `CatalogFiles.PathCacheKeepsCategoriesApart` | i18n/I18N.php:323-337 | with the cache keyed by path, the same registrations leave `ab`'s catalog holding only its sentinel and its own message |
| `I18NComponent.AppCatalog` | i18n/I18N.php:228-236 | `$fullDir`: the category's catalog in the application language, under the module or the global `translates/` |
| `I18NComponent.AttachedSource` | i18n/I18N.php:237-244 | the configuration attached: a `PhpMessageSource` in the application language, with the module's or `@system`'s `translates/` as base path, forcing translation |
| `I18NComponent.Attach` | i18n/I18N.php:225-246 | when the application-language catalog exists, the category's entry is overwritten with a `forceTranslation` configuration, whatever it held. Otherwise the table is unchanged. Other keys never change |
| `I18NComponent.ResolveCategory` | i18n/I18N.php:183-223 | a resolved source is always an object |
| `I18NComponent.TranslateSpec` | i18n/I18N.php:92-104 | `translate` fails to return exactly when resolution does. Table and counter are resolution's. Without a miss it writes nothing beyond auto-creation |
| `I18NComponent.ResolveCategoryKeepsValid` | i18n/I18N.php:183-223 | resolution keeps keys unique and the cache coherent. It adds at most the category's key, creates at most one object, and changes the disk only by auto-creation |
| `I18NComponent.ResolveCategoryTerminates` | i18n/I18N.php:219-221 | the retry succeeds with the attached configuration's object when the application language is listed and the catalog's directory can be made |
| `I18NComponent.ResolveCategoryFails` | i18n/I18N.php:219-221 | resolution fails exactly when nothing in the table matches and auto-creation leaves the application-language catalog missing |
| `I18NComponent.ResolveCategoryFailsAgain` | i18n/I18N.php:219-221 | a failed resolution is a fixpoint: resolving again from the state it leaves fails the same way and changes nothing, so the source's retry never returns (when auto-creation made every catalog it could, always so for a category without '/') |
| `I18NComponent.ResolveCategoryMemoizes` | i18n/I18N.php:183-218 | without an application-language catalog, resolving a resolved category again returns the same object and changes nothing |
| `I18NComponent.AttachDefeatsMemo` | i18n/I18N.php:236-245 | with an application-language catalog, two resolutions in a row return two different objects |
| `I18NComponent.TranslateHitWritesNothing` | i18n/I18N.php:92-104 | a hit is formatted in the requested language, and no existing file or cache entry changes |
| `I18NComponent.EmptyTranslationIsAHit` | i18n/I18N.php:97 | an empty translation is a hit, not a miss: with no parameters the result is the empty string |
| `I18NComponent.TranslateMissRegistersKey` | i18n/I18N.php:97-101 | a miss returns the message formatted in the source's language. Afterwards each listed language's array catalog holds the message, and each listed language has a catalog whenever its directory can be made. No other file changes |
| `I18NComponent.CatalogCache.constructor` | i18n/I18N.php:54 | the catalog cache starts empty |
| `I18NComponent.I18N.constructor` | i18n/I18N.php:52 | a configured component has a well formed table and a coherent cache |
| `I18NComponent.I18N.Init` | i18n/I18N.php:58-76 | `init` leaves the table that `Sources.InitTable` describes |
| `I18NComponent.I18N.CreateObject` | i18n/I18N.php:191 | `Yii::createObject` returns a new object with the counter's id |
| `I18NComponent.I18N.AttachIfCreatedFile` | i18n/I18N.php:225-246 | the method leaves the table that `Attach` describes |
| `I18NComponent.I18N.UseMatched` | i18n/I18N.php:199-206 | a matched object is returned as it is. A matched configuration is instantiated and stored under the pattern, then under the category |
| `I18NComponent.I18N.LookUpTable` | i18n/I18N.php:185-218 | the three branches update the table and the counter as `ResolveInTable` describes, and keep them well formed |
| `I18NComponent.I18N.GetMessageSource` | i18n/I18N.php:183-223 | source, table, counter and disk are those `ResolveCategory` describes |
| `I18NComponent.I18N.CreateCatalogFile` | i18n/I18N.php:261-276 | one language step leaves the disk that `CreateOne` describes |
| `I18NComponent.I18N.CreateTranslationCategory` | i18n/I18N.php:248-278 | the language loop leaves the disk that `CreateCategory` describes, and keeps the cache coherent |
| `I18NComponent.I18N.AddKeyForLanguage` | i18n/I18N.php:306-345 | one language step leaves the store that `RegisterOne` describes |
| `I18NComponent.I18N.AddKeyToTranslationFile` | i18n/I18N.php:293-346 | the language loop leaves the store that `RegisterCategory` describes, and keeps the cache coherent |
| `I18NComponent.I18N.Format` | i18n/I18N.php:116-144 | the method computes `MessageFormat.Format` |
| `I18NComponent.I18N.Translate` | i18n/I18N.php:92-104 | result, table, counter, disk and cache are those `TranslateSpec` describes |

## Left out

- `i18n/Layout.php`: static JSON file lookups. Its `date()` shares the `$layout` memo with `run()`, so the second call returns the first call's data. It is file I/O with no logic of the component.
- `getMessageFormatter`/`setMessageFormatter` and the ICU `MessageFormatter`: a framework object. The formatter is the `icu` parameter.
- `Yii::warning` on a formatter failure: logging only.
- `generatePHPFile_array`: the catalog text form is not modelled. A catalog is the map `include` returns. Its `str_replace` of `{`, `}` and `":` also rewrites those characters inside keys, so writing and re-reading a catalog does not round-trip in general. The model assumes it does.
- `languageList`: the JSON language list is the input `Settings.languages`.
- `MessageFormat.IsNameChar`: `\w` is ASCII letters, digits and `_`. Under the `/u` modifier PHP also counts Unicode letters and digits, so a message whose ICU argument name is non-ASCII is sent to `strtr` in the model.
- `MessageFormat.IsSpace`: `\s` is the six ASCII white-space characters. Under the `/u` modifier PHP also counts Unicode white space such as U+00A0, so a message like `{` U+00A0 `name,` goes to the ICU formatter in PHP but to `strtr` in the model.
- `realpath` normalisation (`..`, `.`, symbolic links): paths are compared as written.
- `@`-suppressed `mkdir` errors and the failure of `fopen`, `flock` or `ftruncate`: `mkdir` always succeeds, and `fopen` for writing succeeds exactly when the file's directory exists. A locked rewrite is one atomic update of the file.
- A failed `fopen` (a category containing '/' whose subdirectory is missing): the model writes nothing and goes on with the next language, as PHP 7 does, where `fwrite(false, …)` (i18n/I18N.php:274, 320) only warns. Under PHP 8 that call throws a `TypeError`, so `createTranslationCategory`, and `translate` through it, would raise instead.
- Concurrency: other processes writing catalogs, and the staleness of the process-wide cache against them.
- `null` catalog values (for which `isset` is false) and PHP's conversion of numeric-string keys to integers: catalog keys and values are strings.
- `I18NComponent.ResolveCategory`: `getMessageSource` is unrolled to two attempts. Where the second attempt fails too, the source calls itself again, and the model answers `None`. `ResolveCategoryFails` and `ResolveCategoryTerminates` state when that happens. When auto-creation made every catalog it could (always so for a category without '/'), `ResolveCategoryFailsAgain` shows that the call repeated changes nothing, so the recursion never ends. When a language code contains '/', a later step of auto-creation can make the directory an earlier language's catalog needed, so the source can return on a third or later attempt where the model answers `None`.
- `I18NComponent.I18N.AddKeyToTranslationFile`: the class keys the catalog cache by path (`Paths.CacheKey`), the corrected behaviour under "Findings". The source's key is modelled by `RegisterCategory` with `Paths.FileId`.
- `I18NComponent.I18N.AddKeyForLanguage`: keys the catalog cache by path, as above.
- `I18NComponent.I18N.Translate`: registers a miss with the cache keyed by path, as above.
- `I18NComponent.TranslateSpec`: registers a miss with the cache keyed by path, as above.
- `CatalogFiles.RegisterCategoryTwice`: a second registration changes nothing only when every listed language's catalog existed before the first. A first call that has to create a catalog writes only the sentinel (`RegisterEachCreatesSentinels`), and the second call then adds the message.
- `I18NComponent.ResolveCategoryMemoizes`: memoization holds only while the application-language catalog is absent. Once it exists, `AttachIfCreatedFile` (i18n/I18N.php:237-244) overwrites the category's entry with a configuration on every call, so each resolution creates a new object (`AttachDefeatsMemo`).
- `CatalogFiles.CreateCategoryIdempotent`: stated only when the first run could make every listed catalog. For a category containing '/', a later step of the loop can make the subdirectory an earlier language's catalog needed (when a language code itself contains '/'), and a second run then creates that catalog.
- `I18NComponent.ResolveCategoryFailsAgain`: stated under the same condition as `CreateCategoryIdempotent`, for the same reason.
- `I18NComponent.ResolveCategoryTerminates`: the retry after auto-creation (i18n/I18N.php:219-221) returns when the application language is in the language list and the catalog's directory can be made. When it fails and auto-creation made every catalog it could (always so for a category without '/'), the source calls itself without end (`ResolveCategoryFailsAgain`). When a language code contains '/', a later attempt of the source can still return. In both cases the model answers `None` (`ResolveCategoryFails`).
- The `MessageSource` instances of either base class are one kind, `Source.Instance`.

## Findings

| source | as written | input that shows it | evidently intended | confidence | as-written member | corrected member |
|---|---|---|---|---|---|---|
| i18n/I18N.php:323-337 | the cache id of a catalog is its path with `/ \ . - _` deleted, so different catalog files can share one cached array | catalogs of categories `a_b` and `ab` in one language, each holding only the sentinel: registering `x` under `a_b` and then `y` under `ab` writes `x` into `ab`'s catalog | one cache entry per catalog file, keyed by its normalized path | high, not executed | `CatalogFiles.FileIdCacheLeaksKeys` | `CatalogFiles.PathCacheKeepsCategoriesApart` |
| i18n/I18N.php:323-337 | catalogs that share a cache id share whether they hold a message, so a registration can be lost | catalogs of categories `a_b` and `ab` in one language, each holding only the sentinel: registering `x` under `a_b` and then `x` under `ab` leaves `ab`'s catalog without `x` | every array catalog of the category gains the missing key | high, not executed | `CatalogFiles.FileIdCacheLosesRegistration` | `CatalogFiles.RegisterCategoryAddsKey` |
