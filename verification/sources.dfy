/**
 * The `translations` property of the I18N component: an ordered PHP array
 * from category pattern to message source, where a source is either a
 * configuration or an object created from one. This module holds the array
 * operations, the category patterns, the three table branches of
 * `getMessageSource` and the defaults `init` adds.
 */
module Sources {
  import opened Wrappers

  /** A message source configuration (the array handed to `Yii::createObject`). */
  datatype SourceConfig = SourceConfig(className: string, sourceLanguage: string, basePath: string, forceTranslation: bool)

  /**
   * A table value: a configuration not yet instantiated, or the message source
   * object created from one; `id` tells created objects apart.
   */
  datatype Source = Config(config: SourceConfig) | Instance(id: nat, config: SourceConfig)

  datatype Entry = Entry(pattern: string, source: Source)

  /** A PHP array from pattern to source, in insertion order. */
  type Table = seq<Entry>

  const PhpMessageSource: string := "system\\lib\\i18n\\PhpMessageSource"

  /** The keys of the array. */
  function Patterns(t: Table): (ps: set<string>)
    ensures forall e :: e in t ==> e.pattern in ps
  {
    if t == [] then {} else {t[0].pattern} + Patterns(t[1..])
  }

  /** No key occurs twice. */
  ghost predicate UniquePatterns(t: Table)
  {
    t == [] || (t[0].pattern !in Patterns(t[1..]) && UniquePatterns(t[1..]))
  }

  /** Every object in the table was created before the counter reached `next`. */
  ghost predicate InstancesBelow(t: Table, next: nat)
  {
    forall e :: e in t && e.source.Instance? ==> e.source.id < next
  }

  /** A counter value above every object id in the table. */
  function FreshId(t: Table): (n: nat)
    ensures InstancesBelow(t, n)
  {
    if t == [] then 0
    else
      var rest := FreshId(t[1..]);
      assert forall e :: e in t ==> e == t[0] || e in t[1..];
      if t[0].source.Instance? && t[0].source.id >= rest then t[0].source.id + 1 else rest
  }

  // ---------------------------------------------------------------------------
  // PHP array operations
  // ---------------------------------------------------------------------------

  /** `isset($t[$pattern]) ? $t[$pattern] : null`. */
  function Get(t: Table, pattern: string): (r: Option<Source>)
    ensures r.Some? <==> pattern in Patterns(t)
    ensures r.Some? ==> Entry(pattern, r.value) in t
  {
    if t == [] then None
    else if t[0].pattern == pattern then Some(t[0].source)
    else Get(t[1..], pattern)
  }

  /**
   * `$t[$pattern] = $s`: an existing entry is overwritten in place, a new
   * one is appended.
   */
  function Put(t: Table, pattern: string, s: Source): (r: Table)
    ensures Get(r, pattern) == Some(s)
    ensures forall k :: k != pattern ==> Get(r, k) == Get(t, k)
    ensures Patterns(r) == Patterns(t) + {pattern}
  {
    if t == [] then [Entry(pattern, s)]
    else if t[0].pattern == pattern then [Entry(pattern, s)] + t[1..]
    else
      var rest := Put(t[1..], pattern, s);
      assert ([t[0]] + rest)[1..] == rest;
      [t[0]] + rest
  }

  /** Every entry of the new array was there before or is the one written. */
  lemma {:induction false} PutOnlyWrites(t: Table, pattern: string, s: Source)
    ensures forall e :: e in Put(t, pattern, s) ==> e in t || e == Entry(pattern, s)
  {
    if t != [] && t[0].pattern != pattern {
      PutOnlyWrites(t[1..], pattern, s);
      assert forall e :: e in t[1..] ==> e in t;
    }
  }

  /** A new key is appended at the end. */
  lemma {:induction false} PutAppendsNewKey(t: Table, pattern: string, s: Source)
    requires pattern !in Patterns(t)
    ensures Put(t, pattern, s) == t + [Entry(pattern, s)]
  {
    if t != [] {
      assert t[0].pattern in Patterns(t);
      assert pattern !in Patterns(t[1..]);
      PutAppendsNewKey(t[1..], pattern, s);
      assert Put(t, pattern, s) == [t[0]] + (t[1..] + [Entry(pattern, s)]);
      assert [t[0]] + (t[1..] + [Entry(pattern, s)]) == ([t[0]] + t[1..]) + [Entry(pattern, s)];
      assert [t[0]] + t[1..] == t;
    }
  }

  /** An existing key keeps its position: the keys stay where they were. */
  lemma {:induction false} PutOverwritesInPlace(t: Table, pattern: string, s: Source)
    requires pattern in Patterns(t)
    ensures var r := Put(t, pattern, s);
      |r| == |t| && forall i :: 0 <= i < |t| ==> r[i].pattern == t[i].pattern
  {
    if t[0].pattern != pattern {
      PutOverwritesInPlace(t[1..], pattern, s);
    }
  }

  /** Writing keeps the keys unique. */
  lemma {:induction false} PutKeepsUnique(t: Table, pattern: string, s: Source)
    ensures UniquePatterns(t) ==> UniquePatterns(Put(t, pattern, s))
  {
    if t != [] && t[0].pattern != pattern {
      PutKeepsUnique(t[1..], pattern, s);
      var r := Put(t, pattern, s);
      assert r[1..] == Put(t[1..], pattern, s);
    }
  }

  // ---------------------------------------------------------------------------
  // Category patterns
  // ---------------------------------------------------------------------------

  /** `strpos($s, $c)`: the index of the first occurrence, `None` for `false`. */
  function IndexOf(s: string, c: char): (r: Option<nat>)
    ensures r.Some? ==> r.value < |s| && s[r.value] == c && c !in s[..r.value]
    ensures r.None? ==> c !in s
  {
    if s == [] then None
    else if s[0] == c then Some(0)
    else
      match IndexOf(s[1..], c)
      case None => None
      case Some(i) =>
        assert s[..i + 1] == [s[0]] + s[1..][..i];
        Some(i + 1)
  }

  /** `rtrim($s, '*')`. */
  function TrimTrailingStars(s: string): (r: string)
    ensures r <= s
    ensures r == [] || r[|r| - 1] != '*'
    ensures forall i :: |r| <= i < |s| ==> s[i] == '*'
  {
    if s == [] || s[|s| - 1] != '*' then s else TrimTrailingStars(s[..|s| - 1])
  }

  /** `strpos($pattern, '*') > 0`: a wildcard, but not as the first character. */
  predicate IsPrefixPattern(pattern: string)
  {
    match IndexOf(pattern, '*')
    case Some(i) => i > 0
    case None => false
  }

  /**
   * The wildcard test of `getMessageSource`: a prefix pattern whose text
   * without trailing '*'s starts the category.
   */
  predicate PrefixMatches(pattern: string, category: string)
  {
    IsPrefixPattern(pattern) && TrimTrailingStars(pattern) <= category
  }

  /** A pattern starting with '*' (the universal `*` among them) never takes the prefix branch. */
  lemma StarPatternsAreNotPrefixPatterns(pattern: string, category: string)
    requires pattern != [] && pattern[0] == '*'
    ensures !PrefixMatches(pattern, category)
  {
  }

  /** The literal text a prefix pattern requires is never empty. */
  lemma PrefixPatternHasText(pattern: string)
    requires IsPrefixPattern(pattern)
    ensures TrimTrailingStars(pattern) != []
  {
    var i := IndexOf(pattern, '*').value;
    assert pattern[0] != '*' by {
      assert pattern[0] in pattern[..i];
    }
  }

  function FirstPrefixMatchFrom(t: Table, category: string, from: nat): (r: Option<nat>)
    requires from <= |t|
    ensures r.Some? ==> from <= r.value < |t| && PrefixMatches(t[r.value].pattern, category)
    ensures r.Some? ==> forall j :: from <= j < r.value ==> !PrefixMatches(t[j].pattern, category)
    ensures r.None? ==> forall j :: from <= j < |t| ==> !PrefixMatches(t[j].pattern, category)
    decreases |t| - from
  {
    if from == |t| then None
    else if PrefixMatches(t[from].pattern, category) then Some(from)
    else FirstPrefixMatchFrom(t, category, from + 1)
  }

  /** The entry the wildcard `foreach` of `getMessageSource` stops at: the first matching prefix pattern. */
  function FirstPrefixMatch(t: Table, category: string): (r: Option<nat>)
    ensures r.Some? ==> r.value < |t| && PrefixMatches(t[r.value].pattern, category)
    ensures r.Some? ==> forall j :: 0 <= j < r.value ==> !PrefixMatches(t[j].pattern, category)
    ensures r.None? ==> forall j :: 0 <= j < |t| ==> !PrefixMatches(t[j].pattern, category)
  {
    FirstPrefixMatchFrom(t, category, 0)
  }

  /** The wildcard `foreach` of `getMessageSource` (I18N.php:197-208), as a loop over the table. */
  method FindPrefixPattern(t: Table, category: string) returns (r: Option<nat>)
    ensures r == FirstPrefixMatch(t, category)
  {
    var i := 0;
    while i < |t|
      invariant 0 <= i <= |t|
      invariant forall j :: 0 <= j < i ==> !PrefixMatches(t[j].pattern, category)
    {
      var pattern := t[i].pattern;
      var star := IndexOf(pattern, '*');
      if star.Some? && star.value > 0 && TrimTrailingStars(pattern) <= category {
        return Some(i);
      }
      i := i + 1;
    }
    return None;
  }

  // ---------------------------------------------------------------------------
  // The table branches of getMessageSource
  // ---------------------------------------------------------------------------

  /** The outcome of a table lookup: the source returned, the new table and the new object counter. */
  datatype Resolved = Resolved(source: Source, table: Table, next: nat)

  /**
   * Use a value matched by a wildcard: an object is returned as it is and
   * nothing is stored; a configuration is instantiated as object `next`,
   * stored under the matched `pattern` and then under the category.
   */
  function UseMatch(t: Table, pattern: string, s: Source, category: string, next: nat): (r: Resolved)
    ensures r.source.Instance? && r.source.config == s.config
    ensures s.Instance? ==> r == Resolved(s, t, next)
    ensures s.Config? ==>
              r.source == Instance(next, s.config) && r.next == next + 1 &&
              Get(r.table, pattern) == Some(r.source) &&
              Get(r.table, category) == Some(r.source)
    ensures forall k :: k != pattern && k != category ==> Get(r.table, k) == Get(t, k)
  {
    if s.Instance? then Resolved(s, t, next)
    else
      var o := Instance(next, s.config);
      Resolved(o, Put(Put(t, pattern, o), category, o), next + 1)
  }

  /**
   * The table part of `getMessageSource` (I18N.php:185-218): the exact
   * category key, else the first prefix pattern (memoized under the pattern
   * and the category), else `*` (memoized under `*` and the category);
   * `None` when none applies.
   */
  function ResolveInTable(t: Table, category: string, next: nat): (r: Option<Resolved>)
    ensures r.None? <==> Get(t, category).None? && FirstPrefixMatch(t, category).None? && Get(t, "*").None?
    ensures r.Some? ==> r.value.source.Instance?
  {
    match Get(t, category)
    case Some(s) =>
      if s.Instance? then Some(Resolved(s, t, next))
      else
        var o := Instance(next, s.config);
        Some(Resolved(o, Put(t, category, o), next + 1))
    case None =>
      match FirstPrefixMatch(t, category)
      case Some(i) => Some(UseMatch(t, t[i].pattern, t[i].source, category, next))
      case None =>
        match Get(t, "*")
        case Some(s) => Some(UseMatch(t, "*", s, category, next))
        case None => None
  }

  /**
   * An exact key beats every wildcard: an object stored there is returned
   * as it is and nothing changes; a configuration is instantiated as object
   * `next` and stored under that key, every other key keeping its value.
   */
  lemma ExactKeyWins(t: Table, category: string, next: nat)
    requires Get(t, category).Some?
    ensures var r := ResolveInTable(t, category, next);
      r.Some? && r.value.source.config == Get(t, category).value.config &&
      Get(r.value.table, category) == Some(r.value.source) &&
      (Get(t, category).value.Instance? ==> r == Some(Resolved(Get(t, category).value, t, next))) &&
      (Get(t, category).value.Config? ==> r.value.source == Instance(next, Get(t, category).value.config) && r.value.next == next + 1) &&
      (forall k :: k != category ==> Get(r.value.table, k) == Get(t, k))
  {
  }

  /**
   * Without an exact key, the first matching prefix pattern beats `*`: a
   * configuration is instantiated and stored under the pattern and the
   * category, an object is returned without storing the category.
   */
  lemma PrefixPatternBeatsStar(t: Table, category: string, next: nat, i: nat)
    requires Get(t, category).None?
    requires i < |t| && PrefixMatches(t[i].pattern, category)
    ensures var r := ResolveInTable(t, category, next);
      var j := FirstPrefixMatch(t, category).value;
      j <= i && r.Some? && r.value.source.config == t[j].source.config &&
      (t[j].source.Config? ==>
         Get(r.value.table, t[j].pattern) == Some(r.value.source) && Get(r.value.table, category) == Some(r.value.source)) &&
      (t[j].source.Instance? ==> r.value.source == t[j].source && r.value.table == t) &&
      (forall k :: k != category && k != t[j].pattern ==> Get(r.value.table, k) == Get(t, k))
  {
  }

  /**
   * `*` applies only when nothing else does; a configuration under `*` is
   * instantiated and stored under both `*` and the category, an object
   * under `*` is returned without storing the category.
   */
  lemma StarIsTheLastResort(t: Table, category: string, next: nat)
    requires Get(t, category).None? && FirstPrefixMatch(t, category).None?
    requires Get(t, "*").Some?
    ensures var r := ResolveInTable(t, category, next);
      r.Some? && r.value.source.config == Get(t, "*").value.config &&
      (Get(t, "*").value.Config? ==>
         Get(r.value.table, "*") == Some(r.value.source) && Get(r.value.table, category) == Some(r.value.source)) &&
      (Get(t, "*").value.Instance? ==> r == Some(Resolved(Get(t, "*").value, t, next))) &&
      (forall k :: k != category && k != "*" ==> Get(r.value.table, k) == Get(t, k))
  {
  }

  /** Storing a configuration, or an object below the counter, keeps the table's objects below the counter. */
  lemma PutKeepsInstancesBelow(t: Table, pattern: string, s: Source, next: nat)
    requires InstancesBelow(t, next)
    requires s.Instance? ==> s.id < next
    ensures InstancesBelow(Put(t, pattern, s), next)
  {
    PutOnlyWrites(t, pattern, s);
  }

  lemma UseMatchKeepsWellFormed(t: Table, pattern: string, s: Source, category: string, next: nat)
    requires UniquePatterns(t) && InstancesBelow(t, next)
    requires s.Instance? ==> s.id < next
    requires pattern in Patterns(t)
    ensures var R := UseMatch(t, pattern, s, category, next);
      UniquePatterns(R.table) && InstancesBelow(R.table, R.next) &&
      Patterns(t) <= Patterns(R.table) <= Patterns(t) + {category} &&
      (R.next == next || (R.next == next + 1 && R.source.id == next))
  {
    if s.Config? {
      var o := Instance(next, s.config);
      PutKeepsInstancesBelow(t, pattern, o, next + 1);
      PutKeepsInstancesBelow(Put(t, pattern, o), category, o, next + 1);
      PutKeepsUnique(t, pattern, o);
      PutKeepsUnique(Put(t, pattern, o), category, o);
    }
  }

  /**
   * Resolution only adds keys, instantiates at most one fresh object, and
   * keeps the table well formed.
   */
  lemma ResolveKeepsTableWellFormed(t: Table, category: string, next: nat)
    requires UniquePatterns(t) && InstancesBelow(t, next)
    ensures var r := ResolveInTable(t, category, next);
      r.Some? ==>
        UniquePatterns(r.value.table) && InstancesBelow(r.value.table, r.value.next) &&
        Patterns(t) <= Patterns(r.value.table) <= Patterns(t) + {category} &&
        (r.value.next == next || (r.value.next == next + 1 && r.value.source.id == next))
  {
    match Get(t, category)
    case Some(s) =>
      if s.Config? {
        PutKeepsInstancesBelow(t, category, Instance(next, s.config), next + 1);
      }
    case None =>
      match FirstPrefixMatch(t, category)
      case Some(i) =>
        assert t[i] in t;
        UseMatchKeepsWellFormed(t, t[i].pattern, t[i].source, category, next);
      case None =>
        match Get(t, "*")
        case Some(s) =>
          UseMatchKeepsWellFormed(t, "*", s, category, next);
        case None =>
  }

  /**
   * Apart from the category, a lookup changes at most the matched wildcard
   * key, which then holds the object returned: every key that is neither
   * the category nor the matched pattern keeps its value (the branch lemmas
   * above name that pattern).
   */
  lemma ResolveChangesOnlyMatch(t: Table, category: string, next: nat)
    ensures var r := ResolveInTable(t, category, next);
      r.Some? ==>
        forall k :: k != category && Get(r.value.table, k) != Get(t, k) ==> Get(r.value.table, k) == Some(r.value.source)
  {
    var r := ResolveInTable(t, category, next);
    if r.Some? {
      var R := r.value;
      forall k | k != category && Get(R.table, k) != Get(t, k)
        ensures Get(R.table, k) == Some(R.source)
      {
        if Get(t, category).Some? {
          ExactKeyWins(t, category, next);
        } else if FirstPrefixMatch(t, category).Some? {
          var i := FirstPrefixMatch(t, category).value;
          PrefixPatternBeatsStar(t, category, next, i);
        } else {
          StarIsTheLastResort(t, category, next);
        }
      }
    }
  }

  /**
   * Memoization: resolving the same category again against the new table
   * returns the same source and changes nothing.
   */
  lemma ResolveIsStable(t: Table, category: string, next: nat)
    requires UniquePatterns(t)
    requires ResolveInTable(t, category, next).Some?
    ensures var R := ResolveInTable(t, category, next).value;
      ResolveInTable(R.table, category, R.next) == Some(Resolved(R.source, R.table, R.next))
  {
    var R := ResolveInTable(t, category, next).value;
    match Get(t, category)
    case Some(s) =>
    case None =>
      match FirstPrefixMatch(t, category)
      case Some(i) =>
        if t[i].source.Instance? {
          assert R.table == t;
        } else {
          assert Get(R.table, category) == Some(R.source);
        }
      case None =>
  }

  // ---------------------------------------------------------------------------
  // init
  // ---------------------------------------------------------------------------

  function DefaultSource(sourceLanguage: string, basePath: string): Source
  {
    Config(SourceConfig(PhpMessageSource, sourceLanguage, basePath, false))
  }

  /** Add `category` with `source` unless the category or its `wildcard` pattern (`category*`) is configured. */
  function AddDefault(t: Table, category: string, wildcard: string, source: Source): Table
  {
    if Get(t, category).None? && Get(t, wildcard).None? then Put(t, category, source) else t
  }

  /** The table after `init` (I18N.php:61-75). */
  function InitTable(t: Table, appSourceLanguage: string): (r: Table)
    ensures Patterns(t) <= Patterns(r) <= Patterns(t) + {"yii", "app"}
  {
    var withYii := AddDefault(t, "yii", "yii*", DefaultSource("en-US", "@yii/messages"));
    AddDefault(withYii, "app", "app*", DefaultSource(appSourceLanguage, "@app/messages"))
  }

  /**
   * `init` leaves every configured entry as it was, and afterwards `yii` and
   * `app` are each configured, by an exact key or a `*` pattern; a default is
   * added exactly when neither was there.
   */
  lemma InitAddsOnlyMissingDefaults(t: Table, appSourceLanguage: string)
    ensures var r := InitTable(t, appSourceLanguage);
      (forall k :: Get(t, k).Some? ==> Get(r, k) == Get(t, k)) &&
      Patterns(r) <= Patterns(t) + {"yii", "app"} &&
      (Get(r, "yii").Some? || Get(r, "yii*").Some?) &&
      (Get(r, "app").Some? || Get(r, "app*").Some?) &&
      (Get(t, "yii").None? && Get(t, "yii*").None? ==> Get(r, "yii") == Some(DefaultSource("en-US", "@yii/messages"))) &&
      (Get(t, "app").None? && Get(t, "app*").None? ==> Get(r, "app") == Some(DefaultSource(appSourceLanguage, "@app/messages"))) &&
      (Get(t, "yii*").Some? ==> Get(r, "yii") == Get(t, "yii")) &&
      (Get(t, "app*").Some? ==> Get(r, "app") == Get(t, "app"))
  {
    var y := AddDefault(t, "yii", "yii*", DefaultSource("en-US", "@yii/messages"));
    assert Get(y, "app") == Get(t, "app") && Get(y, "app*") == Get(t, "app*");
  }

  /** `init` keeps the table well formed: it only adds configurations under new keys. */
  lemma InitKeepsWellFormed(t: Table, appSourceLanguage: string, next: nat)
    requires UniquePatterns(t) && InstancesBelow(t, next)
    ensures UniquePatterns(InitTable(t, appSourceLanguage)) && InstancesBelow(InitTable(t, appSourceLanguage), next)
  {
    var yii, app := DefaultSource("en-US", "@yii/messages"), DefaultSource(appSourceLanguage, "@app/messages");
    var y := AddDefault(t, "yii", "yii*", yii);
    PutKeepsUnique(t, "yii", yii);
    PutKeepsInstancesBelow(t, "yii", yii, next);
    PutKeepsUnique(y, "app", app);
    PutKeepsInstancesBelow(y, "app", app, next);
  }
}
