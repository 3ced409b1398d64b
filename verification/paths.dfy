/**
 * Path strings as the I18N component builds them: the catalog directory of a
 * category, the catalog file of a (language, category) pair, what
 * `mkdir($dir, 0777, true)` creates, the directory part of a path and the id
 * under which the component caches an included catalog.
 */
module Paths {

  /** `$systemDir . '/modules/' . $category`: the directory whose existence makes a category module-scoped. */
  function ModuleDir(systemDir: string, category: string): string
  {
    systemDir + "/modules/" + category
  }

  /** `$translateDir`: where the catalogs of a category live. */
  function TranslateDir(systemDir: string, category: string, isModule: bool): string
  {
    if isModule then ModuleDir(systemDir, category) + "/translates/" else systemDir + "/translates/"
  }

  /** `$translateDir . $languageCode . '/' . $category . '.php'`. */
  function CatalogPath(translateDir: string, lang: string, category: string): string
  {
    translateDir + lang + "/" + category + ".php"
  }

  /** Two languages never share a catalog file of the same category. */
  lemma CatalogPathInjective(translateDir: string, l1: string, l2: string, category: string)
    requires CatalogPath(translateDir, l1, category) == CatalogPath(translateDir, l2, category)
    ensures l1 == l2
  {
    var p := CatalogPath(translateDir, l1, category);
    assert |l1| == |l2|;
    assert l1 == p[|translateDir|..|translateDir| + |l1|];
  }

  /**
   * The directories `mkdir($dir, 0777, true)` leaves in place: `dir` itself and
   * every ancestor ending just before a '/'.
   */
  function MkdirP(dir: string): (made: set<string>)
    ensures dir != [] ==> dir in made
    ensures forall d :: d in made ==> d != [] && d <= dir
  {
    assert dir[..|dir|] == dir;
    set i | 0 < i <= |dir| && (i == |dir| || dir[i] == '/') :: dir[..i]
  }

  /**
   * `mkdir -p` makes exactly `dir` and every ancestor of it that ends just
   * before a '/'.
   */
  lemma MkdirPMakesAncestors(dir: string)
    ensures forall i :: 0 < i < |dir| && dir[i] == '/' ==> dir[..i] in MkdirP(dir)
    ensures forall d :: d in MkdirP(dir) ==> d == dir || dir[|d|] == '/'
  {
  }

  /** The directory part of a path: everything before its last '/', or "" when it has none. */
  function ParentDir(p: string): (d: string)
    ensures d <= p
    ensures p != [] ==> |d| < |p|
    decreases |p|
  {
    if p == [] then []
    else if p[|p| - 1] == '/' then p[..|p| - 1]
    else ParentDir(p[..|p| - 1])
  }

  lemma {:induction false} ParentDirOfLeaf(dir: string, leaf: string)
    requires '/' !in leaf
    ensures ParentDir(dir + "/" + leaf) == dir
    decreases |leaf|
  {
    var p := dir + "/" + leaf;
    if leaf == [] {
      assert p[..|p| - 1] == dir;
    } else {
      assert p[|p| - 1] == leaf[|leaf| - 1];
      assert p[..|p| - 1] == dir + "/" + leaf[..|leaf| - 1];
      ParentDirOfLeaf(dir, leaf[..|leaf| - 1]);
    }
  }

  /** For a category without '/', a catalog file sits directly in its language directory. */
  lemma CatalogParent(translateDir: string, lang: string, category: string)
    requires '/' !in category
    ensures ParentDir(CatalogPath(translateDir, lang, category)) == translateDir + lang
  {
    assert CatalogPath(translateDir, lang, category) == (translateDir + lang) + "/" + (category + ".php");
    ParentDirOfLeaf(translateDir + lang, category + ".php");
  }

  /** No path under `<systemDir>/translates/` is the module directory of a category. */
  lemma GlobalPathIsNotModule(systemDir: string, category: string, p: string)
    requires systemDir + "/translates/" <= p
    ensures p != ModuleDir(systemDir, category)
  {
    var n := |systemDir|;
    assert ModuleDir(systemDir, category)[n + 1] == 'm';
    assert p[n + 1] == (systemDir + "/translates/")[n + 1] == 't';
  }

  /**
   * No directory made under `<systemDir>/translates/` is the module directory
   * of a category, so auto-creating a global catalog never turns its category
   * into a module-scoped one.
   */
  lemma GlobalDirsAreNotModules(systemDir: string, category: string, dir: string)
    requires systemDir + "/translates/" <= dir
    ensures ModuleDir(systemDir, category) !in MkdirP(dir)
  {
    var md, n := ModuleDir(systemDir, category), |systemDir|;
    assert md[n + 1] == 'm';
    assert dir[n + 1] == (systemDir + "/translates/")[n + 1] == 't';
    forall i | 0 < i <= |dir| && (i == |dir| || dir[i] == '/')
      ensures dir[..i] != md
    {
      if n + 1 < i {
        assert dir[..i][n + 1] == 't';
      }
    }
  }

  /** The characters `str_replace(['/','\\','.','-','_'], '', ...)` deletes. */
  predicate IsIdStripped(c: char)
  {
    c == '/' || c == '\\' || c == '.' || c == '-' || c == '_'
  }

  /**
   * The id under which the source caches an included catalog: its path with
   * every '/', '\', '.', '-' and '_' deleted.
   */
  function FileId(p: string): (id: string)
    ensures |id| <= |p|
    ensures forall i :: 0 <= i < |id| ==> !IsIdStripped(id[i])
    ensures (forall i :: 0 <= i < |p| ==> !IsIdStripped(p[i])) ==> id == p
  {
    if p == [] then [] else (if IsIdStripped(p[0]) then [] else [p[0]]) + FileId(p[1..])
  }

  lemma {:induction false} FileIdAppend(x: string, y: string)
    ensures FileId(x + y) == FileId(x) + FileId(y)
  {
    if x == [] {
      assert x + y == y;
    } else {
      assert (x + y)[0] == x[0];
      assert (x + y)[1..] == x[1..] + y;
      FileIdAppend(x[1..], y);
    }
  }

  /** Deleting a stripped character anywhere in a path leaves its id unchanged. */
  lemma FileIdIgnores(x: string, c: char, y: string)
    requires IsIdStripped(c)
    ensures FileId(x + [c] + y) == FileId(x + y)
  {
    FileIdAppend(x + [c], y);
    FileIdAppend(x, [c]);
    FileIdAppend(x, y);
    assert FileId([c]) == [];
  }

  /**
   * The id is not injective: the catalogs of categories `a_b` and `ab` are two
   * files with one id.
   */
  lemma FileIdCollides(translateDir: string, lang: string)
    ensures CatalogPath(translateDir, lang, "a_b") != CatalogPath(translateDir, lang, "ab")
    ensures FileId(CatalogPath(translateDir, lang, "a_b")) == FileId(CatalogPath(translateDir, lang, "ab"))
  {
    var x := translateDir + lang + "/a";
    assert CatalogPath(translateDir, lang, "a_b") == x + ['_'] + "b.php";
    assert CatalogPath(translateDir, lang, "ab") == x + "b.php";
    FileIdIgnores(x, '_', "b.php");
  }

  /**
   * The cache key the model uses: the catalog path itself, which names one file.
   */
  function CacheKey(p: string): string
  {
    p
  }
}
