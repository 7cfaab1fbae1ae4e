// dependencies.json as configure.py reads it (a tree of files joined by
// "includes"), and the selection logic of its dependency commands: which
// packages can be downloaded or built, where a package is found, which Conan
// package is preferred, when a download is repeated, which files a build
// installs and how requested dependencies are checked.
module ConfigureModel {
  import opened Wrappers
  import opened ManifestPatterns
  import opened ManifestJson
  import opened StringOrder
  import opened ConfigureRecipes

  // ---------------------------------------------------------------------------
  // The manifest

  /** `DependenciesJson` */
  datatype Manifest = Manifest(
    dependencies: seq<string>,
    caches: seq<PackageCache>,
    conan: seq<ConanRecipes>,
    cmake: seq<CMakeRecipe>)

  const NoRecords: Manifest := Manifest([], [], [], [])

  /** The records of `a` followed by those of `b` (the `extend` calls). */
  function Merge(a: Manifest, b: Manifest): Manifest
  {
    Manifest(a.dependencies + b.dependencies, a.caches + b.caches, a.conan + b.conan, a.cmake + b.cmake)
  }

  lemma MergeAssoc(a: Manifest, b: Manifest, c: Manifest)
    ensures Merge(Merge(a, b), c) == Merge(a, Merge(b, c))
  {
    assert a.dependencies + b.dependencies + c.dependencies == a.dependencies + (b.dependencies + c.dependencies);
    assert a.caches + b.caches + c.caches == a.caches + (b.caches + c.caches);
    assert a.conan + b.conan + c.conan == a.conan + (b.conan + c.conan);
    assert a.cmake + b.cmake + c.cmake == a.cmake + (b.cmake + c.cmake);
  }

  /** Every record passed its parser's checks. */
  predicate ValidManifest(m: Manifest)
  {
    (forall i :: 0 <= i < |m.dependencies| ==> LowerName(m.dependencies[i]))
    && (forall i :: 0 <= i < |m.caches| ==> ValidCache(m.caches[i]))
    && (forall i :: 0 <= i < |m.conan| ==> ValidConan(m.conan[i]))
    && (forall i :: 0 <= i < |m.cmake| ==> ValidRecipe(m.cmake[i]))
  }

  lemma MergeValid(a: Manifest, b: Manifest)
    requires ValidManifest(a) && ValidManifest(b)
    ensures ValidManifest(Merge(a, b))
  {
    var m := Merge(a, b);
    assert forall i :: |a.dependencies| <= i < |m.dependencies| ==> m.dependencies[i] == b.dependencies[i - |a.dependencies|];
    assert forall i :: |a.caches| <= i < |m.caches| ==> m.caches[i] == b.caches[i - |a.caches|];
    assert forall i :: |a.conan| <= i < |m.conan| ==> m.conan[i] == b.conan[i - |a.conan|];
    assert forall i :: |a.cmake| <= i < |m.cmake| ==> m.cmake[i] == b.cmake[i - |a.cmake|];
  }

  /** `[parse(js) for js in items]`: every record parsed, or the first failure. */
  function ParseEach<T>(items: seq<Json>, parse: Json -> Result<T, Error>): (r: Result<seq<T>, Error>)
    ensures r.Ok? ==> |r.value| == |items| && forall i :: 0 <= i < |items| ==> parse(items[i]) == Ok(r.value[i])
    ensures r.Err? ==> exists i :: (0 <= i < |items| && parse(items[i]) == Err(r.error)
      && forall k :: 0 <= k < i ==> parse(items[k]).Ok?)
  {
    if |items| == 0 then Ok([])
    else
      var x :- parse(items[0]);
      var rest := ParseEach(items[1..], parse);
      if rest.Err? then
        var i :| 0 <= i < |items[1..]| && parse(items[1..][i]) == Err(rest.error)
          && forall k :: 0 <= k < i ==> parse(items[1..][k]).Ok?;
        assert parse(items[i + 1]) == Err(rest.error);
        assert forall k :: 0 < k < i + 1 ==> parse(items[k]).Ok? by {
          forall k | 0 < k < i + 1 ensures parse(items[k]).Ok? {
            assert items[k] == items[1..][k - 1];
          }
        }
        Err(rest.error)
      else
        assert forall i :: 0 < i < |items| ==> items[i] == items[1..][i - 1];
        Ok([x] + rest.value)
  }

  /**
   * The records one file declares itself, in file order: its dependencies,
   * then each package cache, Conan group and CMake recipe parsed in turn.
   * configure.py passes the file's directory for the recipe patches;
   * install_deps.py none.
   */
  function ParseRecords(root: Json, patchDir: Option<string>): (r: Result<Manifest, Error>)
    ensures r.Ok? ==> ValidManifest(r.value) && root.JObj?
    ensures r.Ok? ==> StringList("dependencies", GetOr(root.entries, "dependencies", JList([]))) == Ok(r.value.dependencies)
  {
    hide *;
    if !root.JObj? then Err(TypeError("dependencies.json"))
    else
      var e := root.entries;
      var deps :- ParseDependencyNames(e);
      var caches :- ParseCaches(e);
      var conan :- ParseConanGroups(e);
      var cmake :- ParseCMakeRecipes(e, patchDir);
      ValidManifestOf(deps, caches, conan, cmake);
      Ok(Manifest(deps, caches, conan, cmake))
  }

  lemma ValidManifestOf(deps: seq<string>, caches: seq<PackageCache>, conan: seq<ConanRecipes>, cmake: seq<CMakeRecipe>)
    requires forall i :: 0 <= i < |deps| ==> LowerName(deps[i])
    requires forall i :: 0 <= i < |caches| ==> ValidCache(caches[i])
    requires forall i :: 0 <= i < |conan| ==> ValidConan(conan[i])
    requires forall i :: 0 <= i < |cmake| ==> ValidRecipe(cmake[i])
    ensures ValidManifest(Manifest(deps, caches, conan, cmake))
  {
  }

  /** "dependencies": a list of package names. */
  function ParseDependencyNames(e: seq<(string, Json)>): (r: Result<seq<string>, Error>)
    ensures r.Ok? ==> forall i :: 0 <= i < |r.value| ==> LowerName(r.value[i])
    ensures r.Ok? ==> StringList("dependencies", GetOr(e, "dependencies", JList([]))) == Ok(r.value)
  {
    var jdeps := GetOr(e, "dependencies", JList([]));
    var deps :- StringList("dependencies", jdeps);
    var checked :- ValidatePattern(PackageNameP, "dependencies", jdeps.items);
    assert checked == deps;
    Ok(deps)
  }

  /** "package-caches": each entry a package cache. */
  function ParseCaches(e: seq<(string, Json)>): (r: Result<seq<PackageCache>, Error>)
    ensures r.Ok? ==> forall i :: 0 <= i < |r.value| ==> ValidCache(r.value[i])
  {
    hide ParseEach, ParsePackageCache;
    var jcaches :- Iterate("package-caches", GetOr(e, "package-caches", JList([])));
    var caches :- ParseEach(jcaches, ParsePackageCache);
    CachesValid(jcaches, caches);
    Ok(caches)
  }

  /** "conan-recipes": each entry a Conan group. */
  function ParseConanGroups(e: seq<(string, Json)>): (r: Result<seq<ConanRecipes>, Error>)
    ensures r.Ok? ==> forall i :: 0 <= i < |r.value| ==> ValidConan(r.value[i])
  {
    hide ParseEach, ParseConanRecipes;
    var jconan :- Iterate("conan-recipes", GetOr(e, "conan-recipes", JObj([])));
    var conan :- ParseEach(jconan, ParseConanRecipes);
    ConanValid(jconan, conan);
    Ok(conan)
  }

  /** "cmake-recipes": each entry a CMake recipe, its patches under `patchDir`. */
  function ParseCMakeRecipes(e: seq<(string, Json)>, patchDir: Option<string>): (r: Result<seq<CMakeRecipe>, Error>)
    ensures r.Ok? ==> forall i :: 0 <= i < |r.value| ==> ValidRecipe(r.value[i])
  {
    hide ParseEach, RecipeOf;
    var jcmake :- Iterate("cmake-recipes", GetOr(e, "cmake-recipes", JList([])));
    var cmake :- ParseEach(jcmake, j => RecipeOf(j, patchDir));
    RecipesValid(jcmake, patchDir, cmake);
    Ok(cmake)
  }

  lemma CachesValid(items: seq<Json>, caches: seq<PackageCache>)
    requires ParseEach(items, ParsePackageCache) == Ok(caches)
    ensures forall i :: 0 <= i < |caches| ==> ValidCache(caches[i])
  {
    hide ParseEach, ParsePackageCache;
    forall i | 0 <= i < |caches| ensures ValidCache(caches[i]) {
      assert ParsePackageCache(items[i]) == Ok(caches[i]);
    }
  }

  lemma ConanValid(items: seq<Json>, conan: seq<ConanRecipes>)
    requires ParseEach(items, ParseConanRecipes) == Ok(conan)
    ensures forall i :: 0 <= i < |conan| ==> ValidConan(conan[i])
  {
    hide ParseEach, ParseConanRecipes;
    forall i | 0 <= i < |conan| ensures ValidConan(conan[i]) {
      assert ParseConanRecipes(items[i]) == Ok(conan[i]);
    }
  }

  lemma RecipesValid(items: seq<Json>, patchDir: Option<string>, cmake: seq<CMakeRecipe>)
    requires ParseEach(items, j => RecipeOf(j, patchDir)) == Ok(cmake)
    ensures forall i :: 0 <= i < |cmake| ==> ValidRecipe(cmake[i])
  {
    hide ParseEach, RecipeOf;
    forall i | 0 <= i < |cmake| ensures ValidRecipe(cmake[i]) {
      assert (j => RecipeOf(j, patchDir))(items[i]) == Ok(cmake[i]);
      assert RecipeOf(items[i], patchDir) == Ok(cmake[i]);
    }
  }

  /** `assert depth < 8`: the deepest include level. */
  const MaxDepth: nat := 8

  /** The dependencies sorted and unique (`sorted(set(deps))`). */
  function Normalized(m: Manifest): (r: Manifest)
    ensures StrictlySorted(r.dependencies) && Elems(r.dependencies) == Elems(m.dependencies)
    ensures r.caches == m.caches && r.conan == m.conan && r.cmake == m.cmake
  {
    m.(dependencies := SortedSet(m.dependencies))
  }

  lemma NormalizedValid(m: Manifest)
    requires ValidManifest(m)
    ensures ValidManifest(Normalized(m))
  {
    var d := Normalized(m).dependencies;
    forall i | 0 <= i < |d| ensures LowerName(d[i]) {
      assert d[i] in Elems(d);
      var k :| 0 <= k < |m.dependencies| && m.dependencies[k] == d[i];
    }
  }

  /** A file's own records joined with its includes', once they all parsed. */
  function Finish(own: Manifest, included: Result<Manifest, Error>): Result<Manifest, Error>
  {
    if included.Err? then included else Ok(Normalized(Merge(own, included.value)))
  }

  /**
   * `DependenciesJson.parse(file_path, depth)`.  The file system is `files`
   * (a path absent from it cannot be opened) and `absPath` stands for
   * `os.path.abspath`.
   */
  function ParseFile(files: map<string, Json>, absPath: string -> string, path: string, depth: nat): (r: Result<Manifest, Error>)
    ensures r.Ok? ==> ValidManifest(r.value) && StrictlySorted(r.value.dependencies)
    ensures path in files && depth >= MaxDepth ==> r == Err(TooManyIncludeLevels)
    decreases if depth < MaxDepth then MaxDepth - depth else 0, 1, 0
  {
    hide ParseRecords, ParseIncludes, Normalized, Merge, StringList, GetOr, DirName;
    if path !in files then Err(FileNotFound(path))
    else if depth >= MaxDepth then Err(TooManyIncludeLevels)
    else
      var root := files[path];
      var dir := DirName(path);
      var own :- ParseRecords(root, Some(dir));
      var includes :- StringList("includes", GetOr(root.entries, "includes", JList([])));
      var included := ParseIncludes(files, absPath, dir, includes, depth);
      if included.Ok? then
        MergeValid(own, included.value);
        NormalizedValid(Merge(own, included.value));
        Finish(own, included)
      else
        Finish(own, included)
  }

  /** The includes loop: each relative path parsed one level deeper, in order. */
  function ParseIncludes(files: map<string, Json>, absPath: string -> string, dir: string, includes: seq<string>,
                         depth: nat): (r: Result<Manifest, Error>)
    requires depth < MaxDepth
    ensures r.Ok? ==> ValidManifest(r.value)
    decreases MaxDepth - depth, 0, |includes|
  {
    if |includes| == 0 then Ok(NoRecords)
    else if IsAbs(includes[0]) then Err(AbsoluteInclude(includes[0]))
    else
      var sub :- ParseFile(files, absPath, absPath(PathJoin(dir, includes[0])), depth + 1);
      var rest :- ParseIncludes(files, absPath, dir, includes[1..], depth);
      MergeValid(sub, rest);
      Ok(Merge(sub, rest))
  }

  /** The include list of a file, once its own records parsed. */
  function IncludesOf(root: Json): Result<seq<string>, Error>
  {
    if root.JObj? then StringList("includes", GetOr(root.entries, "includes", JList([]))) else Err(TypeError("dependencies.json"))
  }

  /** A failing include, or an absolute one, fails the whole includes loop. */
  lemma {:induction false} IncludeFails(files: map<string, Json>, absPath: string -> string, dir: string,
                                        includes: seq<string>, depth: nat, k: int)
    requires depth < MaxDepth && 0 <= k < |includes|
    requires IsAbs(includes[k]) || ParseFile(files, absPath, absPath(PathJoin(dir, includes[k])), depth + 1).Err?
    ensures ParseIncludes(files, absPath, dir, includes, depth).Err?
  {
    hide ParseFile;
    if k > 0 && !IsAbs(includes[0]) {
      assert includes[1..][k - 1] == includes[k];
      IncludeFails(files, absPath, dir, includes[1..], depth, k - 1);
    }
  }

  /** An absolute include rejects the file (os.path.isabs check). */
  lemma AbsoluteIncludeFails(files: map<string, Json>, absPath: string -> string, path: string, depth: nat, k: int)
    requires path in files && IncludesOf(files[path]).Ok?
    requires 0 <= k < |IncludesOf(files[path]).value| && IsAbs(IncludesOf(files[path]).value[k])
    ensures ParseFile(files, absPath, path, depth).Err?
  {
    hide ParseIncludes, ParseRecords;
    if depth < MaxDepth {
      IncludeFails(files, absPath, DirName(path), IncludesOf(files[path]).value, depth, k);
    }
  }

  /** A file that includes itself is rejected: the include chain hits the depth limit. */
  lemma {:induction false} SelfIncludeFails(files: map<string, Json>, absPath: string -> string, path: string, depth: nat, k: int)
    requires path in files && IncludesOf(files[path]).Ok? && 0 <= k < |IncludesOf(files[path]).value|
    requires absPath(PathJoin(DirName(path), IncludesOf(files[path]).value[k])) == path
    ensures ParseFile(files, absPath, path, depth).Err?
    decreases if depth < MaxDepth then MaxDepth - depth else 0
  {
    hide *;
    ParseFileStep(files, absPath, path, depth);
    if depth < MaxDepth {
      var dir := DirName(path);
      var includes := IncludesOf(files[path]).value;
      SelfIncludeFails(files, absPath, path, depth + 1, k);
      IncludeFails(files, absPath, dir, includes, depth, k);
      var own := ParseRecords(files[path], Some(dir));
      if own.Ok? {
        FinishErr(own.value, ParseIncludes(files, absPath, dir, includes, depth));
      }
    }
  }

  lemma FinishErr(own: Manifest, included: Result<Manifest, Error>)
    requires included.Err?
    ensures Finish(own, included) == included
  {
  }

  /** The parsed dependencies are the file's own and those of its includes, each once. */
  lemma DependenciesCollected(files: map<string, Json>, absPath: string -> string, path: string, depth: nat)
    requires ParseFile(files, absPath, path, depth).Ok?
    ensures path in files && depth < MaxDepth
    ensures var root := files[path];
      var own := ParseRecords(root, Some(DirName(path)));
      var included := ParseIncludes(files, absPath, DirName(path), IncludesOf(root).value, depth);
      own.Ok? && included.Ok?
      && Elems(ParseFile(files, absPath, path, depth).value.dependencies)
        == Elems(own.value.dependencies) + Elems(included.value.dependencies)
  {
    hide ParseIncludes, ParseRecords;
    var root := files[path];
    var own := ParseRecords(root, Some(DirName(path)));
    var included := ParseIncludes(files, absPath, DirName(path), IncludesOf(root).value, depth);
    var all := Merge(own.value, included.value);
    assert forall y :: y in all.dependencies <==> y in own.value.dependencies || y in included.value.dependencies;
  }

  /** `DependenciesJson.parse` with its loop over includes. */
  method ReadManifest(files: map<string, Json>, absPath: string -> string, path: string, depth: nat) returns (r: Result<Manifest, Error>)
    ensures r == ParseFile(files, absPath, path, depth)
    decreases if depth < MaxDepth then MaxDepth - depth else 0
  {
    hide ParseRecords, ParseIncludes, ParseFile, IncludesOf, Normalized, Merge, DirName, PathJoin;
    ParseFileStep(files, absPath, path, depth);
    if path !in files {
      return Err(FileNotFound(path));
    }
    if depth >= MaxDepth {
      return Err(TooManyIncludeLevels);
    }
    var root := files[path];
    var dir := DirName(path);
    var own := ParseRecords(root, Some(dir));
    if own.Err? {
      return Err(own.error);
    }
    var includes := IncludesOf(root);
    if includes.Err? {
      return Err(includes.error);
    }
    var acc := own.value;
    var i := 0;
    assert includes.value[0..] == includes.value;
    while i < |includes.value|
      invariant 0 <= i <= |includes.value|
      invariant ParseFile(files, absPath, path, depth) == Finish(acc, ParseIncludes(files, absPath, dir, includes.value[i..], depth))
    {
      var inc := includes.value[i];
      ParseIncludesStep(files, absPath, dir, includes.value[i..], depth);
      assert includes.value[i..][1..] == includes.value[i + 1..];
      if IsAbs(inc) {
        return Err(AbsoluteInclude(inc));
      }
      var sub := ReadManifest(files, absPath, absPath(PathJoin(dir, inc)), depth + 1);
      if sub.Err? {
        return Err(sub.error);
      }
      FinishMerge(acc, sub.value, ParseIncludes(files, absPath, dir, includes.value[i + 1..], depth));
      acc := Merge(acc, sub.value);
      i := i + 1;
    }
    ParseIncludesStep(files, absPath, dir, includes.value[i..], depth);
    FinishEmpty(acc);
    r := Ok(Normalized(acc));
  }

  lemma ParseFileStep(files: map<string, Json>, absPath: string -> string, path: string, depth: nat)
    ensures ParseFile(files, absPath, path, depth) ==
      if path !in files then Err(FileNotFound(path))
      else if depth >= MaxDepth then Err(TooManyIncludeLevels)
      else
        var own := ParseRecords(files[path], Some(DirName(path)));
        var includes := IncludesOf(files[path]);
        if own.Err? then Err(own.error)
        else if includes.Err? then Err(includes.error)
        else Finish(own.value, ParseIncludes(files, absPath, DirName(path), includes.value, depth))
  {
    hide ParseRecords, ParseIncludes, Finish;
  }

  lemma ParseIncludesStep(files: map<string, Json>, absPath: string -> string, dir: string, includes: seq<string>, depth: nat)
    requires depth < MaxDepth
    ensures |includes| == 0 ==> ParseIncludes(files, absPath, dir, includes, depth) == Ok(NoRecords)
    ensures |includes| > 0 ==> (ParseIncludes(files, absPath, dir, includes, depth)
      == if IsAbs(includes[0]) then Err(AbsoluteInclude(includes[0]))
         else
           var sub := ParseFile(files, absPath, absPath(PathJoin(dir, includes[0])), depth + 1);
           var rest := ParseIncludes(files, absPath, dir, includes[1..], depth);
           if sub.Err? then Err(sub.error) else if rest.Err? then Err(rest.error) else Ok(Merge(sub.value, rest.value)))
  {
    hide ParseFile, Merge;
  }

  lemma FinishMerge(acc: Manifest, sub: Manifest, rest: Result<Manifest, Error>)
    ensures Finish(acc, if rest.Err? then Err(rest.error) else Ok(Merge(sub, rest.value))) == Finish(Merge(acc, sub), rest)
  {
    if rest.Ok? {
      MergeAssoc(acc, sub, rest.value);
    }
  }

  lemma FinishEmpty(acc: Manifest)
    ensures Finish(acc, Ok(NoRecords)) == Ok(Normalized(acc))
  {
    assert Merge(acc, NoRecords) == acc;
  }

  // ---------------------------------------------------------------------------
  // Downloadable and buildable package names

  /** `pkg.split(":")[0]` for each package of a list. */
  function NamesOf(packages: seq<string>): (r: set<string>)
    ensures forall name :: name in r <==> exists k :: 0 <= k < |packages| && NamePart(packages[k]) == name
  {
    set k | 0 <= k < |packages| :: NamePart(packages[k])
  }

  lemma NamesOfSnoc(packages: seq<string>, k: nat)
    requires k < |packages|
    ensures NamesOf(packages[..k + 1]) == NamesOf(packages[..k]) + {NamePart(packages[k])}
  {
    hide Split;
    assert packages[..k + 1][k] == packages[k];
    forall k' | 0 <= k' < k ensures packages[..k + 1][k'] == packages[..k][k'] {}
  }

  lemma NamesOfAll(packages: seq<string>)
    ensures NamesOf(packages[..|packages|]) == NamesOf(packages) && NamesOf(packages[..0]) == {}
  {
    assert packages[..|packages|] == packages;
  }

  /** The names listed by the caches for a platform. */
  function CachedNames(caches: seq<PackageCache>, platform: string): set<string>
  {
    if |caches| == 0 then {}
    else (if CacheMatches(caches[0], platform) then NamesOf(caches[0].packages) else {}) + CachedNames(caches[1..], platform)
  }

  lemma CachedNamesStep(caches: seq<PackageCache>, platform: string, i: nat)
    requires i <= |caches|
    ensures CachedNames(caches[i..], platform) == if i == |caches| then {} else
      (if CacheMatches(caches[i], platform) then NamesOf(caches[i].packages) else {}) + CachedNames(caches[i + 1..], platform)
  {
    if i < |caches| {
      assert caches[i..][1..] == caches[i + 1..];
    }
  }

  /** A name is downloadable exactly when a cache for the platform lists it. */
  lemma {:induction false} CachedNamesIff(caches: seq<PackageCache>, platform: string, name: string)
    ensures name in CachedNames(caches, platform) <==>
      exists i, k :: 0 <= i < |caches| && CacheMatches(caches[i], platform)
        && 0 <= k < |caches[i].packages| && NamePart(caches[i].packages[k]) == name
  {
    if |caches| > 0 {
      CachedNamesIff(caches[1..], platform, name);
      if name in CachedNames(caches[1..], platform) {
        var i, k :| 0 <= i < |caches[1..]| && CacheMatches(caches[1..][i], platform)
          && 0 <= k < |caches[1..][i].packages| && NamePart(caches[1..][i].packages[k]) == name;
        assert caches[i + 1] == caches[1..][i];
      }
      if exists i, k :: (0 <= i < |caches| && CacheMatches(caches[i], platform)
        && 0 <= k < |caches[i].packages| && NamePart(caches[i].packages[k]) == name)
      {
        var i, k :| 0 <= i < |caches| && CacheMatches(caches[i], platform)
          && 0 <= k < |caches[i].packages| && NamePart(caches[i].packages[k]) == name;
        if i > 0 {
          assert caches[1..][i - 1] == caches[i];
        }
      }
    }
  }

  /** `get_cached_package_names` */
  method GetCachedPackageNames(deps: Manifest, platform: string) returns (names: set<string>)
    ensures names == CachedNames(deps.caches, platform)
  {
    hide *;
    names := {};
    var i := 0;
    assert deps.caches[0..] == deps.caches;
    while i < |deps.caches|
      invariant 0 <= i <= |deps.caches|
      invariant CachedNames(deps.caches, platform) == names + CachedNames(deps.caches[i..], platform)
    {
      var cache := deps.caches[i];
      CachedNamesStep(deps.caches, platform, i);
      if CacheMatches(cache, platform) {
        var k := 0;
        var before := names;
        NamesOfAll(cache.packages);
        while k < |cache.packages|
          invariant 0 <= k <= |cache.packages|
          invariant names == before + NamesOf(cache.packages[..k])
        {
          NamesOfSnoc(cache.packages, k);
          names := names + {NamePart(cache.packages[k])};
          k := k + 1;
        }
      }
      i := i + 1;
    }
    CachedNamesStep(deps.caches, platform, i);
  }

  /** The names a platform can build from Conan groups. */
  function ConanNames(groups: seq<ConanRecipes>, platform: string): set<string>
  {
    if |groups| == 0 then {}
    else (if ConanMatches(groups[0], platform) then NamesOf(groups[0].packages) else {}) + ConanNames(groups[1..], platform)
  }

  lemma ConanNamesStep(groups: seq<ConanRecipes>, platform: string, i: nat)
    requires i <= |groups|
    ensures ConanNames(groups[i..], platform) == if i == |groups| then {} else
      (if ConanMatches(groups[i], platform) then NamesOf(groups[i].packages) else {}) + ConanNames(groups[i + 1..], platform)
  {
    if i < |groups| {
      assert groups[i..][1..] == groups[i + 1..];
    }
  }

  lemma {:induction false} ConanNamesIff(groups: seq<ConanRecipes>, platform: string, name: string)
    ensures name in ConanNames(groups, platform) <==>
      exists i, k :: 0 <= i < |groups| && ConanMatches(groups[i], platform)
        && 0 <= k < |groups[i].packages| && NamePart(groups[i].packages[k]) == name
  {
    if |groups| > 0 {
      ConanNamesIff(groups[1..], platform, name);
      if name in ConanNames(groups[1..], platform) {
        var i, k :| 0 <= i < |groups[1..]| && ConanMatches(groups[1..][i], platform)
          && 0 <= k < |groups[1..][i].packages| && NamePart(groups[1..][i].packages[k]) == name;
        assert groups[i + 1] == groups[1..][i];
      }
      if exists i, k :: (0 <= i < |groups| && ConanMatches(groups[i], platform)
        && 0 <= k < |groups[i].packages| && NamePart(groups[i].packages[k]) == name)
      {
        var i, k :| 0 <= i < |groups| && ConanMatches(groups[i], platform)
          && 0 <= k < |groups[i].packages| && NamePart(groups[i].packages[k]) == name;
        if i > 0 {
          assert groups[1..][i - 1] == groups[i];
        }
      }
    }
  }

  /** The names of the CMake recipes that fit a platform. */
  function RecipeNames(recipes: seq<CMakeRecipe>, platform: string): (r: set<string>)
    ensures forall name :: name in r <==>
      exists i :: 0 <= i < |recipes| && RecipeMatches(recipes[i], platform) && recipes[i].name == name
  {
    set i | 0 <= i < |recipes| && RecipeMatches(recipes[i], platform) :: recipes[i].name
  }

  function BuildableNames(deps: Manifest, platform: string): set<string>
  {
    ConanNames(deps.conan, platform) + RecipeNames(deps.cmake, platform)
  }

  lemma RecipeNamesSnoc(recipes: seq<CMakeRecipe>, platform: string, j: nat)
    requires j <= |recipes|
    ensures j < |recipes| ==> (RecipeNames(recipes[..j + 1], platform) ==
      RecipeNames(recipes[..j], platform) + (if RecipeMatches(recipes[j], platform) then {recipes[j].name} else {}))
    ensures RecipeNames(recipes[..0], platform) == {}
    ensures j == |recipes| ==> RecipeNames(recipes[..j], platform) == RecipeNames(recipes, platform)
  {
    hide RecipeMatches;
    if j < |recipes| {
      assert recipes[..j + 1][j] == recipes[j];
      forall j' | 0 <= j' < j ensures recipes[..j + 1][j'] == recipes[..j][j'] {}
    }
    assert recipes[..|recipes|] == recipes;
  }

  /** `get_buildable_package_names` */
  method GetBuildablePackageNames(deps: Manifest, platform: string) returns (names: set<string>)
    ensures names == BuildableNames(deps, platform)
  {
    hide *;
    names := {};
    var i := 0;
    assert deps.conan[0..] == deps.conan;
    while i < |deps.conan|
      invariant 0 <= i <= |deps.conan|
      invariant ConanNames(deps.conan, platform) == names + ConanNames(deps.conan[i..], platform)
    {
      var group := deps.conan[i];
      ConanNamesStep(deps.conan, platform, i);
      if ConanMatches(group, platform) {
        var k := 0;
        var before := names;
        NamesOfAll(group.packages);
        while k < |group.packages|
          invariant 0 <= k <= |group.packages|
          invariant names == before + NamesOf(group.packages[..k])
        {
          NamesOfSnoc(group.packages, k);
          names := names + {NamePart(group.packages[k])};
          k := k + 1;
        }
      }
      i := i + 1;
    }
    ConanNamesStep(deps.conan, platform, i);
    var conanNames := names;
    var j := 0;
    RecipeNamesSnoc(deps.cmake, platform, 0);
    while j < |deps.cmake|
      invariant 0 <= j <= |deps.cmake|
      invariant names == conanNames + RecipeNames(deps.cmake[..j], platform)
    {
      RecipeNamesSnoc(deps.cmake, platform, j);
      var fits := MatchesPlatform(deps.cmake[j], platform);
      if fits {
        names := names + {deps.cmake[j].name};
      }
      j := j + 1;
    }
    RecipeNamesSnoc(deps.cmake, platform, j);
    BuildableNamesIs(deps, platform);
  }

  lemma BuildableNamesIs(deps: Manifest, platform: string)
    ensures BuildableNames(deps, platform) == ConanNames(deps.conan, platform) + RecipeNames(deps.cmake, platform)
  {
  }

  // ---------------------------------------------------------------------------
  // Lookups

  /** The index of the first package named `name` (`pkg.split(":")[0] == name`). */
  function FirstNamed(packages: seq<string>, name: string): (r: Option<nat>)
    ensures r.None? <==> forall k :: 0 <= k < |packages| ==> NamePart(packages[k]) != name
    ensures r.Some? ==> (r.value < |packages| && NamePart(packages[r.value]) == name
      && forall k :: 0 <= k < r.value ==> NamePart(packages[k]) != name)
  {
    if |packages| == 0 then None
    else if NamePart(packages[0]) == name then Some(0)
    else
      var r := FirstNamed(packages[1..], name);
      assert forall k :: 0 < k < |packages| ==> packages[k] == packages[1..][k - 1];
      if r.Some? then Some(r.value + 1) else None
  }

  /** The inner loop of the lookups: the first package whose name part is `name`. */
  method FindNamed(packages: seq<string>, name: string) returns (r: Option<nat>)
    ensures r == FirstNamed(packages, name)
  {
    var k := 0;
    while k < |packages|
      invariant 0 <= k <= |packages|
      invariant forall m :: 0 <= m < k ==> NamePart(packages[m]) != name
    {
      if NamePart(packages[k]) == name {
        return Some(k);
      }
      k := k + 1;
    }
    return None;
  }

  /** A Conan package to fetch: name, version and the query of its group. */
  datatype ConanQuery = ConanQuery(name: string, version: string, query: string)

  /**
   * The inner loop of `find_conan_recipe` over one group: nothing when the
   * group does not fit the platform or lists no such package, otherwise its
   * first `name:version:query` entry with the query looked up (the `assert
   * query is not None` failure is UnknownQuery).
   */
  function ConanHit(g: ConanRecipes, name: string, platform: string): (r: Result<Option<ConanQuery>, Error>)
    requires ValidConan(g)
    ensures r == Ok(None) <==> !ConanMatches(g, platform) || name !in NamesOf(g.packages)
    ensures r.Ok? && r.value.Some? ==> r.value.value.name == name
  {
    var hit := if ConanMatches(g, platform) then FirstNamed(g.packages, name) else None;
    if hit.None? then Ok(None)
    else
      assert Matches(PackageNameVersionQueryP, g.packages[hit.value]);
      var parts := Split(g.packages[hit.value], ':');
      match Get(g.queries, parts[2])
      case None => Err(UnknownQuery(parts[2]))
      case Some(q) => Ok(Some(ConanQuery(name, parts[1], q)))
  }

  /** `find_conan_recipe`: the first group that fits the platform and lists the package decides. */
  function ConanLookup(groups: seq<ConanRecipes>, name: string, platform: string): (r: Result<Option<ConanQuery>, Error>)
    requires forall i :: 0 <= i < |groups| ==> ValidConan(groups[i])
    ensures r == Ok(None) <==> name !in ConanNames(groups, platform)
    ensures r.Ok? && r.value.Some? ==> r.value.value.name == name
  {
    if |groups| == 0 then Ok(None)
    else
      var h := ConanHit(groups[0], name, platform);
      if h.Ok? && h.value.None? then ConanLookup(groups[1..], name, platform) else h
  }

  /** One group of the Conan lookup. */
  lemma ConanLookupAt(groups: seq<ConanRecipes>, name: string, platform: string, i: nat)
    requires forall j :: 0 <= j < |groups| ==> ValidConan(groups[j])
    requires i <= |groups|
    ensures i == 0 ==> ConanLookup(groups[i..], name, platform) == ConanLookup(groups, name, platform)
    ensures i == |groups| ==> ConanLookup(groups[i..], name, platform) == Ok(None)
    ensures i < |groups| ==> (ConanLookup(groups[i..], name, platform) ==
      var h := ConanHit(groups[i], name, platform);
      if h.Ok? && h.value.None? then ConanLookup(groups[i + 1..], name, platform) else h)
  {
    hide ConanHit;
    assert groups[0..] == groups;
    if i < |groups| {
      assert groups[i..][0] == groups[i] && groups[i..][1..] == groups[i + 1..];
    }
  }

  /** The inner loop of `find_conan_recipe`. */
  method FindInConanGroup(g: ConanRecipes, name: string, platform: string) returns (r: Result<Option<ConanQuery>, Error>)
    requires ValidConan(g)
    ensures r == ConanHit(g, name, platform)
  {
    if !ConanMatches(g, platform) {
      return Ok(None);
    }
    var hit := FindNamed(g.packages, name);
    if hit.None? {
      return Ok(None);
    }
    assert Matches(PackageNameVersionQueryP, g.packages[hit.value]);
    var parts := Split(g.packages[hit.value], ':');
    var query := Get(g.queries, parts[2]);
    if query.None? {
      return Err(UnknownQuery(parts[2]));
    }
    return Ok(Some(ConanQuery(name, parts[1], query.value)));
  }

  /** `find_conan_recipe` with its loops. */
  method FindConanRecipe(deps: Manifest, name: string, platform: string) returns (r: Result<Option<ConanQuery>, Error>)
    requires ValidManifest(deps)
    ensures r == ConanLookup(deps.conan, name, platform)
  {
    var groups := deps.conan;
    assert forall j :: 0 <= j < |groups| ==> ValidConan(groups[j]);
    hide *;
    var i := 0;
    ConanLookupAt(groups, name, platform, 0);
    while i < |groups|
      invariant 0 <= i <= |groups|
      invariant ConanLookup(groups, name, platform) == ConanLookup(groups[i..], name, platform)
    {
      ConanLookupAt(groups, name, platform, i);
      var h := FindInConanGroup(groups[i], name, platform);
      if h.Err? || h.value.Some? {
        return h;
      }
      i := i + 1;
    }
    ConanLookupAt(groups, name, platform, i);
    return Ok(None);
  }

  /** `find_cmake_recipe` */
  method FindCMakeRecipe(deps: Manifest, name: string, platform: string) returns (r: Option<CMakeRecipe>)
    ensures r.None? <==> forall i :: 0 <= i < |deps.cmake| ==> !(deps.cmake[i].name == name && RecipeMatches(deps.cmake[i], platform))
    ensures r.Some? ==> exists i :: (0 <= i < |deps.cmake| && r.value == deps.cmake[i]
      && deps.cmake[i].name == name && RecipeMatches(deps.cmake[i], platform)
      && forall k :: 0 <= k < i ==> !(deps.cmake[k].name == name && RecipeMatches(deps.cmake[k], platform)))
  {
    var i := 0;
    while i < |deps.cmake|
      invariant 0 <= i <= |deps.cmake|
      invariant forall k :: 0 <= k < i ==> !(deps.cmake[k].name == name && RecipeMatches(deps.cmake[k], platform))
    {
      if deps.cmake[i].name == name {
        var fits := MatchesPlatform(deps.cmake[i], platform);
        if fits {
          return Some(deps.cmake[i]);
        }
      }
      i := i + 1;
    }
    return None;
  }

  /** What `find_package_in_caches` returns: version, archive URL and pinned hash. */
  datatype CachedPackage = CachedPackage(version: string, url: string, hash: string)

  /** The archive URL of a package in a cache: one '/' between the cache URL and `name_version.zip`. */
  function ArchiveUrl(cacheUrl: string, name: string, version: string): string
  {
    cacheUrl + (if EndsWithSlash(cacheUrl) then "" else "/") + name + "_" + version + ".zip"
  }

  /** A cache the lookup may use: all of them, or those of the given platform. */
  predicate CacheAllowed(c: PackageCache, platform: Option<string>)
  {
    platform.None? || c.platform == platform.value
  }

  /**
   * The inner loop of `find_package_in_caches` over one cache: its first pin
   * of the package, as version, archive URL and hash.
   */
  function CacheHit(c: PackageCache, name: string, platform: Option<string>): (r: Option<CachedPackage>)
    requires ValidCache(c)
    ensures r.None? <==> !CacheAllowed(c, platform) || name !in NamesOf(c.packages)
  {
    var hit := if CacheAllowed(c, platform) then FirstNamed(c.packages, name) else None;
    if hit.None? then None
    else
      assert Matches(PackageNameVersionHashP, c.packages[hit.value]);
      var parts := Split(c.packages[hit.value], ':');
      Some(CachedPackage(parts[1], ArchiveUrl(c.url, name, parts[1]), parts[2]))
  }

  /** A hit is a pin `name:version:hash` of the cache, with the cache's URL. */
  lemma CacheHitPin(c: PackageCache, name: string, platform: Option<string>)
    requires ValidCache(c) && CacheHit(c, name, platform).Some?
    ensures var p := CacheHit(c, name, platform).value;
      exists k :: 0 <= k < |c.packages| && c.packages[k] == Glue(Glue(name, ':', p.version), ':', p.hash)
        && p.url == ArchiveUrl(c.url, name, p.version) && HexDigits(p.hash, 16)
  {
    var k := FirstNamed(c.packages, name).value;
    assert Matches(PackageNameVersionHashP, c.packages[k]);
    PinPieces(c.packages[k]);
  }

  /**
   * `find_package_in_caches`: the first cache (on the platform, when one is
   * given) whose pins name the package, and its first such pin.
   */
  function CacheLookup(caches: seq<PackageCache>, name: string, platform: Option<string>): (r: Option<CachedPackage>)
    requires forall i :: 0 <= i < |caches| ==> ValidCache(caches[i])
  {
    if |caches| == 0 then None
    else
      var h := CacheHit(caches[0], name, platform);
      if h.Some? then h else CacheLookup(caches[1..], name, platform)
  }

  /** The lookup fails exactly when no allowed cache lists the name. */
  lemma {:induction false} CacheLookupNone(caches: seq<PackageCache>, name: string, platform: Option<string>)
    requires forall i :: 0 <= i < |caches| ==> ValidCache(caches[i])
    ensures CacheLookup(caches, name, platform).None? <==>
      forall i :: 0 <= i < |caches| && CacheAllowed(caches[i], platform) ==> name !in NamesOf(caches[i].packages)
  {
    if |caches| > 0 {
      CacheLookupNone(caches[1..], name, platform);
      CacheLookupAt(caches, name, platform, 0);
      hide *;
      assert forall i :: 0 < i < |caches| ==> caches[i] == caches[1..][i - 1];
    }
  }

  /** A found package comes from a pin `name:version:hash` of an allowed cache, with that cache's URL. */
  lemma {:induction false} CacheLookupSome(caches: seq<PackageCache>, name: string, platform: Option<string>)
    requires forall i :: 0 <= i < |caches| ==> ValidCache(caches[i])
    requires CacheLookup(caches, name, platform).Some?
    ensures var p := CacheLookup(caches, name, platform).value;
      exists i, k :: 0 <= i < |caches| && CacheAllowed(caches[i], platform) && 0 <= k < |caches[i].packages|
        && caches[i].packages[k] == Glue(Glue(name, ':', p.version), ':', p.hash)
        && p.url == ArchiveUrl(caches[i].url, name, p.version) && HexDigits(p.hash, 16)
  {
    var p := CacheLookup(caches, name, platform).value;
    if CacheHit(caches[0], name, platform).None? {
      CacheLookupSome(caches[1..], name, platform);
      var i, k :| 0 <= i < |caches[1..]| && CacheAllowed(caches[1..][i], platform) && 0 <= k < |caches[1..][i].packages|
        && caches[1..][i].packages[k] == Glue(Glue(name, ':', p.version), ':', p.hash)
        && p.url == ArchiveUrl(caches[1..][i].url, name, p.version) && HexDigits(p.hash, 16);
      assert caches[i + 1] == caches[1..][i];
    } else {
      CacheHitPin(caches[0], name, platform);
    }
  }

  /** One cache of the cache lookup. */
  lemma CacheLookupAt(caches: seq<PackageCache>, name: string, platform: Option<string>, i: nat)
    requires forall j :: 0 <= j < |caches| ==> ValidCache(caches[j])
    requires i <= |caches|
    ensures i == 0 ==> CacheLookup(caches[i..], name, platform) == CacheLookup(caches, name, platform)
    ensures i == |caches| ==> CacheLookup(caches[i..], name, platform) == None
    ensures i < |caches| ==> (CacheLookup(caches[i..], name, platform) ==
      var h := CacheHit(caches[i], name, platform);
      if h.Some? then h else CacheLookup(caches[i + 1..], name, platform))
  {
    hide CacheHit;
    assert caches[0..] == caches;
    if i < |caches| {
      assert caches[i..][0] == caches[i] && caches[i..][1..] == caches[i + 1..];
    }
  }

  /** The inner loop of `find_package_in_caches`. */
  method FindInCache(cache: PackageCache, name: string, platform: Option<string>) returns (r: Option<CachedPackage>)
    requires ValidCache(cache)
    ensures r == CacheHit(cache, name, platform)
  {
    if !CacheAllowed(cache, platform) {
      return None;
    }
    var hit := FindNamed(cache.packages, name);
    if hit.None? {
      return None;
    }
    assert Matches(PackageNameVersionHashP, cache.packages[hit.value]);
    var parts := Split(cache.packages[hit.value], ':');
    return Some(CachedPackage(parts[1], ArchiveUrl(cache.url, name, parts[1]), parts[2]));
  }

  /** `find_package_in_caches` with its loops; configure.py passes the current platform. */
  method FindPackageInCaches(deps: Manifest, name: string, platform: Option<string>) returns (r: Option<CachedPackage>)
    requires ValidManifest(deps)
    ensures r == CacheLookup(deps.caches, name, platform)
  {
    var caches := deps.caches;
    assert forall j :: 0 <= j < |caches| ==> ValidCache(caches[j]);
    hide *;
    var i := 0;
    CacheLookupAt(caches, name, platform, 0);
    while i < |caches|
      invariant 0 <= i <= |caches|
      invariant CacheLookup(caches, name, platform) == CacheLookup(caches[i..], name, platform)
    {
      CacheLookupAt(caches, name, platform, i);
      var h := FindInCache(caches[i], name, platform);
      if h.Some? {
        return h;
      }
      i := i + 1;
    }
    CacheLookupAt(caches, name, platform, i);
    return None;
  }

  /** With the platform filter, a package is found exactly when it is downloadable. */
  lemma FoundIffCached(deps: Manifest, name: string, platform: string)
    requires ValidManifest(deps)
    ensures CacheLookup(deps.caches, name, Some(platform)).Some? <==> name in CachedNames(deps.caches, platform)
  {
    CacheLookupNone(deps.caches, name, Some(platform));
    CachedNamesIff(deps.caches, platform, name);
  }

  // ---------------------------------------------------------------------------
  // The preferred Conan package

  /** What conan_get_best_package looks at in a listed Conan package. */
  datatype ConanPackage = ConanPackage(name: string, version: string, packageId: string, compilerVersion: string)

  /**
   * Package `b` is the one the scan keeps among the first `n`: no package has
   * a greater compiler version (compared as Python strings) and every earlier
   * one a smaller.
   */
  predicate BestAmong(packages: seq<ConanPackage>, n: nat, b: nat)
    requires n <= |packages|
  {
    b < n
    && (forall i :: 0 <= i < n ==> !StrLess(packages[b].compilerVersion, packages[i].compilerVersion))
    && (forall i :: 0 <= i < b ==> StrLess(packages[i].compilerVersion, packages[b].compilerVersion))
  }

  predicate IsBest(packages: seq<ConanPackage>, b: nat)
  {
    BestAmong(packages, |packages|, b)
  }

  /** `conan_get_best_package`: keeps the first package of the greatest compiler version. */
  method ConanGetBestPackage(packages: seq<ConanPackage>) returns (best: ConanPackage)
    requires |packages| > 0
    ensures exists b: nat :: IsBest(packages, b) && best == packages[b]
  {
    var b := 0;
    StrLessIrreflexive(packages[0].compilerVersion);
    for i := 1 to |packages|
      invariant BestAmong(packages, i, b)
    {
      var cur := packages[i];
      if StrLess(packages[b].compilerVersion, cur.compilerVersion) {
        forall j | 0 <= j < i ensures StrLess(packages[j].compilerVersion, cur.compilerVersion) {
          if packages[j].compilerVersion != packages[b].compilerVersion {
            StrLessTotal(packages[j].compilerVersion, packages[b].compilerVersion);
            StrLessTransitive(packages[j].compilerVersion, packages[b].compilerVersion, cur.compilerVersion);
          }
        }
        forall j | 0 <= j <= i ensures !StrLess(cur.compilerVersion, packages[j].compilerVersion) {
          if j < i {
            StrLessAsymmetric(packages[j].compilerVersion, cur.compilerVersion);
          } else {
            StrLessIrreflexive(cur.compilerVersion);
          }
        }
        b := i;
      }
    }
    best := packages[b];
  }

  /** Only one package satisfies the choice. */
  lemma BestUnique(packages: seq<ConanPackage>, b1: nat, b2: nat)
    requires IsBest(packages, b1) && IsBest(packages, b2)
    ensures b1 == b2
  {
    assert !StrLess(packages[b1].compilerVersion, packages[b2].compilerVersion);
    assert !StrLess(packages[b2].compilerVersion, packages[b1].compilerVersion);
  }

  /** Compiler version "9" is preferred over "10": the comparison is on strings, not numbers. */
  lemma NinePreferred(older: ConanPackage, newer: ConanPackage)
    requires older.compilerVersion == "9" && newer.compilerVersion == "10"
    ensures IsBest([newer, older], 1)
  {
    NineAfterTen();
    StrLessIrreflexive("9");
    StrLessAsymmetric("10", "9");
  }

  // ---------------------------------------------------------------------------
  // Downloading a package

  /** The side effects of download_package, in order. */
  datatype FileStep =
    | Download(url: string, path: string)
    | Unpack(archive: string, dir: string)

  /** What download_package does, and the error it stops with, if any. */
  datatype Download = Fetched(steps: seq<FileStep>, error: Option<Error>)

  /** The archive file of a package version: `name_version.zip`. */
  function ArchiveName(name: string, version: string): string
  {
    name + "_" + version + ".zip"
  }

  /**
   * `download_package`.  `found` is the cache lookup's answer, `localHash`
   * the hash of the archive already on disk (None when there is no such
   * file), `fetchedHash` the hash of the archive the download produces: the
   * file system and network stand behind these parameters.
   */
  function DownloadPackage(found: Option<CachedPackage>, name: string, depsDir: string,
                           localHash: Option<string>, fetchedHash: string): (r: Download)
    ensures found.None? ==> r == Fetched([], Some(UnknownPackage(name)))
  {
    match found
    case None => Fetched([], Some(UnknownPackage(name)))
    case Some(p) =>
      var path := PathJoin(depsDir, ArchiveName(name, p.version));
      if localHash == Some(p.hash) then Fetched([Unpack(path, depsDir)], None)
      else if fetchedHash != p.hash then Fetched([Download(p.url, path)], Some(HashMismatch(path)))
      else Fetched([Download(p.url, path), Unpack(path, depsDir)], None)
  }

  /**
   * The download is skipped exactly when the archive on disk has the pinned
   * hash; an archive is unpacked exactly when no error occurred, and only
   * when the file unpacked has the pinned hash.
   */
  lemma {:induction false} DownloadDecision(found: Option<CachedPackage>, name: string, depsDir: string,
                                            localHash: Option<string>, fetchedHash: string)
    requires found.Some?
    ensures var r := DownloadPackage(found, name, depsDir, localHash, fetchedHash);
      var path := PathJoin(depsDir, ArchiveName(name, found.value.version));
      (Download(found.value.url, path) in r.steps <==> localHash != Some(found.value.hash))
      && (r.error == None <==> Unpack(path, depsDir) in r.steps)
      && (Unpack(path, depsDir) in r.steps ==> localHash == Some(found.value.hash) || fetchedHash == found.value.hash)
      && (r.error.Some? ==> r.error == Some(HashMismatch(path)))
  {
    var r := DownloadPackage(found, name, depsDir, localHash, fetchedHash);
    var path := PathJoin(depsDir, ArchiveName(name, found.value.version));
    assert Download(found.value.url, path) != Unpack(path, depsDir);
  }

  // ---------------------------------------------------------------------------
  // Installing the files of a build

  /** One copy from the build's install tree, as paths relative to the source and destination directories. */
  datatype FileCopy = FileCopy(src: string, dst: string)

  /** The copies install_files makes, in order, and the error it stops with, if any. */
  datatype Installed = Installed(copies: seq<FileCopy>, error: Option<Error>)

  /** A selector with a colon renames one file (`old:new`); one without is a regular expression. */
  predicate IsRename(selector: string)
  {
    ':' in selector
  }

  /**
   * `any(rgx.fullmatch(rel_path) for rgx in compiled_patterns)`, with the
   * regular-expression engine standing behind `fullmatch(pattern, path)`.
   */
  predicate AnyPatternMatches(selectors: seq<string>, rel: string, fullmatch: (string, string) -> bool)
  {
    exists i :: 0 <= i < |selectors| && !IsRename(selectors[i]) && fullmatch(selectors[i], rel)
  }

  /** A rename selector that does not split into exactly `old` and `new`. */
  predicate HasBadRename(selectors: seq<string>)
  {
    exists i :: 0 <= i < |selectors| && IsRename(selectors[i]) && |Split(selectors[i], ':')| != 2
  }

  /** The rename loop for one file: `for old_name, new_name in file_renames`. */
  function RenameCopies(rel: string, selectors: seq<string>): (r: Installed)
  {
    if |selectors| == 0 then Installed([], None)
    else if !IsRename(selectors[0]) then RenameCopies(rel, selectors[1..])
    else
      var parts := Split(selectors[0], ':');
      if |parts| != 2 then Installed([], Some(BadRename(selectors[0])))
      else
        var rest := RenameCopies(rel, selectors[1..]);
        Installed((if rel == parts[0] then [FileCopy(rel, parts[1])] else []) + rest.copies, rest.error)
  }

  /** What install_files does with one file: a copy under its own name when a pattern matches, then its renames. */
  function FileCopies(rel: string, selectors: seq<string>, fullmatch: (string, string) -> bool): Installed
  {
    var own := if AnyPatternMatches(selectors, rel, fullmatch) then [FileCopy(rel, rel)] else [];
    var renamed := RenameCopies(rel, selectors);
    Installed(own + renamed.copies, renamed.error)
  }

  /** `install_files` over the files of the source tree, in walk order (`relPaths`). */
  function InstallPlan(relPaths: seq<string>, selectors: seq<string>, fullmatch: (string, string) -> bool): Installed
  {
    if |relPaths| == 0 then Installed([], None)
    else
      var first := FileCopies(relPaths[0], selectors, fullmatch);
      if first.error.Some? then first
      else
        var rest := InstallPlan(relPaths[1..], selectors, fullmatch);
        Installed(first.copies + rest.copies, rest.error)
  }

  /** A string that splits at ':' into two pieces contains a ':'. */
  lemma TwoPiecesHaveColon(s: string)
    requires |Split(s, ':')| == 2
    ensures IsRename(s)
  {
    if ':' !in s {
      SplitNoSep(s, ':');
    }
  }

  /** The rename loop fails exactly when a rename selector is malformed, whatever the file. */
  lemma {:induction false} RenameError(rel: string, selectors: seq<string>)
    ensures RenameCopies(rel, selectors).error.Some? <==> HasBadRename(selectors)
    ensures RenameCopies(rel, selectors).error.Some? ==> exists i :: (0 <= i < |selectors| && IsRename(selectors[i])
      && RenameCopies(rel, selectors).error == Some(BadRename(selectors[i])))
  {
    if |selectors| > 0 {
      RenameError(rel, selectors[1..]);
      assert forall i :: 0 < i < |selectors| ==> selectors[i] == selectors[1..][i - 1];
      if HasBadRename(selectors[1..]) {
        var i :| 0 <= i < |selectors[1..]| && IsRename(selectors[1..][i]) && |Split(selectors[1..][i], ':')| != 2;
        assert selectors[i + 1] == selectors[1..][i];
      }
    }
  }

  /** With well-formed renames, a file is renamed to `new` exactly when a selector `old:new` names it. */
  lemma {:induction false} RenameMembers(rel: string, selectors: seq<string>, c: FileCopy)
    requires !HasBadRename(selectors)
    ensures c in RenameCopies(rel, selectors).copies <==>
      c.src == rel && exists i :: 0 <= i < |selectors| && Split(selectors[i], ':') == [c.src, c.dst]
  {
    if |selectors| > 0 {
      assert forall i :: 0 < i < |selectors| ==> selectors[i] == selectors[1..][i - 1];
      assert !HasBadRename(selectors[1..]);
      RenameMembers(rel, selectors[1..], c);
      if c.src == rel && exists i :: 0 <= i < |selectors| && Split(selectors[i], ':') == [c.src, c.dst] {
        var i :| 0 <= i < |selectors| && Split(selectors[i], ':') == [c.src, c.dst];
        if i == 0 {
          TwoPiecesHaveColon(selectors[0]);
        } else {
          assert Split(selectors[1..][i - 1], ':') == [c.src, c.dst];
        }
      }
      if !IsRename(selectors[0]) && Split(selectors[0], ':') == [c.src, c.dst] {
        TwoPiecesHaveColon(selectors[0]);
      }
    }
  }

  /** install_files fails exactly when there is a file and a malformed rename selector. */
  lemma {:induction false} InstallError(relPaths: seq<string>, selectors: seq<string>, fullmatch: (string, string) -> bool)
    ensures InstallPlan(relPaths, selectors, fullmatch).error.Some? <==> |relPaths| > 0 && HasBadRename(selectors)
  {
    if |relPaths| > 0 {
      RenameError(relPaths[0], selectors);
      if !HasBadRename(selectors) {
        InstallError(relPaths[1..], selectors, fullmatch);
      }
    }
  }

  /**
   * With well-formed renames, the copies are exactly: every file matched by a
   * pattern, under its own name, and every file a selector `old:new` names,
   * under the new name.
   */
  lemma {:induction false} InstallCopies(relPaths: seq<string>, selectors: seq<string>, fullmatch: (string, string) -> bool, c: FileCopy)
    requires !HasBadRename(selectors)
    ensures c in InstallPlan(relPaths, selectors, fullmatch).copies <==>
      c.src in relPaths && ((c.dst == c.src && AnyPatternMatches(selectors, c.src, fullmatch))
        || exists i :: 0 <= i < |selectors| && Split(selectors[i], ':') == [c.src, c.dst])
  {
    if |relPaths| > 0 {
      RenameError(relPaths[0], selectors);
      RenameMembers(relPaths[0], selectors, c);
      InstallCopies(relPaths[1..], selectors, fullmatch, c);
      assert relPaths == [relPaths[0]] + relPaths[1..];
    }
  }

  /** The work install_files does for one file: the pattern test, then the rename loop. */
  method CopyFile(rel: string, selectors: seq<string>, fullmatch: (string, string) -> bool) returns (r: Installed)
    ensures r == FileCopies(rel, selectors, fullmatch)
  {
    var matched := false;
    for i := 0 to |selectors|
      invariant matched <==> AnyPatternMatches(selectors[..i], rel, fullmatch)
    {
      assert forall j :: 0 <= j < i ==> selectors[..i + 1][j] == selectors[..i][j];
      if !IsRename(selectors[i]) && fullmatch(selectors[i], rel) {
        assert selectors[..i + 1][i] == selectors[i];
        matched := true;
      }
    }
    assert selectors[..|selectors|] == selectors;
    var copies := if matched then [FileCopy(rel, rel)] else [];
    var i := 0;
    while i < |selectors|
      invariant 0 <= i <= |selectors|
      invariant FileCopies(rel, selectors, fullmatch)
        == Installed(copies + RenameCopies(rel, selectors[i..]).copies, RenameCopies(rel, selectors[i..]).error)
    {
      assert selectors[i..][1..] == selectors[i + 1..];
      if IsRename(selectors[i]) {
        var parts := Split(selectors[i], ':');
        if |parts| != 2 {
          return Installed(copies, Some(BadRename(selectors[i])));
        }
        if rel == parts[0] {
          var rest := RenameCopies(rel, selectors[i + 1..]).copies;
          assert copies + ([FileCopy(rel, parts[1])] + rest) == (copies + [FileCopy(rel, parts[1])]) + rest;
          copies := copies + [FileCopy(rel, parts[1])];
        }
      }
      i := i + 1;
    }
    return Installed(copies, None);
  }

  /** install_files: the walk over the source tree, copying each file as its selectors say. */
  method InstallFiles(relPaths: seq<string>, selectors: seq<string>, fullmatch: (string, string) -> bool) returns (r: Installed)
    ensures r == InstallPlan(relPaths, selectors, fullmatch)
  {
    var copies := [];
    for f := 0 to |relPaths|
      invariant InstallPlan(relPaths, selectors, fullmatch)
        == Installed(copies + InstallPlan(relPaths[f..], selectors, fullmatch).copies,
                     InstallPlan(relPaths[f..], selectors, fullmatch).error)
    {
      assert relPaths[f..][1..] == relPaths[f + 1..];
      var one := CopyFile(relPaths[f], selectors, fullmatch);
      if one.error.Some? {
        return Installed(copies + one.copies, one.error);
      }
      var rest := InstallPlan(relPaths[f + 1..], selectors, fullmatch).copies;
      assert copies + (one.copies + rest) == (copies + one.copies) + rest;
      copies := copies + one.copies;
    }
    return Installed(copies, None);
  }

  // ---------------------------------------------------------------------------
  // Checking the requested dependencies

  const DownloadCommand := "download-deps"
  const BuildCommand := "build-deps"

  /** `args.dependencies or deps_json.dependencies`: the requested names, or the manifest's own list when none are. */
  function SelectedDeps(requested: seq<string>, m: Manifest): seq<string>
  {
    if |requested| > 0 then requested else m.dependencies
  }

  /** `[dep for dep in selected_deps if dep not in available_deps]` */
  function MissingDeps(selected: seq<string>, available: set<string>): (r: seq<string>)
    ensures forall d :: d in r <==> d in selected && d !in available
    ensures |r| <= |selected|
  {
    if |selected| == 0 then []
    else (if selected[0] in available then [] else [selected[0]]) + MissingDeps(selected[1..], available)
  }

  /** The names a dependency command may ask for: downloadable for the download command, buildable otherwise. */
  function AvailableDeps(m: Manifest, platform: string, command: string): set<string>
  {
    if command == DownloadCommand then CachedNames(m.caches, platform) else BuildableNames(m, platform)
  }

  /** The same choice as dependencies_main writes it: the test is against "download", a name no subcommand has. */
  function AvailableDepsAsWritten(m: Manifest, platform: string, command: string): set<string>
  {
    if command == "download" then CachedNames(m.caches, platform) else BuildableNames(m, platform)
  }

  /** The check dependencies_main makes before any work: the selected names, or the unavailable ones. */
  function CheckDeps(requested: seq<string>, m: Manifest, available: set<string>): (r: Result<seq<string>, Error>)
    ensures r.Ok? <==> forall i :: 0 <= i < |SelectedDeps(requested, m)| ==> SelectedDeps(requested, m)[i] in available
    ensures r.Ok? ==> r.value == SelectedDeps(requested, m)
    ensures r.Err? ==> (exists names :: (r.error == Unavailable(names) && |names| > 0
      && forall d :: d in names <==> d in SelectedDeps(requested, m) && d !in available))
  {
    var selected := SelectedDeps(requested, m);
    var missing := MissingDeps(selected, available);
    assert forall i :: 0 <= i < |selected| ==> selected[i] in selected;
    if |missing| > 0 then
      assert missing[0] in selected && missing[0] !in available;
      Err(Unavailable(missing))
    else Ok(selected)
  }

  /** dependencies_main's check, corrected to test the download command by its name. */
  function DependenciesCheck(requested: seq<string>, m: Manifest, platform: string, command: string): Result<seq<string>, Error>
  {
    CheckDeps(requested, m, AvailableDeps(m, platform, command))
  }

  /** dependencies_main's check as written. */
  function DependenciesCheckAsWritten(requested: seq<string>, m: Manifest, platform: string, command: string): Result<seq<string>, Error>
  {
    CheckDeps(requested, m, AvailableDepsAsWritten(m, platform, command))
  }

  /**
   * With the corrected check, every dependency the download command goes on
   * to fetch is found in a cache of the platform, so download_package never
   * stops on an unknown package.
   */
  lemma DownloadCheckSound(requested: seq<string>, m: Manifest, platform: string, depsDir: string,
                           localHash: Option<string>, fetchedHash: string)
    requires ValidManifest(m)
    requires DependenciesCheck(requested, m, platform, DownloadCommand).Ok?
    ensures var selected := DependenciesCheck(requested, m, platform, DownloadCommand).value;
      forall i :: 0 <= i < |selected| ==> (CacheLookup(m.caches, selected[i], Some(platform)).Some?
        && DownloadPackage(CacheLookup(m.caches, selected[i], Some(platform)), selected[i], depsDir, localHash, fetchedHash).error
          != Some(UnknownPackage(selected[i])))
  {
    var selected := DependenciesCheck(requested, m, platform, DownloadCommand).value;
    forall i | 0 <= i < |selected|
      ensures CacheLookup(m.caches, selected[i], Some(platform)).Some?
    {
      FoundIffCached(m, selected[i], platform);
    }
    forall i | 0 <= i < |selected|
      ensures DownloadPackage(CacheLookup(m.caches, selected[i], Some(platform)), selected[i], depsDir, localHash, fetchedHash).error
          != Some(UnknownPackage(selected[i]))
    {
      DownloadDecision(CacheLookup(m.caches, selected[i], Some(platform)), selected[i], depsDir, localHash, fetchedHash);
    }
  }

  /** A manifest whose one dependency can be built from a CMake recipe but is in no cache. */
  const BuildOnly: Manifest := Manifest(["zlib"], [], [],
    [CMakeRecipe("zlib", "1.3", "madler/zlib", "master", "", [], [],
      CMakeBuild("", None, "", None, [], []), [])])

  /**
   * As written, the download command on that manifest passes the check
   * (the buildable names are used), and download_package then stops on an
   * unknown package; the corrected check rejects the request up front.
   */
  lemma DownloadCheckAsWrittenDiffers(depsDir: string)
    ensures DependenciesCheckAsWritten([], BuildOnly, "linux", DownloadCommand) == Ok(["zlib"])
    ensures DownloadPackage(CacheLookup(BuildOnly.caches, "zlib", Some("linux")), "zlib", depsDir, None, "").error
      == Some(UnknownPackage("zlib"))
    ensures DependenciesCheck([], BuildOnly, "linux", DownloadCommand) == Err(Unavailable(["zlib"]))
  {
    assert RecipeMatches(BuildOnly.cmake[0], "linux");
    assert "zlib" in RecipeNames(BuildOnly.cmake, "linux");
    assert MissingDeps(["zlib"], AvailableDepsAsWritten(BuildOnly, "linux", DownloadCommand)) == [];
    assert MissingDeps(["zlib"], AvailableDeps(BuildOnly, "linux", DownloadCommand)) == ["zlib"];
  }
}

