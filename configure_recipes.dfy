// The records of dependencies.json as configure.py parses them: package
// caches, Conan recipe groups, CMake builds and CMake recipes, with the
// validation each parse performs and the option inheritance of named builds.
module ConfigureRecipes {
  import opened Wrappers
  import opened ManifestPatterns
  import opened ManifestJson

  // ---------------------------------------------------------------------------
  // POSIX path helpers (os.path on Linux)

  /** `os.path.isabs` */
  predicate IsAbs(p: string)
  {
    |p| > 0 && p[0] == '/'
  }

  predicate EndsWithSlash(p: string)
  {
    |p| > 0 && p[|p| - 1] == '/'
  }

  /** `os.path.join(a, b)`: an absolute `b` replaces `a`. */
  function PathJoin(a: string, b: string): (r: string)
    ensures IsAbs(b) ==> r == b
    ensures !IsAbs(b) ==> |r| >= |a| + |b| && r[|r| - |b|..] == b && r[..|a|] == a
  {
    if IsAbs(b) then b
    else if a == "" || EndsWithSlash(a) then a + b
    else a + "/" + b
  }

  /** Drops trailing '/' characters. */
  function StripSlashes(s: string): (r: string)
    ensures |r| <= |s| && r == s[..|r|]
  {
    if |s| > 0 && s[|s| - 1] == '/' then StripSlashes(s[..|s| - 1]) else s
  }

  predicate AllSlashes(s: string)
  {
    forall i :: 0 <= i < |s| ==> s[i] == '/'
  }

  /** The index just past the last '/' of `p`, or 0. */
  function AfterLastSlash(p: string): (r: nat)
    ensures r <= |p| && (r > 0 ==> p[r - 1] == '/')
    ensures forall i :: r <= i < |p| ==> p[i] != '/'
  {
    if |p| == 0 then 0
    else if p[|p| - 1] == '/' then |p|
    else AfterLastSlash(p[..|p| - 1])
  }

  /** `os.path.dirname`: the head up to the last '/', without trailing slashes unless it is all slashes. */
  function DirName(p: string): (r: string)
    ensures |r| <= |p| && r == p[..|r|]
  {
    var head := p[..AfterLastSlash(p)];
    if head != "" && !AllSlashes(head) then StripSlashes(head) else head
  }

  // ---------------------------------------------------------------------------
  // Single validated values

  /** `_validate_pattern(name, title, [v])`: one value that must be a fully matching string. */
  function RequiredString(p: Pattern, title: string, v: Json): (r: Result<string, Error>)
    ensures r.Ok? <==> Accepts(p, v)
    ensures r.Ok? ==> v == JStr(r.value) && Matches(p, r.value)
    ensures r.Err? ==> r.error == InvalidPattern(title, [v])
  {
    var xs := ValidatePattern(p, title, [v]);
    if xs.Ok? then Ok(xs.value[0])
    else
      assert Invalid(p, [v]) == [v];
      Err(xs.error)
  }

  // ---------------------------------------------------------------------------
  // Package caches

  /** A download location for pre-built packages, with its pins `name:version:hash`. */
  datatype PackageCache = PackageCache(kind: string, platform: string, url: string, packages: seq<string>)

  const CacheKinds: seq<string> := ["github_release", "custom"]
  const Platforms: seq<string> := ["windows", "linux"]

  /** Everything PackageCache.parse checks. */
  predicate ValidCache(c: PackageCache)
  {
    c.kind in CacheKinds && c.platform in Platforms && UrlOk(c.url)
    && forall i :: 0 <= i < |c.packages| ==> Matches(PackageNameVersionHashP, c.packages[i])
  }

  /** `PackageCache.parse`: type, platform and url are required; packages defaults to []. */
  function ParsePackageCache(j: Json): (r: Result<PackageCache, Error>)
    ensures r.Ok? ==> ValidCache(r.value)
    ensures r.Ok? ==> (j.JObj?
      && Get(j.entries, "type") == Some(JStr(r.value.kind))
      && Get(j.entries, "platform") == Some(JStr(r.value.platform))
      && Get(j.entries, "url") == Some(JStr(r.value.url)))
    ensures j.JObj? && !HasKey(j.entries, "type") ==> r == Err(KeyError("type"))
  {
    if !j.JObj? then Err(TypeError("package-cache"))
    else
      var e := j.entries;
      if !HasKey(e, "type") then Err(KeyError("type"))
      else if !HasKey(e, "platform") then Err(KeyError("platform"))
      else if !HasKey(e, "url") then Err(KeyError("url"))
      else
        var kind :- ValidateOption("package-cache.type", Get(e, "type").value, CacheKinds);
        var platform :- ValidateOption("package-cache.platform", Get(e, "platform").value, Platforms);
        var url :- ValidateUrl("package-cache.url", Get(e, "url").value);
        var items :- Iterate("package-cache.packages", GetOr(e, "packages", JList([])));
        var packages :- ValidatePattern(PackageNameVersionHashP, "package-cache.packages", items);
        Ok(PackageCache(kind, platform, url, packages))
  }

  /** A cache written as its JSON object. */
  function CacheJson(c: PackageCache): Json
  {
    JObj([("type", JStr(c.kind)), ("platform", JStr(c.platform)), ("url", JStr(c.url)),
          ("packages", StrList(c.packages))])
  }

  /** The fields of a cache's JSON object. */
  lemma CacheJsonFields(c: PackageCache)
    ensures var e := CacheJson(c).entries;
      Get(e, "type") == Some(JStr(c.kind)) && Get(e, "platform") == Some(JStr(c.platform))
      && Get(e, "url") == Some(JStr(c.url)) && Get(e, "packages") == Some(StrList(c.packages))
  {
    var e := CacheJson(c).entries;
    hide *;
    GetFour(e[0], e[1], e[2], e[3], "type");
    GetFour(e[0], e[1], e[2], e[3], "platform");
    GetFour(e[0], e[1], e[2], e[3], "url");
    GetFour(e[0], e[1], e[2], e[3], "packages");
  }

  /** Parsing a valid cache's JSON gives the cache back. */
  lemma CacheRoundTrip(c: PackageCache)
    requires ValidCache(c)
    ensures ParsePackageCache(CacheJson(c)) == Ok(c)
  {
    CacheJsonFields(c);
    ValidateStrings(PackageNameVersionHashP, "package-cache.packages", c.packages);
    var e := CacheJson(c).entries;
    assert GetOr(e, "packages", JList([])) == StrList(c.packages);
    assert ValidateOption("package-cache.type", JStr(c.kind), CacheKinds) == Ok(c.kind);
    assert ValidateOption("package-cache.platform", JStr(c.platform), Platforms) == Ok(c.platform);
    assert ValidateUrl("package-cache.url", JStr(c.url)) == Ok(c.url);
    assert Iterate("package-cache.packages", StrList(c.packages)) == Ok(StrList(c.packages).items);
    hide Get, GetOr, ValidateOption, ValidateUrl, Iterate, ValidatePattern, UrlOk, Matches, StrList, CacheJson;
  }

  /** `PackageCache.matches_platform` */
  predicate CacheMatches(c: PackageCache, platform: string)
  {
    c.platform == platform
  }

  // ---------------------------------------------------------------------------
  // Conan recipe groups

  /**
   * A group of Conan packages `name:version:query`, with the named queries
   * they use and an optional platform.  A platform that Python would treat as
   * false (absent, null, "") is None: matches_platform treats them alike.
   */
  datatype ConanRecipes = ConanRecipes(platform: Option<string>, queries: seq<(string, string)>, packages: seq<string>)

  /** Everything ConanRecipes.parse checks. */
  predicate ValidConan(c: ConanRecipes)
  {
    (c.platform.Some? ==> PlatformName(c.platform.value))
    && (forall i :: 0 <= i < |c.queries| ==> Matches(QueryNameP, c.queries[i].0))
    && forall i :: 0 <= i < |c.packages| ==> Matches(PackageNameVersionQueryP, c.packages[i])
  }

  function QueryKeys(queries: seq<(string, string)>): (r: seq<Json>)
    ensures |r| == |queries| && forall i :: 0 <= i < |queries| ==> r[i] == JStr(queries[i].0)
  {
    seq(|queries|, i requires 0 <= i < |queries| => JStr(queries[i].0))
  }

  /** `ConanRecipes.parse` */
  function ParseConanRecipes(j: Json): (r: Result<ConanRecipes, Error>)
    ensures r.Ok? ==> ValidConan(r.value)
    ensures r.Ok? ==> j.JObj? && (r.value.platform.None? <==> !Truthy(GetOr(j.entries, "platform", JNull)))
    ensures r.Ok? ==> StringList("conan-recipes.packages", GetOr(j.entries, "packages", JList([]))) == Ok(r.value.packages)
  {
    if !j.JObj? then Err(TypeError("conan-recipe"))
    else
      var e := j.entries;
      var platform := GetOr(e, "platform", JNull);
      var queries :- StringDict("conan-recipes.queries", GetOr(e, "queries", JObj([])));
      var packages :- StringList("conan-recipes.packages", GetOr(e, "packages", JList([])));
      var _ :- ValidatePattern(QueryNameP, "conan-recipes.queries keys", QueryKeys(queries));
      var checked :- ValidatePattern(PackageNameVersionQueryP, "conan-recipes.packages", GetOr(e, "packages", JList([])).items);
      assert checked == packages;
      if Truthy(platform) then
        var name :- RequiredString(PlatformNameP, "conan-recipes.platform", platform);
        Ok(ConanRecipes(Some(name), queries, packages))
      else
        Ok(ConanRecipes(None, queries, packages))
  }

  /** `ConanRecipes.matches_platform` */
  predicate ConanMatches(c: ConanRecipes, platform: string)
  {
    c.platform.None? || c.platform.value == platform
  }

  // ---------------------------------------------------------------------------
  // CMake builds

  /** One build variant of a CMake recipe, named `platform:build_type:suffix`. */
  datatype CMakeBuild = CMakeBuild(
    fullName: string,
    platform: Option<string>,
    buildType: string,
    suffix: Option<string>,
    options: seq<(string, string)>,
    installFiles: seq<string>)

  function OptText(o: Option<string>): string
  {
    if o.Some? then o.value else ""
  }

  /** An empty name part stands for None (`platform or None`). */
  function NonEmpty(s: string): (r: Option<string>)
    ensures OptText(r) == s && (r.None? <==> s == "")
  {
    if s == "" then None else Some(s)
  }

  /** The name a build's parts spell. */
  function NameOf(b: CMakeBuild): string
  {
    Glue(Glue(OptText(b.platform), ':', b.buildType), ':', OptText(b.suffix))
  }

  /** What CMakeRecipeBuild.parse guarantees about the name parts. */
  predicate ValidBuildName(b: CMakeBuild)
  {
    (b.platform.Some? ==> PlatformName(b.platform.value))
    && BuildType(b.buildType)
    && (b.suffix.Some? ==> LowerName(b.suffix.value))
    && b.fullName == NameOf(b)
  }

  /** The name an empty build name stands for: release, any platform, no suffix. */
  const DefaultBuildName: string := Glue(Glue("", ':', "release"), ':', "")

  /**
   * `CMakeRecipeBuild.parse`: an empty name means ":release:"; empty parts
   * become None.  The name ":release:" always passes the build-name check,
   * so its fields are given directly.
   */
  function ParseCMakeBuild(j: Json, fullName: string): (r: Result<CMakeBuild, Error>)
    ensures r.Ok? ==> ValidBuildName(r.value) && j.JObj?
    ensures r.Ok? ==> r.value.fullName == (if fullName == "" then DefaultBuildName else fullName)
    ensures r.Ok? && fullName == "" ==> (r.value.platform == None && r.value.buildType == "release"
      && r.value.suffix == None)
    ensures r.Ok? && fullName != "" ==> (var parts := Split(fullName, ':');
      |parts| == 3 && r.value.platform == NonEmpty(parts[0]) && r.value.buildType == parts[1]
      && r.value.suffix == NonEmpty(parts[2]))
    ensures fullName != "" && !Matches(BuildNameP, fullName) ==> r.Err?
  {
    var checked :- if fullName == "" then Ok(DefaultBuildName)
                   else RequiredString(BuildNameP, "cmake-build name", JStr(fullName));
    if !j.JObj? then Err(TypeError("cmake-build"))
    else
      var options :- StringDict("cmake-build.cmake-options", GetOr(j.entries, "cmake-options", JObj([])));
      var files :- StringList("cmake-build.install-files", GetOr(j.entries, "install-files", JList([])));
      if fullName == "" then
        Ok(CMakeBuild(DefaultBuildName, None, "release", None, options, files))
      else
        var parts := Split(fullName, ':');
        ThreePieces(fullName, ':');
        Ok(CMakeBuild(fullName, NonEmpty(parts[0]), parts[1], NonEmpty(parts[2]), options, files))
  }

  // ---------------------------------------------------------------------------
  // Option inheritance

  /**
   * The options of `child` after inherit_cmake_options(parent): each parent
   * entry is appended, in order, unless its key is already present.
   */
  function Inherit(child: seq<(string, string)>, parent: seq<(string, string)>): (r: seq<(string, string)>)
    ensures |r| >= |child| && r[..|child|] == child
    decreases |parent|
  {
    if |parent| == 0 then child
    else
      var next := if HasKey(child, parent[0].0) then child else child + [parent[0]];
      var r := Inherit(next, parent[1..]);
      assert r[..|child|] == r[..|next|][..|child|];
      r
  }

  /** The child's keys win; the parent supplies only the keys the child lacks. */
  lemma {:induction false} InheritLookup(child: seq<(string, string)>, parent: seq<(string, string)>, key: string)
    ensures Get(Inherit(child, parent), key)
      == if HasKey(child, key) then Get(child, key) else Get(parent, key)
    decreases |parent|
  {
    if |parent| > 0 {
      var p := parent[0];
      var next := if HasKey(child, p.0) then child else child + [p];
      InheritLookup(next, parent[1..], key);
      if !HasKey(child, p.0) {
        GetAppend(child, p.0, p.1, key);
      }
      assert Get(parent, key) == if p.0 == key then Some(p.1) else Get(parent[1..], key);
    }
  }

  /** inherit_cmake_options: the loop over the parent's options. */
  method InheritOptions(child: seq<(string, string)>, parent: seq<(string, string)>) returns (options: seq<(string, string)>)
    ensures options == Inherit(child, parent)
  {
    options := child;
    var i := 0;
    while i < |parent|
      invariant 0 <= i <= |parent|
      invariant Inherit(options, parent[i..]) == Inherit(child, parent)
    {
      assert parent[i..][1..] == parent[i + 1..];
      if !HasKey(options, parent[i].0) {
        options := options + [parent[i]];
      }
      i := i + 1;
    }
  }

  // ---------------------------------------------------------------------------
  // CMake recipes

  /** A package built from a GitHub checkout with CMake, in one or more builds. */
  datatype CMakeRecipe = CMakeRecipe(
    name: string,
    version: string,
    githubProject: string,
    sourceBranch: string,
    sourceSha1: string,
    sourcePatches: seq<string>,
    afterCheckout: seq<string>,
    defaultBuild: CMakeBuild,
    builds: seq<CMakeBuild>)

  /** The loop over "builds": each parsed, required to list install files, then given the default options. */
  function ParseBuilds(entries: seq<(string, Json)>, default: CMakeBuild): (r: Result<seq<CMakeBuild>, Error>)
    ensures r.Ok? ==> |r.value| == |entries|
  {
    hide *;
    if |entries| == 0 then Ok([])
    else
      var b :- ParseCMakeBuild(entries[0].1, entries[0].0);
      if |b.installFiles| == 0 then Err(NoInstallFiles(entries[0].0))
      else
        var rest :- ParseBuilds(entries[1..], default);
        Ok([b.(options := Inherit(b.options, default.options))] + rest)
  }

  /** A parsed build: a valid name, the name it was listed under, and install files. */
  predicate BuildFor(b: CMakeBuild, name: string)
  {
    ValidBuildName(b) && |b.installFiles| > 0
    && b.fullName == (if name == "" then DefaultBuildName else name)
  }

  /** Every build of a parsed list is valid, named as listed and installs files. */
  lemma {:induction false} ParseBuildsValid(entries: seq<(string, Json)>, default: CMakeBuild)
    requires ParseBuilds(entries, default).Ok?
    ensures forall i :: 0 <= i < |entries| ==> BuildFor(ParseBuilds(entries, default).value[i], entries[i].0)
  {
    if |entries| > 0 {
      ParseBuildsStep(entries, default);
      var b := ParseCMakeBuild(entries[0].1, entries[0].0).value;
      var rest := ParseBuilds(entries[1..], default).value;
      ParseBuildsValid(entries[1..], default);
      var head := b.(options := Inherit(b.options, default.options));
      WithOptionsValid(b, head.options);
      var built := ParseBuilds(entries, default).value;
      hide *;
      assert built == [head] + rest;
      forall i | 0 <= i < |entries| ensures BuildFor(built[i], entries[i].0) {
        if i > 0 {
          assert built[i] == rest[i - 1] && entries[i] == entries[1..][i - 1];
        }
      }
    }
  }

  lemma WithOptionsValid(b: CMakeBuild, options: seq<(string, string)>)
    requires ValidBuildName(b)
    ensures ValidBuildName(b.(options := options))
    ensures forall name :: BuildFor(b, name) ==> BuildFor(b.(options := options), name)
  {
  }

  /** Every parsed named build carries the default build's options under its own. */
  lemma {:induction false} ParseBuildsInherit(entries: seq<(string, Json)>, default: CMakeBuild, i: int, key: string)
    requires ParseBuilds(entries, default).Ok? && 0 <= i < |entries|
    ensures var b := ParseCMakeBuild(entries[i].1, entries[i].0);
      b.Ok? && Get(ParseBuilds(entries, default).value[i].options, key)
        == if HasKey(b.value.options, key) then Get(b.value.options, key) else Get(default.options, key)
  {
    hide *;
    ParseBuildsStep(entries, default);
    var b := ParseCMakeBuild(entries[0].1, entries[0].0);
    if i == 0 {
      InheritLookup(b.value.options, default.options, key);
    } else {
      ParseBuildsInherit(entries[1..], default, i - 1, key);
      assert entries[1..][i - 1] == entries[i];
    }
  }

  /** A named build without install files rejects the list. */
  lemma {:induction false} NoFilesFails(entries: seq<(string, Json)>, default: CMakeBuild, k: int)
    requires 0 <= k < |entries| && ParseCMakeBuild(entries[k].1, entries[k].0).Ok?
    requires |ParseCMakeBuild(entries[k].1, entries[k].0).value.installFiles| == 0
    ensures ParseBuilds(entries, default).Err?
  {
    hide *;
    ParseBuildsStep(entries, default);
    if k > 0 && ParseCMakeBuild(entries[0].1, entries[0].0).Ok?
      && |ParseCMakeBuild(entries[0].1, entries[0].0).value.installFiles| > 0
    {
      assert entries[1..][k - 1] == entries[k];
      NoFilesFails(entries[1..], default, k - 1);
    }
  }

  /** One step of the builds loop. */
  lemma ParseBuildsStep(entries: seq<(string, Json)>, default: CMakeBuild)
    requires |entries| > 0
    ensures var b := ParseCMakeBuild(entries[0].1, entries[0].0);
      var rest := ParseBuilds(entries[1..], default);
      ParseBuilds(entries, default) ==
        if b.Err? then Err(b.error)
        else if |b.value.installFiles| == 0 then Err(NoInstallFiles(entries[0].0))
        else if rest.Err? then Err(rest.error)
        else Ok([b.value.(options := Inherit(b.value.options, default.options))] + rest.value)
  {
    hide ParseCMakeBuild, Inherit;
  }

  /** The builds loop of CMakeRecipe.parse. */
  method CollectBuilds(entries: seq<(string, Json)>, default: CMakeBuild) returns (r: Result<seq<CMakeBuild>, Error>)
    ensures r == ParseBuilds(entries, default)
  {
    hide *;
    var builds: seq<CMakeBuild> := [];
    var i := 0;
    assert entries[0..] == entries;
    assert ParseBuilds(entries, default).Ok? ==> [] + ParseBuilds(entries, default).value == ParseBuilds(entries, default).value;
    while i < |entries|
      invariant 0 <= i <= |entries|
      invariant var rest := ParseBuilds(entries[i..], default);
        ParseBuilds(entries, default) == if rest.Ok? then Ok(builds + rest.value) else rest
    {
      ParseBuildsStep(entries[i..], default);
      assert entries[i..][1..] == entries[i + 1..];
      var b := ParseCMakeBuild(entries[i].1, entries[i].0);
      if b.Err? {
        return Err(b.error);
      }
      if |b.value.installFiles| == 0 {
        return Err(NoInstallFiles(entries[i].0));
      }
      var options := InheritOptions(b.value.options, default.options);
      var rest := ParseBuilds(entries[i + 1..], default);
      assert rest.Ok? ==> (builds + [b.value.(options := options)] + rest.value
        == builds + ([b.value.(options := options)] + rest.value));
      builds := builds + [b.value.(options := options)];
      i := i + 1;
    }
    ParseBuildsEmpty(entries[i..], default);
    assert builds + [] == builds;
    r := Ok(builds);
  }

  lemma ParseBuildsEmpty(entries: seq<(string, Json)>, default: CMakeBuild)
    requires |entries| == 0
    ensures ParseBuilds(entries, default) == Ok([])
  {
  }

  /** The two pieces of a valid `name:version`. */
  lemma NameVersionParts(s: string)
    requires Matches(PackageNameVersionP, s)
    ensures var parts := Split(s, ':');
      |parts| == 2 && LowerName(parts[0]) && Version(parts[1]) && s == Glue(parts[0], ':', parts[1])
  {
    TwoPieces(s, ':');
  }

  /** Everything CMakeRecipe.parse checks. */
  predicate ValidRecipe(c: CMakeRecipe)
  {
    LowerName(c.name) && Version(c.version)
    && Matches(GithubProjectP, c.githubProject) && Matches(BranchNameP, c.sourceBranch)
    && Matches(Sha1P, c.sourceSha1)
    && ValidBuildName(c.defaultBuild) && c.defaultBuild.fullName == DefaultBuildName
    && (forall i :: 0 <= i < |c.builds| ==> ValidBuildName(c.builds[i]) && |c.builds[i].installFiles| > 0)
    && (|c.builds| > 0 ==> |c.defaultBuild.installFiles| == 0)
  }

  /** Applies `os.path.join(patch_dir, p)` to each patch when a directory is given. */
  function PatchPaths(patchDir: Option<string>, patches: seq<string>): (r: seq<string>)
    ensures |r| == |patches|
    ensures patchDir.None? ==> r == patches
    ensures patchDir.Some? ==> forall i :: 0 <= i < |patches| ==> r[i] == PathJoin(patchDir.value, patches[i])
  {
    if patchDir.None? then patches
    else seq(|patches|, i requires 0 <= i < |patches| => PathJoin(patchDir.value, patches[i]))
  }

  /** The "builds" object of a recipe. */
  function BuildsJson(e: seq<(string, Json)>): Json
  {
    GetOr(e, "builds", JObj([]))
  }

  /**
   * `CMakeRecipe.parse`.  configure.py joins each patch with the manifest's
   * directory (`patchDir` is Some); install_deps.py keeps them (None).
   */
  function RecipeOf(j: Json, patchDir: Option<string>): (r: Result<CMakeRecipe, Error>)
    ensures r.Ok? ==> ValidRecipe(r.value)
    ensures r.Ok? ==> (j.JObj? && ParseCMakeBuild(j, "") == Ok(r.value.defaultBuild)
      && BuildsJson(j.entries).JObj?
      && ParseBuilds(BuildsJson(j.entries).entries, r.value.defaultBuild) == Ok(r.value.builds))
    ensures r.Ok? ==> GetOr(j.entries, "package", JNull) == JStr(Glue(r.value.name, ':', r.value.version))
  {
    hide Matches, Split, Glue, ParseCMakeBuild, ParseBuilds, StringList, PatchPaths;
    if !j.JObj? then Err(TypeError("cmake-recipe"))
    else
      var e := j.entries;
      var nv :- RequiredString(PackageNameVersionP, "cmake-recipe.package", GetOr(e, "package", JNull));
      var parts := Split(nv, ':');
      NameVersionParts(nv);
      var project :- RequiredString(GithubProjectP, "cmake-recipe.github-project", GetOr(e, "github-project", JNull));
      var branch :- RequiredString(BranchNameP, "cmake-recipe.source-branch", GetOr(e, "source-branch", JNull));
      var sha1 :- RequiredString(Sha1P, "cmake-recipe.source-sha1", GetOr(e, "source-sha1", JNull));
      var patches :- StringList("cmake-recipe.source-patches", GetOr(e, "source-patches", JList([])));
      var commands :- StringList("cmake-recipe.after-checkout-commands", GetOr(e, "after-checkout-commands", JList([])));
      var default :- ParseCMakeBuild(j, "");
      var jsonBuilds := BuildsJson(e);
      if !jsonBuilds.JObj? then Err(TypeError("cmake-recipe.builds"))
      else
        var builds :- ParseBuilds(jsonBuilds.entries, default);
        ParseBuildsValid(jsonBuilds.entries, default);
        if |builds| > 0 && |default.installFiles| > 0 then Err(DefaultBuildInstallFiles)
        else
          Ok(CMakeRecipe(parts[0], parts[1], project, branch, sha1, PatchPaths(patchDir, patches),
                         commands, default, builds))
  }

  /** A named build without install files rejects the recipe. */
  lemma NamedBuildNeedsFiles(j: Json, patchDir: Option<string>, k: int)
    requires j.JObj? && BuildsJson(j.entries).JObj?
    requires var entries := BuildsJson(j.entries).entries;
      0 <= k < |entries| && ParseCMakeBuild(entries[k].1, entries[k].0).Ok?
      && |ParseCMakeBuild(entries[k].1, entries[k].0).value.installFiles| == 0
    ensures RecipeOf(j, patchDir).Err?
  {
    hide RecipeOf, ParseCMakeBuild, ParseBuilds;
    var r := RecipeOf(j, patchDir);
    if r.Ok? {
      NoFilesFails(BuildsJson(j.entries).entries, r.value.defaultBuild, k);
    }
  }

  /** `CMakeRecipe.get_builds`' filter: a build without a platform fits every platform. */
  predicate BuildMatches(b: CMakeBuild, platform: string)
  {
    b.platform.None? || b.platform.value == platform
  }

  /** The builds of a list that fit a platform, in order. */
  function MatchingBuilds(builds: seq<CMakeBuild>, platform: string): (r: seq<CMakeBuild>)
    ensures |r| <= |builds|
    ensures forall i :: 0 <= i < |r| ==> BuildMatches(r[i], platform)
  {
    if |builds| == 0 then []
    else (if BuildMatches(builds[0], platform) then [builds[0]] else []) + MatchingBuilds(builds[1..], platform)
  }

  /** get_builds keeps exactly the builds that fit the platform. */
  lemma {:induction false} MatchingMembers(builds: seq<CMakeBuild>, platform: string, b: CMakeBuild)
    ensures b in MatchingBuilds(builds, platform) <==> b in builds && BuildMatches(b, platform)
  {
    if |builds| > 0 {
      MatchingMembers(builds[1..], platform, b);
      assert b in builds <==> b == builds[0] || b in builds[1..];
    }
  }

  /** `CMakeRecipe.get_builds` */
  method GetBuilds(recipe: CMakeRecipe, platform: string) returns (builds: seq<CMakeBuild>)
    ensures |recipe.builds| == 0 ==> builds == [recipe.defaultBuild]
    ensures |recipe.builds| > 0 ==> builds == MatchingBuilds(recipe.builds, platform)
  {
    hide MatchingBuilds;
    if |recipe.builds| == 0 {
      return [recipe.defaultBuild];
    }
    builds := [];
    var i := 0;
    while i < |recipe.builds|
      invariant 0 <= i <= |recipe.builds|
      invariant MatchingBuilds(recipe.builds, platform) == builds + MatchingBuilds(recipe.builds[i..], platform)
    {
      assert recipe.builds[i..][1..] == recipe.builds[i + 1..];
      MatchingStep(recipe.builds[i..], platform);
      var b := recipe.builds[i];
      if BuildMatches(b, platform) {
        builds := builds + [b];
      }
      i := i + 1;
    }
    MatchingStep(recipe.builds[i..], platform);
    assert builds + [] == builds;
  }

  lemma MatchingStep(builds: seq<CMakeBuild>, platform: string)
    ensures |builds| == 0 ==> MatchingBuilds(builds, platform) == []
    ensures |builds| > 0 ==> (MatchingBuilds(builds, platform)
      == (if BuildMatches(builds[0], platform) then [builds[0]] else []) + MatchingBuilds(builds[1..], platform))
  {
  }

  /** `CMakeRecipe.matches_platform`, as a predicate. */
  predicate RecipeMatches(recipe: CMakeRecipe, platform: string)
  {
    |recipe.builds| == 0 || exists i :: 0 <= i < |recipe.builds| && BuildMatches(recipe.builds[i], platform)
  }

  /** `CMakeRecipe.matches_platform`: the loop with its early return. */
  method MatchesPlatform(recipe: CMakeRecipe, platform: string) returns (r: bool)
    ensures r <==> RecipeMatches(recipe, platform)
  {
    if |recipe.builds| == 0 {
      return true;
    }
    var i := 0;
    while i < |recipe.builds|
      invariant 0 <= i <= |recipe.builds|
      invariant forall k :: 0 <= k < i ==> !BuildMatches(recipe.builds[k], platform)
    {
      if BuildMatches(recipe.builds[i], platform) {
        return true;
      }
      i := i + 1;
    }
    return false;
  }

  /** A recipe fits a platform exactly when get_builds has something to build there. */
  lemma MatchesIffBuilds(recipe: CMakeRecipe, platform: string)
    ensures RecipeMatches(recipe, platform)
      <==> |recipe.builds| == 0 || |MatchingBuilds(recipe.builds, platform)| > 0
  {
    var m := MatchingBuilds(recipe.builds, platform);
    if |m| > 0 {
      MatchingMembers(recipe.builds, platform, m[0]);
      var i :| 0 <= i < |recipe.builds| && recipe.builds[i] == m[0];
    }
    if exists i :: 0 <= i < |recipe.builds| && BuildMatches(recipe.builds[i], platform) {
      var i :| 0 <= i < |recipe.builds| && BuildMatches(recipe.builds[i], platform);
      MatchingMembers(recipe.builds, platform, recipe.builds[i]);
    }
  }
}
