// The older dependency tool, tools/install_deps.py, where it differs from
// configure.py: a single manifest file without includes or normalisation,
// recipe patches kept as written, a cache lookup that ignores the platform,
// and its own command names.  Its record parsers, name collection and Conan
// package choice are the ones ConfigureModel and ConfigureRecipes already
// model.
module InstallDepsModel {
  import opened Wrappers
  import opened ManifestPatterns
  import opened ManifestJson
  import opened ConfigureRecipes
  import opened ConfigureModel

  /**
   * `DependenciesJson.parse`: the records of one file, with the dependency
   * list exactly as written (order and duplicates kept).
   */
  function ParseDependencies(root: Json): (r: Result<Manifest, Error>)
    ensures r.Ok? ==> ValidManifest(r.value) && root.JObj?
    ensures r.Ok? ==> StringList("dependencies", GetOr(root.entries, "dependencies", JList([]))) == Ok(r.value.dependencies)
  {
    ParseRecords(root, None)
  }

  /** `find_package_in_caches`: the first pin of the package in any cache, whatever its platform. */
  method FindPackageInCaches(deps: Manifest, name: string) returns (r: Option<CachedPackage>)
    requires ValidManifest(deps)
    ensures r == CacheLookup(deps.caches, name, None)
  {
    r := ConfigureModel.FindPackageInCaches(deps, name, None);
  }

  /** Without a platform filter a package is found exactly when some cache lists it. */
  lemma FoundIffListed(deps: Manifest, name: string)
    requires ValidManifest(deps)
    ensures CacheLookup(deps.caches, name, None).Some? <==>
      exists i, k :: 0 <= i < |deps.caches| && 0 <= k < |deps.caches[i].packages|
        && NamePart(deps.caches[i].packages[k]) == name
  {
    CacheLookupNone(deps.caches, name, None);
  }

  /** The names the command may ask for ("download", "build" and "package" are its subcommands). */
  function AvailablePackages(m: Manifest, platform: string, command: string): set<string>
  {
    if command == "download" then CachedNames(m.caches, platform) else BuildableNames(m, platform)
  }

  /** `main`'s check: `args.packages`, or the manifest's dependencies when none are given, all available. */
  function PackagesCheck(requested: seq<string>, m: Manifest, platform: string, command: string): Result<seq<string>, Error>
  {
    CheckDeps(requested, m, AvailablePackages(m, platform, command))
  }

  /** The check passes exactly when every selected package is available; no request selects the manifest's list. */
  lemma {:induction false} PackagesCheckIff(requested: seq<string>, m: Manifest, platform: string, command: string)
    ensures var selected := if |requested| > 0 then requested else m.dependencies;
      (PackagesCheck(requested, m, platform, command).Ok? <==>
        forall i :: 0 <= i < |selected| ==> selected[i] in AvailablePackages(m, platform, command))
      && (PackagesCheck(requested, m, platform, command).Ok? ==> PackagesCheck(requested, m, platform, command).value == selected)
  {
    assert SelectedDeps(requested, m) == if |requested| > 0 then requested else m.dependencies;
  }

  /** Every package the download command went on to fetch is found, in some cache. */
  lemma DownloadCheckFinds(requested: seq<string>, m: Manifest, platform: string)
    requires ValidManifest(m)
    requires PackagesCheck(requested, m, platform, "download").Ok?
    ensures var selected := PackagesCheck(requested, m, platform, "download").value;
      forall i :: 0 <= i < |selected| ==> CacheLookup(m.caches, selected[i], None).Some?
  {
    var selected := PackagesCheck(requested, m, platform, "download").value;
    forall i | 0 <= i < |selected|
      ensures CacheLookup(m.caches, selected[i], None).Some?
    {
      var name := selected[i];
      CachedNamesIff(m.caches, platform, name);
      var c, k :| 0 <= c < |m.caches| && CacheMatches(m.caches[c], platform)
        && 0 <= k < |m.caches[c].packages| && NamePart(m.caches[c].packages[k]) == name;
      FoundIffListed(m, name);
    }
  }

  /**
   * A Windows cache listed before a Linux cache, both pinning the package:
   * on Linux the older lookup returns the Windows cache's pin, while
   * configure.py's lookup returns the Linux one.
   */
  lemma LookupIgnoresPlatform(windows: PackageCache, linux: PackageCache, name: string)
    requires ValidCache(windows) && ValidCache(linux)
    requires windows.platform == "windows" && linux.platform == "linux"
    requires name in NamesOf(windows.packages) && name in NamesOf(linux.packages)
    ensures CacheLookup([windows, linux], name, None) == CacheHit(windows, name, None)
    ensures CacheLookup([windows, linux], name, Some("linux")) == CacheHit(linux, name, Some("linux"))
    ensures CacheLookup([windows, linux], name, None).value.url
      == ArchiveUrl(windows.url, name, CacheLookup([windows, linux], name, None).value.version)
  {
    assert [windows, linux][1..] == [linux];
    assert [linux][1..] == [];
    CacheHitPin(windows, name, None);
    var p := CacheHit(windows, name, None).value;
    assert p.url == ArchiveUrl(windows.url, name, p.version);
  }
}
