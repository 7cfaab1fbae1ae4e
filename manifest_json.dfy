// JSON values as json.load returns them, the errors the manifest readers
// raise, and the validation helpers they share (list and dictionary type
// checks, pattern, option and URL validation).
module ManifestJson {
  import opened Wrappers
  import opened ManifestPatterns

  /** A JSON value; an object keeps its entries in insertion order. */
  datatype Json =
    | JNull
    | JBool(b: bool)
    | JNum(n: int)
    | JStr(s: string)
    | JList(items: seq<Json>)
    | JObj(entries: seq<(string, Json)>)

  /** The exceptions (and `exit(1)` paths) of the manifest tools. */
  datatype Error =
    | TypeError(title: string)
    | KeyError(key: string)
    | InvalidPattern(title: string, invalid: seq<Json>)
    | InvalidOption(title: string, value: string)
    | InvalidUrl(title: string, url: string)
    | NoInstallFiles(build: string)
    | DefaultBuildInstallFiles
    | TooManyIncludeLevels
    | AbsoluteInclude(path: string)
    | FileNotFound(path: string)
    | UnknownQuery(query: string)
    | BadRename(selector: string)
    | UnknownPackage(name: string)
    | HashMismatch(path: string)
    | Unavailable(names: seq<string>)

  // ---------------------------------------------------------------------------
  // Dictionaries as entry lists

  /** `d.get(key)`: the value of the first entry with that key. */
  function Get<V>(entries: seq<(string, V)>, key: string): (r: Option<V>)
    ensures r.None? <==> forall i :: 0 <= i < |entries| ==> entries[i].0 != key
    ensures r.Some? ==> exists i :: 0 <= i < |entries| && entries[i] == (key, r.value)
  {
    if |entries| == 0 then None
    else if entries[0].0 == key then Some(entries[0].1)
    else
      var r := Get(entries[1..], key);
      assert forall i :: 0 < i < |entries| ==> entries[i] == entries[1..][i - 1];
      r
  }

  predicate HasKey<V>(entries: seq<(string, V)>, key: string)
  {
    Get(entries, key).Some?
  }

  /** `d.get(key, default)` */
  function GetOr(entries: seq<(string, Json)>, key: string, default: Json): Json
  {
    match Get(entries, key)
    case Some(v) => v
    case None => default
  }

  /** `list(d.keys())` */
  function Keys<V>(entries: seq<(string, V)>): (r: seq<string>)
    ensures |r| == |entries| && forall i :: 0 <= i < |r| ==> r[i] == entries[i].0
  {
    seq(|entries|, i requires 0 <= i < |entries| => entries[i].0)
  }

  /** Looking a key up in an entry list with a known first entry. */
  lemma GetCons<V>(k: string, v: V, rest: seq<(string, V)>, key: string)
    ensures Get([(k, v)] + rest, key) == if k == key then Some(v) else Get(rest, key)
  {
    assert ([(k, v)] + rest)[1..] == rest;
  }

  /** Looking a key up in a four-entry object. */
  lemma GetFour<V>(a: (string, V), b: (string, V), c: (string, V), d: (string, V), key: string)
    ensures Get([a, b, c, d], key)
      == if a.0 == key then Some(a.1) else if b.0 == key then Some(b.1)
         else if c.0 == key then Some(c.1) else if d.0 == key then Some(d.1) else None
  {
    assert [a, b, c, d] == [a] + [b, c, d] && [b, c, d] == [b] + [c, d] && [c, d] == [c] + [d];
    GetCons(a.0, a.1, [b, c, d], key);
    GetCons(b.0, b.1, [c, d], key);
    GetCons(c.0, c.1, [d], key);
    GetCons(d.0, d.1, [], key);
    assert [d] == [d] + [];
  }

  /** Looking a key up after appending one entry. */
  lemma {:induction false} GetAppend<V>(entries: seq<(string, V)>, k: string, v: V, key: string)
    ensures Get(entries + [(k, v)], key)
      == if HasKey(entries, key) then Get(entries, key) else if k == key then Some(v) else None
  {
    if |entries| > 0 {
      assert (entries + [(k, v)])[1..] == entries[1..] + [(k, v)];
      GetAppend(entries[1..], k, v, key);
    }
  }

  /** Python truthiness of a JSON value. */
  predicate Truthy(j: Json)
  {
    match j
    case JNull => false
    case JBool(b) => b
    case JNum(n) => n != 0
    case JStr(s) => |s| > 0
    case JList(items) => |items| > 0
    case JObj(entries) => |entries| > 0
  }

  /** What a `for` loop visits in a JSON value: list items, object keys, string characters. */
  function Iterate(title: string, j: Json): (r: Result<seq<Json>, Error>)
    ensures r.Err? <==> !(j.JList? || j.JObj? || j.JStr?)
    ensures j.JList? ==> r == Ok(j.items)
  {
    match j
    case JList(items) => Ok(items)
    case JObj(entries) => Ok(seq(|entries|, i requires 0 <= i < |entries| => JStr(entries[i].0)))
    case JStr(s) => Ok(seq(|s|, i requires 0 <= i < |s| => JStr([s[i]])))
    case _ => Err(TypeError(title))
  }

  // ---------------------------------------------------------------------------
  // Validators

  /** A value one validator accepts: a string that fully matches the pattern. */
  predicate Accepts(p: Pattern, v: Json)
  {
    v.JStr? && Matches(p, v.s)
  }

  /** `[s for s in strings if not isinstance(s, str) or not fullmatch(s)]` */
  function Invalid(p: Pattern, vs: seq<Json>): (r: seq<Json>)
    ensures forall v :: v in r <==> v in vs && !Accepts(p, v)
  {
    if |vs| == 0 then []
    else
      var rest := Invalid(p, vs[1..]);
      assert forall v :: v in vs <==> v == vs[0] || v in vs[1..];
      (if Accepts(p, vs[0]) then [] else [vs[0]]) + rest
  }

  /** The strings of a list of JSON strings. */
  function Strings(vs: seq<Json>): (r: seq<string>)
    requires forall i :: 0 <= i < |vs| ==> vs[i].JStr?
    ensures |r| == |vs| && forall i :: 0 <= i < |vs| ==> vs[i] == JStr(r[i])
  {
    seq(|vs|, i requires 0 <= i < |vs| => vs[i].s)
  }

  /** `_PatternValidator.validate`: every value must be a fully matching string. */
  function ValidatePattern(p: Pattern, title: string, vs: seq<Json>): (r: Result<seq<string>, Error>)
    ensures r.Ok? <==> forall i :: 0 <= i < |vs| ==> Accepts(p, vs[i])
    ensures r.Ok? ==> (|r.value| == |vs|
      && forall i :: 0 <= i < |vs| ==> vs[i] == JStr(r.value[i]) && Matches(p, r.value[i]))
    ensures r.Err? ==> r.error == InvalidPattern(title, Invalid(p, vs))
  {
    var bad := Invalid(p, vs);
    if |bad| > 0 then
      assert bad[0] in bad;
      Err(InvalidPattern(title, bad))
    else
      assert forall i :: 0 <= i < |vs| ==> vs[i] !in bad;
      Ok(Strings(vs))
  }

  /** `_validate_options`: a string, and one of the options. */
  function ValidateOption(title: string, v: Json, options: seq<string>): (r: Result<string, Error>)
    ensures r.Ok? <==> v.JStr? && v.s in options
    ensures r.Ok? ==> v == JStr(r.value)
    ensures !v.JStr? ==> r == Err(TypeError(title))
  {
    if !v.JStr? then Err(TypeError(title))
    else if v.s !in options then Err(InvalidOption(title, v.s))
    else Ok(v.s)
  }

  /** ASCII lower-casing (a URL scheme holds ASCII characters only). */
  function Lower(s: string): (r: string)
    ensures |r| == |s|
  {
    seq(|s|, i requires 0 <= i < |s| => if 'A' <= s[i] <= 'Z' then (s[i] as int + 32) as char else s[i])
  }

  /** The index of the first `c` in `s`, or |s|. */
  function FirstIndex(s: string, c: char): (r: nat)
    ensures r <= |s| && (r < |s| ==> s[r] == c)
    ensures forall i :: 0 <= i < r ==> s[i] != c
  {
    if |s| == 0 then 0
    else if s[0] == c then 0
    else 1 + FirstIndex(s[1..], c)
  }

  /**
   * urlparse's test as `_validate_url` uses it: the scheme (the text before
   * the first ':', lower-cased) is http or https, and the network location
   * after "//" (up to the first '/', '?' or '#') is not empty.
   */
  predicate UrlOk(url: string)
  {
    var i := FirstIndex(url, ':');
    i < |url| && Lower(url[..i]) in ["http", "https"]
    && var rest := url[i + 1..];
    |rest| > 2 && rest[0] == '/' && rest[1] == '/' && rest[2] !in "/?#"
  }

  /** `_validate_url` */
  function ValidateUrl(title: string, v: Json): (r: Result<string, Error>)
    ensures r.Ok? <==> v.JStr? && UrlOk(v.s)
    ensures r.Ok? ==> v == JStr(r.value)
  {
    if !v.JStr? then Err(TypeError(title))
    else if !UrlOk(v.s) then Err(InvalidUrl(title, v.s))
    else Ok(v.s)
  }

  /** `_validate_list_type(title, value, str)` */
  function StringList(title: string, v: Json): (r: Result<seq<string>, Error>)
    ensures r.Ok? <==> v.JList? && forall i :: 0 <= i < |v.items| ==> v.items[i].JStr?
    ensures r.Ok? ==> (|r.value| == |v.items|
      && forall i :: 0 <= i < |v.items| ==> v.items[i] == JStr(r.value[i]))
    ensures r.Err? ==> r.error == TypeError(title)
  {
    if v.JList? && forall i :: 0 <= i < |v.items| ==> v.items[i].JStr? then Ok(Strings(v.items))
    else Err(TypeError(title))
  }

  /** `_validate_dict_type(title, value, str, str)` */
  function StringDict(title: string, v: Json): (r: Result<seq<(string, string)>, Error>)
    ensures r.Ok? <==> v.JObj? && forall i :: 0 <= i < |v.entries| ==> v.entries[i].1.JStr?
    ensures r.Ok? ==> (|r.value| == |v.entries|
      && forall i :: 0 <= i < |v.entries| ==> r.value[i] == (v.entries[i].0, v.entries[i].1.s))
    ensures r.Err? ==> r.error == TypeError(title)
  {
    if v.JObj? && forall i :: 0 <= i < |v.entries| ==> v.entries[i].1.JStr? then
      Ok(seq(|v.entries|, i requires 0 <= i < |v.entries| && v.entries[i].1.JStr?
                          => (v.entries[i].0, v.entries[i].1.s)))
    else Err(TypeError(title))
  }

  /** A string list written back as JSON. */
  function StrList(xs: seq<string>): (r: Json)
    ensures r.JList? && |r.items| == |xs| && forall i :: 0 <= i < |xs| ==> r.items[i] == JStr(xs[i])
  {
    JList(seq(|xs|, i requires 0 <= i < |xs| => JStr(xs[i])))
  }

  /** A string dictionary written back as JSON. */
  function StrDict(entries: seq<(string, string)>): (r: Json)
    ensures r.JObj? && |r.entries| == |entries|
      && forall i :: 0 <= i < |entries| ==> r.entries[i] == (entries[i].0, JStr(entries[i].1))
  {
    JObj(seq(|entries|, i requires 0 <= i < |entries| => (entries[i].0, JStr(entries[i].1))))
  }

  /** Reading a written string list back gives it unchanged. */
  lemma StringListRoundTrip(title: string, xs: seq<string>)
    ensures StringList(title, StrList(xs)) == Ok(xs)
  {
    var r := StringList(title, StrList(xs));
    assert r.value == xs;
  }

  /** Reading a written string dictionary back gives it unchanged. */
  lemma StringDictRoundTrip(title: string, entries: seq<(string, string)>)
    ensures StringDict(title, StrDict(entries)) == Ok(entries)
  {
    var r := StringDict(title, StrDict(entries));
    assert r.value == entries;
  }

  /** Validating strings that all match gives them back. */
  lemma ValidateStrings(p: Pattern, title: string, xs: seq<string>)
    requires forall i :: 0 <= i < |xs| ==> Matches(p, xs[i])
    ensures ValidatePattern(p, title, StrList(xs).items) == Ok(xs)
  {
    var r := ValidatePattern(p, title, StrList(xs).items);
    assert r.value == xs;
  }

  /** Any http or https URL with a non-empty host passes. */
  lemma UrlOfParts(scheme: string, host: string, path: string)
    requires scheme == "http" || scheme == "https"
    requires |host| > 0 && host[0] !in "/?#"
    ensures UrlOk(scheme + "://" + host + path)
  {
    var url := scheme + "://" + host + path;
    assert url[|scheme|] == ':';
    assert forall i :: 0 <= i < |scheme| ==> url[i] == scheme[i];
    assert FirstIndex(url, ':') == |scheme|;
    assert url[..|scheme|] == scheme;
    assert url[|scheme| + 1..] == "//" + host + path;
    assert Lower(scheme) == scheme;
    assert ("//" + host + path)[2] == host[0];
  }

  lemma UrlSchemeRefused()
    ensures !UrlOk("ftp://x")
  {
    assert FirstIndex("ftp://x", ':') == 3;
  }

  lemma UrlHostRequired()
    ensures !UrlOk("http:///x")
  {
    assert FirstIndex("http:///x", ':') == 4;
  }
}
