// The regular expressions that dependencies.json entries must match, written
// twice: as executable recognizers (how the entries are later taken apart with
// str.split) and as the languages the patterns denote (concatenations of
// pieces).  MatchesIff proves the two agree for every pattern.
module ManifestPatterns {

  predicate IsDigit(c: char) { '0' <= c <= '9' }
  predicate IsLower(c: char) { 'a' <= c <= 'z' }
  predicate IsHex(c: char) { IsDigit(c) || 'a' <= c <= 'f' }
  predicate IsNameChar(c: char) { IsLower(c) || IsDigit(c) || c == '-' }
  predicate IsBranchChar(c: char)
  {
    'A' <= c <= 'Z' || IsLower(c) || IsDigit(c) || c == '_' || c == '.' || c == '-'
  }

  /** `[A-Za-z0-9_.-]+` */
  predicate BranchName(s: string)
  {
    |s| > 0 && forall i :: 0 <= i < |s| ==> IsBranchChar(s[i])
  }

  /** `[a-z][a-z0-9-]*`: package names, build suffixes and query names. */
  predicate LowerName(s: string)
  {
    |s| > 0 && IsLower(s[0]) && forall i :: 0 < i < |s| ==> IsNameChar(s[i])
  }

  /** `(windows|linux)` */
  predicate PlatformName(s: string) { s == "windows" || s == "linux" }

  /** `(release|debug)` */
  predicate BuildType(s: string) { s == "release" || s == "debug" }

  /** `[a-f0-9]{n}` */
  predicate HexDigits(s: string, n: nat)
  {
    |s| == n && forall i :: 0 <= i < |s| ==> IsHex(s[i])
  }

  /** `\d+` (ASCII digits) */
  predicate Digits(s: string)
  {
    |s| > 0 && forall i :: 0 <= i < |s| ==> IsDigit(s[i])
  }

  /** Python's `s.split(sep)`: the pieces between separators, empty ones included. */
  function Split(s: string, sep: char): (r: seq<string>)
    ensures |r| > 0
    ensures forall i :: 0 <= i < |r| ==> sep !in r[i]
  {
    if |s| == 0 then [""]
    else
      var rest := Split(s[1..], sep);
      if s[0] == sep then [""] + rest
      else [[s[0]] + rest[0]] + rest[1..]
  }

  /** `sep.join(parts)` */
  function Join(parts: seq<string>, sep: char): string
  {
    if |parts| == 0 then ""
    else if |parts| == 1 then parts[0]
    else parts[0] + [sep] + Join(parts[1..], sep)
  }

  /** Two pieces around one separator. */
  function Glue(a: string, sep: char, b: string): string
  {
    a + [sep] + b
  }

  /** The part of a `name:...` entry before its first colon. */
  function NamePart(s: string): string
  {
    Split(s, ':')[0]
  }

  /** `\d+(\.\d+)*(-\d+)?`, recognized after splitting at '-' and '.'. */
  predicate Version(s: string)
  {
    var dash := Split(s, '-');
    (|dash| == 1 || (|dash| == 2 && Digits(dash[1])))
    && DigitGroups(Split(dash[0], '.'))
  }

  predicate DigitGroups(groups: seq<string>)
  {
    forall i :: 0 <= i < |groups| ==> Digits(groups[i])
  }

  /** The validators configured for dependencies.json, by name. */
  datatype Pattern =
    | BranchNameP
    | PlatformNameP
    | BuildNameP
    | GithubProjectP
    | PackageNameP
    | PackageNameVersionP
    | PackageNameVersionHashP
    | PackageNameVersionQueryP
    | QueryNameP
    | Sha1P

  /** Full match of the pattern's regular expression, decided by splitting. */
  predicate Matches(p: Pattern, s: string)
  {
    match p
    case BranchNameP => BranchName(s)
    case PlatformNameP => PlatformName(s)
    case BuildNameP =>
      var parts := Split(s, ':');
      |parts| == 3 && (parts[0] == "" || PlatformName(parts[0])) && BuildType(parts[1])
      && (parts[2] == "" || LowerName(parts[2]))
    case GithubProjectP =>
      var parts := Split(s, '/');
      |parts| == 2 && BranchName(parts[0]) && BranchName(parts[1])
    case PackageNameP => LowerName(s)
    case PackageNameVersionP =>
      var parts := Split(s, ':');
      |parts| == 2 && LowerName(parts[0]) && Version(parts[1])
    case PackageNameVersionHashP =>
      var parts := Split(s, ':');
      |parts| == 3 && LowerName(parts[0]) && Version(parts[1]) && HexDigits(parts[2], 16)
    case PackageNameVersionQueryP =>
      var parts := Split(s, ':');
      |parts| == 3 && LowerName(parts[0]) && Version(parts[1]) && LowerName(parts[2])
    case QueryNameP => LowerName(s)
    case Sha1P => HexDigits(s, 40)
  }

  /** The language of `\d+(\.\d+)*(-\d+)?` as a concatenation of digit groups. */
  ghost predicate VersionLanguage(s: string)
  {
    (exists groups :: |groups| > 0 && DigitGroups(groups) && s == Join(groups, '.'))
    || (exists groups, d :: |groups| > 0 && DigitGroups(groups) && Digits(d)
          && s == Glue(Join(groups, '.'), '-', d))
  }

  /** `((windows|linux))?`, `(release|debug)` and `([a-z][a-z0-9-]*)?` */
  predicate BuildNamePieces(a: string, b: string, c: string)
  {
    (a == "" || PlatformName(a)) && BuildType(b) && (c == "" || LowerName(c))
  }

  /** The language each pattern denotes, piece by piece. */
  ghost predicate InLanguage(p: Pattern, s: string)
  {
    match p
    case BranchNameP => BranchName(s)
    case PlatformNameP => PlatformName(s)
    case BuildNameP =>
      exists a, b, c :: s == Glue(Glue(a, ':', b), ':', c) && BuildNamePieces(a, b, c)
    case GithubProjectP =>
      exists a, b :: s == Glue(a, '/', b) && BranchName(a) && BranchName(b)
    case PackageNameP => LowerName(s)
    case PackageNameVersionP =>
      exists a, b :: s == Glue(a, ':', b) && LowerName(a) && VersionLanguage(b)
    case PackageNameVersionHashP =>
      exists a, b, c :: s == Glue(Glue(a, ':', b), ':', c)
        && LowerName(a) && VersionLanguage(b) && HexDigits(c, 16)
    case PackageNameVersionQueryP =>
      exists a, b, c :: s == Glue(Glue(a, ':', b), ':', c)
        && LowerName(a) && VersionLanguage(b) && LowerName(c)
    case QueryNameP => LowerName(s)
    case Sha1P => HexDigits(s, 40)
  }

  // ---------------------------------------------------------------------------
  // Split and Join

  /** Splitting a piece without separators gives the piece itself. */
  lemma {:induction false} SplitNoSep(a: string, sep: char)
    requires sep !in a
    ensures Split(a, sep) == [a]
  {
    if |a| > 0 {
      assert a[0] != sep;
      assert sep !in a[1..];
      SplitNoSep(a[1..], sep);
      assert [a[0]] + a[1..] == a;
    }
  }

  /** Splitting `a + sep + b` cuts at the first separator when `a` has none. */
  lemma {:induction false} SplitGlue(a: string, sep: char, b: string)
    requires sep !in a
    ensures Split(Glue(a, sep, b), sep) == [a] + Split(b, sep)
  {
    var s := Glue(a, sep, b);
    if |a| == 0 {
      assert s[1..] == b;
    } else {
      assert s[1..] == Glue(a[1..], sep, b);
      assert sep !in a[1..];
      SplitGlue(a[1..], sep, b);
      assert [a[0]] + a[1..] == a;
    }
  }

  /** Joining the pieces of a split gives back the string. */
  lemma {:induction false} JoinSplit(s: string, sep: char)
    ensures Join(Split(s, sep), sep) == s
  {
    if |s| > 0 {
      var rest := Split(s[1..], sep);
      JoinSplit(s[1..], sep);
      if s[0] == sep {
        assert ([""] + rest)[1..] == rest;
      } else {
        var r := [[s[0]] + rest[0]] + rest[1..];
        assert r[1..] == rest[1..];
        if |rest| == 1 {
          assert Join(rest, sep) == rest[0];
        } else {
          assert Join(rest, sep) == rest[0] + [sep] + Join(rest[1..], sep);
        }
        assert s == [s[0]] + s[1..];
      }
    }
  }

  /** Splitting joined separator-free pieces gives the pieces back. */
  lemma {:induction false} SplitJoin(parts: seq<string>, sep: char)
    requires |parts| > 0
    requires forall i :: 0 <= i < |parts| ==> sep !in parts[i]
    ensures Split(Join(parts, sep), sep) == parts
  {
    if |parts| == 1 {
      SplitNoSep(parts[0], sep);
    } else {
      SplitJoin(parts[1..], sep);
      assert Join(parts, sep) == Glue(parts[0], sep, Join(parts[1..], sep));
      SplitGlue(parts[0], sep, Join(parts[1..], sep));
      assert [parts[0]] + parts[1..] == parts;
    }
  }

  /** A joined string holds no character that neither the pieces nor the separator hold. */
  lemma {:induction false} JoinAvoids(parts: seq<string>, sep: char, c: char)
    requires c != sep
    requires forall i :: 0 <= i < |parts| ==> c !in parts[i]
    ensures c !in Join(parts, sep)
  {
    if |parts| > 1 {
      JoinAvoids(parts[1..], sep, c);
    }
  }

  lemma TwoPieces(s: string, sep: char)
    requires |Split(s, sep)| == 2
    ensures s == Glue(Split(s, sep)[0], sep, Split(s, sep)[1])
  {
    var parts := Split(s, sep);
    JoinSplit(s, sep);
    assert Join(parts[1..], sep) == parts[1];
  }

  lemma ThreePieces(s: string, sep: char)
    requires |Split(s, sep)| == 3
    ensures s == Glue(Glue(Split(s, sep)[0], sep, Split(s, sep)[1]), sep, Split(s, sep)[2])
  {
    var parts := Split(s, sep);
    JoinSplit(s, sep);
    assert Join(parts[2..], sep) == parts[2];
    assert Join(parts[1..], sep) == parts[1] + [sep] + parts[2];
  }

  lemma {:induction false} SplitTwo(a: string, sep: char, b: string)
    requires sep !in a && sep !in b
    ensures Split(Glue(a, sep, b), sep) == [a, b]
  {
    SplitGlue(a, sep, b);
    SplitNoSep(b, sep);
  }

  lemma {:induction false} SplitThree(a: string, b: string, c: string, sep: char)
    requires sep !in a && sep !in b && sep !in c
    ensures Split(Glue(Glue(a, sep, b), sep, c), sep) == [a, b, c]
  {
    assert Glue(Glue(a, sep, b), sep, c) == Glue(a, sep, Glue(b, sep, c));
    SplitGlue(a, sep, Glue(b, sep, c));
    SplitTwo(b, sep, c);
  }

  // ---------------------------------------------------------------------------
  // Which separators each piece excludes

  lemma LowerNameAvoids(s: string, c: char)
    requires LowerName(s) && !IsNameChar(c) && !IsLower(c)
    ensures c !in s
  {
    forall i | 0 <= i < |s| ensures s[i] != c {
      if i > 0 { assert IsNameChar(s[i]); }
    }
  }

  lemma BranchNameAvoids(s: string, c: char)
    requires BranchName(s) && !IsBranchChar(c)
    ensures c !in s
  {
    forall i | 0 <= i < |s| ensures s[i] != c {
      assert IsBranchChar(s[i]);
    }
  }

  lemma DigitsAvoid(s: string, c: char)
    requires Digits(s) && !IsDigit(c)
    ensures c !in s
  {
    forall i | 0 <= i < |s| ensures s[i] != c {
      assert IsDigit(s[i]);
    }
  }

  lemma HexAvoids(s: string, n: nat)
    requires HexDigits(s, n)
    ensures ':' !in s
  {
    forall i | 0 <= i < |s| ensures s[i] != ':' {
      assert IsHex(s[i]);
    }
  }

  lemma GroupsAvoid(groups: seq<string>, c: char)
    requires DigitGroups(groups) && !IsDigit(c) && c != '.'
    ensures c !in Join(groups, '.')
  {
    forall i | 0 <= i < |groups| ensures c !in groups[i] {
      DigitsAvoid(groups[i], c);
    }
    JoinAvoids(groups, '.', c);
  }

  /** A version holds no ':' (so `name:version:...` splits at the right places). */
  lemma VersionAvoidsColon(s: string)
    requires VersionLanguage(s)
    ensures ':' !in s
  {
    if groups :| |groups| > 0 && DigitGroups(groups) && s == Join(groups, '.') {
      GroupsAvoid(groups, ':');
    } else {
      var groups, d :| |groups| > 0 && DigitGroups(groups) && Digits(d)
        && s == Glue(Join(groups, '.'), '-', d);
      GroupsAvoid(groups, ':');
      DigitsAvoid(d, ':');
    }
  }

  // ---------------------------------------------------------------------------
  // The recognizers decide the languages

  lemma VersionIff(s: string)
    ensures Version(s) <==> VersionLanguage(s)
  {
    var dash := Split(s, '-');
    if Version(s) {
      var groups := Split(dash[0], '.');
      JoinSplit(dash[0], '.');
      if |dash| == 1 {
        JoinSplit(s, '-');
        assert s == Join(groups, '.');
      } else {
        TwoPieces(s, '-');
        assert s == Glue(Join(groups, '.'), '-', dash[1]);
      }
    }
    if VersionLanguage(s) {
      if groups :| |groups| > 0 && DigitGroups(groups) && s == Join(groups, '.') {
        GroupsAvoid(groups, '-');
        SplitNoSep(s, '-');
        forall i | 0 <= i < |groups| ensures '.' !in groups[i] {
          DigitsAvoid(groups[i], '.');
        }
        SplitJoin(groups, '.');
      } else {
        var groups, d :| |groups| > 0 && DigitGroups(groups) && Digits(d)
          && s == Glue(Join(groups, '.'), '-', d);
        GroupsAvoid(groups, '-');
        DigitsAvoid(d, '-');
        SplitTwo(Join(groups, '.'), '-', d);
        forall i | 0 <= i < |groups| ensures '.' !in groups[i] {
          DigitsAvoid(groups[i], '.');
        }
        SplitJoin(groups, '.');
      }
    }
  }

  lemma PlatformAvoids(s: string, c: char)
    requires PlatformName(s) && !IsLower(c)
    ensures c !in s
  {
  }

  lemma BuildTypeAvoids(s: string)
    requires BuildType(s)
    ensures ':' !in s
  {
  }

  lemma BuildNameIff(s: string)
    ensures Matches(BuildNameP, s) <==> InLanguage(BuildNameP, s)
  {
    if Matches(BuildNameP, s) {
      BuildNameSound(s);
    }
    if InLanguage(BuildNameP, s) {
      var a, b, c :| s == Glue(Glue(a, ':', b), ':', c) && BuildNamePieces(a, b, c);
      BuildNameComplete(a, b, c);
    }
  }

  lemma BuildNameSound(s: string)
    requires Matches(BuildNameP, s)
    ensures InLanguage(BuildNameP, s)
  {
    var parts := Split(s, ':');
    ThreePieces(s, ':');
    assert BuildNamePieces(parts[0], parts[1], parts[2]);
  }

  lemma BuildNameComplete(a: string, b: string, c: string)
    requires BuildNamePieces(a, b, c)
    ensures Matches(BuildNameP, Glue(Glue(a, ':', b), ':', c))
  {
    if a != "" { PlatformAvoids(a, ':'); }
    if c != "" { LowerNameAvoids(c, ':'); }
    BuildTypeAvoids(b);
    SplitThree(a, b, c, ':');
  }

  lemma GithubProjectIff(s: string)
    ensures Matches(GithubProjectP, s) <==> InLanguage(GithubProjectP, s)
  {
    if Matches(GithubProjectP, s) {
      TwoPieces(s, '/');
    }
    if InLanguage(GithubProjectP, s) {
      var a, b :| s == Glue(a, '/', b) && BranchName(a) && BranchName(b);
      BranchNameAvoids(a, '/');
      BranchNameAvoids(b, '/');
      SplitTwo(a, '/', b);
    }
  }

  lemma NameVersionIff(s: string)
    ensures Matches(PackageNameVersionP, s) <==> InLanguage(PackageNameVersionP, s)
  {
    var parts := Split(s, ':');
    if Matches(PackageNameVersionP, s) {
      TwoPieces(s, ':');
      VersionIff(parts[1]);
    }
    if InLanguage(PackageNameVersionP, s) {
      var a, b :| s == Glue(a, ':', b) && LowerName(a) && VersionLanguage(b);
      LowerNameAvoids(a, ':');
      VersionAvoidsColon(b);
      SplitTwo(a, ':', b);
      VersionIff(b);
    }
  }

  lemma NameVersionHashIff(s: string)
    ensures Matches(PackageNameVersionHashP, s) <==> InLanguage(PackageNameVersionHashP, s)
  {
    var parts := Split(s, ':');
    if Matches(PackageNameVersionHashP, s) {
      ThreePieces(s, ':');
      VersionIff(parts[1]);
    }
    if InLanguage(PackageNameVersionHashP, s) {
      var a, b, c :| s == Glue(Glue(a, ':', b), ':', c)
        && LowerName(a) && VersionLanguage(b) && HexDigits(c, 16);
      LowerNameAvoids(a, ':');
      VersionAvoidsColon(b);
      HexAvoids(c, 16);
      SplitThree(a, b, c, ':');
      VersionIff(b);
    }
  }

  lemma NameVersionQueryIff(s: string)
    ensures Matches(PackageNameVersionQueryP, s) <==> InLanguage(PackageNameVersionQueryP, s)
  {
    var parts := Split(s, ':');
    if Matches(PackageNameVersionQueryP, s) {
      ThreePieces(s, ':');
      VersionIff(parts[1]);
    }
    if InLanguage(PackageNameVersionQueryP, s) {
      var a, b, c :| s == Glue(Glue(a, ':', b), ':', c)
        && LowerName(a) && VersionLanguage(b) && LowerName(c);
      LowerNameAvoids(a, ':');
      VersionAvoidsColon(b);
      LowerNameAvoids(c, ':');
      SplitThree(a, b, c, ':');
      VersionIff(b);
    }
  }

  /** Every recognizer accepts exactly its pattern's language. */
  lemma MatchesIff(p: Pattern, s: string)
    ensures Matches(p, s) <==> InLanguage(p, s)
  {
    match p
    case BuildNameP => BuildNameIff(s);
    case GithubProjectP => GithubProjectIff(s);
    case PackageNameVersionP => NameVersionIff(s);
    case PackageNameVersionHashP => NameVersionHashIff(s);
    case PackageNameVersionQueryP => NameVersionQueryIff(s);
    case _ =>
  }

  /** A valid pin `name:version:hash` is rebuilt from its three split pieces. */
  lemma PinPieces(s: string)
    requires Matches(PackageNameVersionHashP, s)
    ensures var parts := Split(s, ':');
      s == Glue(Glue(parts[0], ':', parts[1]), ':', parts[2])
      && NamePart(s) == parts[0] && LowerName(parts[0]) && HexDigits(parts[2], 16)
  {
    ThreePieces(s, ':');
  }

  lemma VersionExample()
    ensures Version("1.3.1")
  {
    hide Split;
    assert "1.3.1" == Join(["1", "3", "1"], '.');
    SplitJoin(["1", "3", "1"], '.');
    SplitNoSep("1.3.1", '-');
    assert Split("1.3.1", '.') == ["1", "3", "1"];
  }

  /** A pin is assembled from a valid name, version and hash. */
  lemma PinOf(a: string, b: string, c: string)
    requires LowerName(a) && Version(b) && HexDigits(c, 16)
    ensures Matches(PackageNameVersionHashP, Glue(Glue(a, ':', b), ':', c))
  {
    VersionIff(b);
    VersionAvoidsColon(b);
    LowerNameAvoids(a, ':');
    HexAvoids(c, 16);
    SplitThree(a, b, c, ':');
  }

  /** Colon-free pieces form a pin only with a valid hash. */
  lemma PinNeedsHash(a: string, b: string, c: string)
    requires ':' !in a && ':' !in b && ':' !in c && !HexDigits(c, 16)
    ensures !Matches(PackageNameVersionHashP, Glue(Glue(a, ':', b), ':', c))
  {
    SplitThree(a, b, c, ':');
  }

  /** A concrete pin: name, dotted version and sixteen lower-case hex digits. */
  lemma PinExample()
    ensures Matches(PackageNameVersionHashP, Glue(Glue("zlib", ':', "1.3.1"), ':', "0123456789abcdef"))
  {
    VersionExample();
    PinOf("zlib", "1.3.1", "0123456789abcdef");
  }

  /** Upper-case hex digits are refused. */
  lemma UpperHexRefused()
    ensures !Matches(PackageNameVersionHashP, Glue(Glue("zlib", ':', "1.3.1"), ':', "0123456789ABCDEF"))
  {
    assert !IsHex("0123456789ABCDEF"[10]);
    PinNeedsHash("zlib", "1.3.1", "0123456789ABCDEF");
  }
}
