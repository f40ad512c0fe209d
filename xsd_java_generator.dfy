/** The dependency-first generator of the generator module: package names
    derived from a schema's target namespace, default bindings next to each
    schema, and generateWithDependencies, which compiles every dependency
    whose episode is missing before the schemas themselves. Its generate,
    parseErrors, Arguments and Flags are those of the Compiler, Args and
    Flags modules. */
module XsdGenerator {
  import opened Wrappers
  import opened Text
  import opened Paths
  import opened Flags
  import opened Compiler
  import opened Dependencies

  // ---------------------------------------------------------------------
  // urlToPackage

  /** The URL without http://, https://, www. (removed in that order) and
      without trailing slashes. */
  function CleanUrl(url: string): string {
    TrimEnd(RemovePrefix(RemovePrefix(RemovePrefix(url, "http://"), "https://"), "www."), '/')
  }

  /** The cleaned URL split at its first '/'. */
  function UrlSplits(url: string): (splits: seq<string>)
    ensures 1 <= |splits| <= 2
  {
    SplitFirst(CleanUrl(url), '/')
  }

  /** The cleaned URL up to its first '/'. */
  function UrlHost(url: string): string {
    UrlSplits(url)[0]
  }

  /** The cleaned URL after its first '/', empty when there is none. */
  function UrlPath(url: string): string {
    if |UrlSplits(url)| > 1 then UrlSplits(url)[1] else ""
  }

  /** The host's dot labels, reversed. */
  function DomainParts(url: string): seq<string> {
    Reverse(Split(UrlHost(url), '.'))
  }

  /** The path's '/' segments, none without a path. */
  function PathParts(url: string): seq<string> {
    if |UrlSplits(url)| > 1 then Split(UrlSplits(url)[1], '/') else []
  }

  /** The package components: domain labels then path segments, blank ones
      dropped. */
  function UrlParts(url: string): seq<string> {
    NonBlank(DomainParts(url) + PathParts(url))
  }

  /** Every string of the list lowercased. */
  function LowerAll(parts: seq<string>): (r: seq<string>)
    ensures |r| == |parts|
    ensures forall i :: 0 <= i < |parts| ==> r[i] == Lower(parts[i])
  {
    if parts == [] then [] else [Lower(parts[0])] + LowerAll(parts[1..])
  }

  /** urlToPackage: the components joined with '.' and lowercased. */
  function UrlToPackage(url: string): (r: string)
    ensures forall i :: 0 <= i < |r| ==> !IsUpper(r[i])
  {
    Lower(Join(UrlParts(url), "."))
  }

  lemma {:induction false} JoinLower(parts: seq<string>)
    ensures Lower(Join(parts, ".")) == Join(LowerAll(parts), ".")
  {
    if |parts| > 1 {
      JoinLower(parts[1..]);
      LowerAppend(parts[0] + ".", Join(parts[1..], "."));
      LowerAppend(parts[0], ".");
      assert LowerAll(parts)[1..] == LowerAll(parts[1..]);
    }
  }

  lemma SplitKeepsOut(s: string, c: char, d: char)
    requires d !in s
    ensures forall i :: 0 <= i < |Split(s, c)| ==> d !in Split(s, c)[i]
    decreases |s|
  {
    if s != [] {
      SplitKeepsOut(s[1..], c, d);
    }
  }

  /** Lowercasing keeps a string non-blank and free of '.'. */
  lemma LowerKeeps(s: string)
    ensures !IsBlank(s) ==> !IsBlank(Lower(s))
    ensures '.' !in s ==> '.' !in Lower(s)
  {
    if !IsBlank(s) {
      var i :| 0 <= i < |s| && !IsWhitespace(s[i]);
      assert !IsWhitespace(Lower(s)[i]);
    }
    if '.' !in s {
      forall i | 0 <= i < |s| ensures Lower(s)[i] != '.' {
        assert s[i] != '.';
      }
    }
  }

  lemma ReverseMembers<T>(xs: seq<T>)
    ensures forall x :: x in Reverse(xs) <==> x in xs
  {
    forall x | x in xs ensures x in Reverse(xs) {
      var k :| 0 <= k < |xs| && xs[k] == x;
      assert Reverse(xs)[|xs| - 1 - k] == x;
    }
  }

  /** The components hold no '.' when the URL's path holds none. */
  lemma UrlPartsDotFree(url: string)
    requires '.' !in UrlPath(url)
    ensures forall i :: 0 <= i < |UrlParts(url)| ==> '.' !in UrlParts(url)[i] && !IsBlank(UrlParts(url)[i])
  {
    DomainPartsDotFree(url);
    PathPartsDotFree(url);
    var all := DomainParts(url) + PathParts(url);
    forall i | 0 <= i < |UrlParts(url)| ensures '.' !in UrlParts(url)[i] {
      assert UrlParts(url)[i] in all;
    }
  }

  lemma DomainPartsDotFree(url: string)
    ensures forall x :: x in DomainParts(url) ==> '.' !in x
  {
    var labels := Split(UrlHost(url), '.');
    ReverseMembers(labels);
    forall x | x in DomainParts(url) ensures '.' !in x {
      var k :| 0 <= k < |labels| && labels[k] == x;
    }
  }

  lemma PathPartsDotFree(url: string)
    requires '.' !in UrlPath(url)
    ensures forall x :: x in PathParts(url) ==> '.' !in x
  {
    if |UrlSplits(url)| > 1 {
      SplitKeepsOut(UrlSplits(url)[1], '/', '.');
      forall x | x in PathParts(url) ensures '.' !in x {
        var k :| 0 <= k < |PathParts(url)| && PathParts(url)[k] == x;
      }
    }
  }

  /** When the URL's path holds no '.', the package splits at '.' into
      exactly the lowercased components, none of them blank; a URL with no
      component gives the empty package. */
  lemma UrlToPackageComponents(url: string)
    requires '.' !in UrlPath(url)
    ensures UrlParts(url) == [] ==> UrlToPackage(url) == ""
    ensures UrlParts(url) != [] ==>
      && Split(UrlToPackage(url), '.') == LowerAll(UrlParts(url))
      && forall i :: 0 <= i < |Split(UrlToPackage(url), '.')| ==> !IsBlank(Split(UrlToPackage(url), '.')[i])
  {
    var parts := UrlParts(url);
    if parts != [] {
      UrlPartsDotFree(url);
      JoinLower(parts);
      forall i | 0 <= i < |parts| ensures '.' !in LowerAll(parts)[i] && !IsBlank(LowerAll(parts)[i]) {
        LowerKeeps(parts[i]);
      }
      SplitJoin(LowerAll(parts), '.');
    }
  }

  /** No leading or trailing '.' and no two '.' in a row. */
  predicate WellDotted(s: string) {
    && s != [] && s[0] != '.' && s[|s| - 1] != '.'
    && forall i :: 0 <= i < |s| - 1 ==> !(s[i] == '.' && s[i + 1] == '.')
  }

  lemma {:induction false} JoinWellDotted(parts: seq<string>)
    requires |parts| >= 1
    requires forall i :: 0 <= i < |parts| ==> parts[i] != [] && '.' !in parts[i]
    ensures WellDotted(Join(parts, "."))
  {
    if |parts| > 1 {
      JoinWellDotted(parts[1..]);
      var head, tail := parts[0], Join(parts[1..], ".");
      var s := head + "." + tail;
      assert Join(parts, ".") == s;
      forall i | 0 <= i < |s| - 1 ensures !(s[i] == '.' && s[i + 1] == '.') {
        if i < |head| - 1 {
          assert s[i] == head[i];
        } else if i == |head| - 1 {
          assert s[i] == head[i];
        } else if i == |head| {
          assert s[i + 1] == tail[0];
        } else {
          assert s[i] == tail[i - |head| - 1] && s[i + 1] == tail[i - |head|];
        }
      }
      assert s[0] == head[0];
      assert s[|s| - 1] == tail[|tail| - 1];
    } else {
      assert parts[0][0] in parts[0];
      assert parts[0][|parts[0]| - 1] in parts[0];
    }
  }

  lemma WellDottedNoDoubleDot(s: string)
    requires WellDotted(s)
    ensures !Contains(s, "..")
  {
    forall k | 0 <= k && k + 2 <= |s| ensures !OccursAt(s, "..", k) {
      assert s[k..k + 2][0] == s[k] && s[k..k + 2][1] == s[k + 1];
    }
  }

  /** The lowercased components of a URL whose path holds no '.' are
      non-empty and free of '.'. */
  lemma LowerPartsDotFree(url: string)
    requires '.' !in UrlPath(url)
    ensures forall i :: 0 <= i < |UrlParts(url)| ==> LowerAll(UrlParts(url))[i] != [] && '.' !in LowerAll(UrlParts(url))[i]
  {
    var parts := UrlParts(url);
    UrlPartsDotFree(url);
    forall i | 0 <= i < |parts| ensures LowerAll(parts)[i] != [] && '.' !in LowerAll(parts)[i] {
      LowerKeeps(parts[i]);
    }
  }

  /** When the URL's path holds no '.' and some component is non-blank, the
      package has no leading or trailing '.' and no "..". */
  lemma UrlToPackageWellDotted(url: string)
    requires '.' !in UrlPath(url) && UrlParts(url) != []
    ensures WellDotted(UrlToPackage(url)) && !Contains(UrlToPackage(url), "..")
  {
    var parts := UrlParts(url);
    LowerPartsDotFree(url);
    JoinLower(parts);
    JoinWellDotted(LowerAll(parts));
    WellDottedNoDoubleDot(UrlToPackage(url));
  }

  lemma NotStartsWith(s: string, prefix: string)
    requires s != [] && prefix != [] && s[0] != prefix[0]
    ensures !StartsWith(s, prefix) && RemovePrefix(s, prefix) == s
  {
    if |prefix| <= |s| {
      assert s[..|prefix|][0] == s[0];
    }
  }

  lemma {:induction false} FirstIndexOfJoin(a: string, c: char, b: string)
    requires c !in a
    ensures c in a + [c] + b && FirstIndexOf(a + [c] + b, c) == |a|
    decreases |a|
  {
    var s := a + [c] + b;
    assert s[|a|] == c;
    if a != [] {
      FirstIndexOfJoin(a[1..], c, b);
      assert s[1..] == a[1..] + [c] + b;
      assert s[0] == a[0] && a[0] != c;
    }
  }

  /** Splitting at the first delimiter of a + [c] + b, when a holds no c. */
  lemma SplitFirstJoin(a: string, c: char, b: string)
    requires c !in a
    ensures SplitFirst(a + [c] + b, c) == [a, b]
  {
    FirstIndexOfJoin(a, c, b);
    var s := a + [c] + b;
    assert s[..|a|] == a && s[|a| + 1..] == b;
  }

  /** A host label free of '.' and '/' other than "www", followed by '.',
      starts neither with https:// nor with www. */
  lemma NoSchemeLeft(h: string, rest: string)
    requires h != "www" && '.' !in h && '/' !in h
    ensures var s := h + "." + rest; RemovePrefix(RemovePrefix(s, "https://"), "www.") == s
  {
    var s := h + "." + rest;
    assert s[|h|] == '.';
    if |s| >= 8 {
      if |h| < 8 {
        assert s[..8][|h|] == '.' && "https://"[|h|] != '.';
      } else {
        assert s[..8][6] == h[6] && h[6] != '/';
      }
    }
    assert !StartsWith(s, "https://");
    if |s| >= 4 {
      if |h| < 3 {
        assert s[..4][|h|] == '.' && "www."[|h|] == 'w';
      } else if |h| == 3 {
        var k :| 0 <= k < 3 && h[k] != "www"[k];
        assert s[..4][k] == h[k];
      } else {
        assert s[..4][3] == h[3] && h[3] != '.';
      }
    }
    assert !StartsWith(s, "www.");
  }

  /** s is a path segment fit for a package component: non-blank, free of
      '/' and upper-case letters. */
  predicate Segment(s: string) {
    !IsBlank(s) && '/' !in s && forall i :: 0 <= i < |s| ==> !IsUpper(s[i])
  }

  /** s is a host label fit for a package component: a segment free of '.'. */
  predicate Label(s: string) {
    Segment(s) && '.' !in s
  }

  lemma NotInConcat<T>(a: seq<T>, c: T, b: seq<T>, d: T)
    requires d !in a && d !in b && d != c
    ensures d !in a + [c] + b
  {
  }

  /** The URL http://<h1>.<h2>/<s1>/<s2> is already clean. */
  lemma CleanShape(h1: string, h2: string, s1: string, s2: string)
    requires Label(h1) && Label(h2) && Segment(s1) && Segment(s2) && h1 != "www"
    ensures CleanUrl("http://" + (h1 + "." + h2 + "/" + (s1 + "/" + s2))) == h1 + "." + h2 + "/" + (s1 + "/" + s2)
  {
    var path := s1 + "/" + s2;
    var rest := h1 + "." + h2 + "/" + path;
    var url := "http://" + rest;
    assert url[..7] == "http://";
    assert RemovePrefix(url, "http://") == rest;
    assert rest == h1 + "." + (h2 + "/" + path);
    NoSchemeLeft(h1, h2 + "/" + path);
    assert s2 != [];
    LastOfNested(h1 + "." + h2 + "/", s1 + "/", s2);
    assert s2[|s2| - 1] in s2;
  }

  lemma LastOfNested<T>(a: seq<T>, b: seq<T>, c: seq<T>)
    requires c != []
    ensures (a + (b + c))[|a + (b + c)| - 1] == c[|c| - 1]
  {
  }

  /** Its host is <h1>.<h2> and its path <s1>/<s2>. */
  lemma SplitsShape(h1: string, h2: string, s1: string, s2: string)
    requires Label(h1) && Label(h2) && Segment(s1) && Segment(s2) && h1 != "www"
    ensures UrlSplits("http://" + (h1 + "." + h2 + "/" + (s1 + "/" + s2))) == [h1 + "." + h2, s1 + "/" + s2]
  {
    CleanShape(h1, h2, s1, s2);
    NotInConcat(h1, '.', h2, '/');
    SplitFirstJoin(h1 + "." + h2, '/', s1 + "/" + s2);
  }

  /** Splitting <x><c><y> at c, when neither part holds c. */
  lemma SplitTwo(x: string, c: char, y: string)
    requires c !in x && c !in y
    ensures Split(x + [c] + y, c) == [x, y]
  {
    SplitAppendDelimiter(x, y, c);
    SplitNoDelimiter(y, c);
  }

  /** A host <h1>.<h2> gives the domain labels <h2>, <h1>. */
  lemma DomainOf(url: string, h1: string, h2: string)
    requires UrlHost(url) == h1 + "." + h2 && '.' !in h1 && '.' !in h2
    ensures DomainParts(url) == [h2, h1]
  {
    SplitTwo(h1, '.', h2);
  }

  /** A path <s1>/<s2> gives the segments <s1>, <s2>. */
  lemma PathOf(url: string, s1: string, s2: string)
    requires |UrlSplits(url)| == 2 && UrlSplits(url)[1] == s1 + "/" + s2 && '/' !in s1 && '/' !in s2
    ensures PathParts(url) == [s1, s2]
  {
    SplitTwo(s1, '/', s2);
  }

  /** Its domain labels are <h2>, <h1> and its path segments <s1>, <s2>. */
  lemma DomainAndPathShape(h1: string, h2: string, s1: string, s2: string)
    requires Label(h1) && Label(h2) && Segment(s1) && Segment(s2) && h1 != "www"
    ensures var url := "http://" + (h1 + "." + h2 + "/" + (s1 + "/" + s2));
      DomainParts(url) == [h2, h1] && PathParts(url) == [s1, s2]
  {
    var url := "http://" + (h1 + "." + h2 + "/" + (s1 + "/" + s2));
    SplitsShape(h1, h2, s1, s2);
    DomainOf(url, h1, h2);
    PathOf(url, s1, s2);
  }

  /** Four non-blank pieces, two of the host and two of the path, are the
      components in that order. */
  lemma PiecesAreParts(url: string, a: string, b: string, c: string, d: string)
    requires DomainParts(url) == [a, b] && PathParts(url) == [c, d]
    requires !IsBlank(a) && !IsBlank(b) && !IsBlank(c) && !IsBlank(d)
    ensures UrlParts(url) == [a, b, c, d]
  {
    Concat22(a, b, c, d);
    NonBlankFour(a, b, c, d);
  }

  lemma NonBlankFour(a: string, b: string, c: string, d: string)
    requires !IsBlank(a) && !IsBlank(b) && !IsBlank(c) && !IsBlank(d)
    ensures NonBlank([a, b, c, d]) == [a, b, c, d]
  {
    NonBlankCons(d, []);
    assert [d] + [] == [d];
    NonBlankCons(c, [d]);
    assert [c] + [d] == [c, d];
    NonBlankCons(b, [c, d]);
    Concat12(b, c, d);
    NonBlankCons(a, [b, c, d]);
    Concat13(a, b, c, d);
  }

  lemma NonBlankCons(x: string, rest: seq<string>)
    requires !IsBlank(x)
    ensures NonBlank([x] + rest) == [x] + NonBlank(rest)
  {
    assert ([x] + rest)[1..] == rest;
  }

  /** Its components are <h2>, <h1>, <s1>, <s2>. */
  lemma PartsShape(h1: string, h2: string, s1: string, s2: string)
    requires Label(h1) && Label(h2) && Segment(s1) && Segment(s2) && h1 != "www"
    ensures UrlParts("http://" + (h1 + "." + h2 + "/" + (s1 + "/" + s2))) == [h2, h1, s1, s2]
  {
    DomainAndPathShape(h1, h2, s1, s2);
    PiecesAreParts("http://" + (h1 + "." + h2 + "/" + (s1 + "/" + s2)), h2, h1, s1, s2);
  }

  lemma Concat22<T>(a: T, b: T, c: T, d: T)
    ensures [a, b] + [c, d] == [a, b, c, d]
  {
  }

  lemma Concat13<T>(a: T, b: T, c: T, d: T)
    ensures [a] + [b, c, d] == [a, b, c, d]
  {
  }

  lemma Concat12<T>(a: T, b: T, c: T)
    ensures [a] + [b, c] == [a, b, c]
  {
  }

  lemma JoinCons(x: string, rest: seq<string>, sep: string)
    requires rest != []
    ensures Join([x] + rest, sep) == x + sep + Join(rest, sep)
  {
    assert ([x] + rest)[1..] == rest;
  }

  /** A URL http://<h1>.<h2>/<s1>/<s2> gives the package <h2>.<h1>.<s1>.<s2>. */
  lemma UrlToPackageShape(h1: string, h2: string, s1: string, s2: string)
    requires Label(h1) && Label(h2) && Segment(s1) && Segment(s2) && h1 != "www"
    ensures UrlToPackage("http://" + (h1 + "." + h2 + "/" + (s1 + "/" + s2))) == h2 + "." + (h1 + "." + (s1 + "." + s2))
  {
    PartsShape(h1, h2, s1, s2);
    JoinCons(s1, [s2], ".");
    JoinCons(h1, [s1, s2], ".");
    JoinCons(h2, [h1, s1, s2], ".");
    Concat13(h2, h1, s1, s2);
    Concat12(h1, s1, s2);
    var joined := h2 + "." + (h1 + "." + (s1 + "." + s2));
    LowerAppend(h2 + ".", h1 + "." + (s1 + "." + s2));
    LowerAppend(h2, ".");
    LowerAppend(h1 + ".", s1 + "." + s2);
    LowerAppend(h1, ".");
    LowerAppend(s1 + ".", s2);
    LowerAppend(s1, ".");
    LowerUnchanged(h1);
    LowerUnchanged(h2);
    LowerUnchanged(s1);
    LowerUnchanged(s2);
    LowerUnchanged(".");
  }

  lemma LabelOf(s: string)
    requires |s| > 0 && !IsWhitespace(s[0])
    requires forall i :: 0 <= i < |s| ==> 'a' <= s[i] <= 'z'
    ensures Label(s)
  {
  }

  /** A '.' at the end of a path segment survives into the package and
      makes "..": the blank filter works on the '/' segments, not on the
      final '.' components. So the property of UrlToPackageWellDotted can
      fail when a segment starts or ends with '.' (UrlToPackageInnerDot
      shows a '.' inside a segment does no harm). */
  lemma UrlToPackageDoubleDot()
    ensures UrlToPackage("http://a.de/x./z") == "de.a.x..z"
    ensures Contains(UrlToPackage("http://a.de/x./z"), "..")
  {
    LabelOf("a");
    LabelOf("de");
    LabelOf("z");
    assert Segment("x.") by {
      assert "x."[0] == 'x' && "x."[1] == '.';
    }
    UrlToPackageShape("a", "de", "x.", "z");
    DoubleDotUrl();
    DoubleDotPackage();
    DoubleDotOccurs();
  }

  lemma DoubleDotOccurs()
    ensures Contains("de.a.x..z", "..")
  {
    assert OccursAt("de.a.x..z", "..", 6);
  }

  lemma DoubleDotUrl()
    ensures "http://a.de/x./z" == "http://" + ("a" + "." + "de" + "/" + ("x." + "/" + "z"))
  {
  }

  lemma DoubleDotPackage()
    ensures "de" + "." + ("a" + "." + ("x." + "." + "z")) == "de.a.x..z"
  {
  }

  /** A '.' inside a path segment is harmless: a version segment such as
      "v1.0" is kept whole and the package is still well dotted. A path
      free of '.' is a sufficient condition for UrlToPackageWellDotted, not
      a necessary one. */
  lemma UrlToPackageInnerDot()
    ensures UrlToPackage("http://a.de/v1.0/x") == "de.a.v1.0.x"
    ensures WellDotted(UrlToPackage("http://a.de/v1.0/x"))
    ensures !Contains(UrlToPackage("http://a.de/v1.0/x"), "..")
  {
    LabelOf("a");
    LabelOf("de");
    LabelOf("x");
    assert Segment("v1.0") by {
      assert "v1.0"[0] == 'v' && "v1.0"[1] == '1' && "v1.0"[2] == '.' && "v1.0"[3] == '0';
    }
    UrlToPackageShape("a", "de", "v1.0", "x");
    InnerDotUrl();
    InnerDotPackage();
    InnerDotWellDotted();
  }

  lemma InnerDotWellDotted()
    ensures WellDotted("de.a.v1.0.x") && !Contains("de.a.v1.0.x", "..")
  {
    var p := "de.a.v1.0.x";
    assert p[0] == 'd' && p[1] == 'e' && p[2] == '.' && p[3] == 'a' && p[4] == '.' && p[5] == 'v';
    assert p[6] == '1' && p[7] == '.' && p[8] == '0' && p[9] == '.' && p[10] == 'x';
    WellDottedNoDoubleDot(p);
  }

  lemma InnerDotUrl()
    ensures "http://a.de/v1.0/x" == "http://" + ("a" + "." + "de" + "/" + ("v1.0" + "/" + "x"))
  {
  }

  lemma InnerDotPackage()
    ensures "de" + "." + ("a" + "." + ("v1.0" + "." + "x")) == "de.a.v1.0.x"
  {
  }

  /** The example the generator's namespaces follow. */
  lemma UrlToPackageExample()
    ensures UrlToPackage("http://alexanderwolz.de/schema/articles") == "de.alexanderwolz.schema.articles"
  {
    LabelOf("alexanderwolz");
    LabelOf("de");
    LabelOf("schema");
    LabelOf("articles");
    UrlToPackageShape("alexanderwolz", "de", "schema", "articles");
    ExampleUrl();
    ExamplePackage();
  }

  lemma ExampleUrl()
    ensures "http://alexanderwolz.de/schema/articles" == "http://" + ("alexanderwolz" + "." + "de" + "/" + ("schema" + "/" + "articles"))
  {
  }

  lemma ExamplePackage()
    ensures "de" + "." + ("alexanderwolz" + "." + ("schema" + "." + "articles")) == "de.alexanderwolz.schema.articles"
  {
  }

  lemma LowerUnchanged(s: string)
    requires forall i :: 0 <= i < |s| ==> !IsUpper(s[i])
    ensures Lower(s) == s
  {
  }


  // ---------------------------------------------------------------------
  // getPackageNameFromNamespace

  /** getPackageNameFromNamespace: the file is read (a missing one throws);
      without a targetNamespace the package is "generated"; with one it is
      the namespace's package, '.', and the base name after its first '_',
      which throws IndexOutOfBoundsException when the base name has no '_'.
      The regular expression that finds the namespace is the parameter
      findNamespace. */
  function PackageNameFromNamespace(files: FileSystem, schemaFile: Path, findNamespace: string -> Option<string>): (r: Result<string>)
    ensures r.Err? <==>
      schemaFile !in files || (findNamespace(files[schemaFile]).Some? && '_' !in NameWithoutExtension(schemaFile))
    ensures r.Ok? ==> (r.value == "generated" <==> findNamespace(files[schemaFile]).None?)
  {
    if schemaFile !in files then Err(FileNotFound(schemaFile))
    else match findNamespace(files[schemaFile])
      case None => Ok("generated")
      case Some(namespace) =>
        var parts := SplitFirst(NameWithoutExtension(schemaFile), '_');
        if |parts| < 2 then Err(IndexOutOfBounds(1, |parts|))
        else
          DotNotGenerated(UrlToPackage(namespace), parts[1]);
          Ok(UrlToPackage(namespace) + "." + parts[1])
  }

  lemma DotNotGenerated(a: string, b: string)
    ensures a + "." + b != "generated"
  {
    assert (a + "." + b)[|a|] == '.';
    assert '.' !in "generated";
  }

  /** The cases of getPackageNameFromNamespace, each in both directions. */
  lemma PackageNameCases(files: FileSystem, schemaFile: Path, findNamespace: string -> Option<string>)
    ensures var r := PackageNameFromNamespace(files, schemaFile, findNamespace);
      && (r == Err(FileNotFound(schemaFile)) <==> schemaFile !in files)
      && (r == Ok("generated") <==> schemaFile in files && findNamespace(files[schemaFile]).None?)
      && (r.Err? && r.error.IndexOutOfBounds? <==>
            schemaFile in files && findNamespace(files[schemaFile]).Some? && '_' !in NameWithoutExtension(schemaFile))
  {
    if schemaFile in files && findNamespace(files[schemaFile]).Some? {
      var parts := SplitFirst(NameWithoutExtension(schemaFile), '_');
      if |parts| >= 2 {
        DotNotGenerated(UrlToPackage(findNamespace(files[schemaFile]).value), parts[1]);
      }
    }
  }

  /** With a namespace and a '_' in the base name, the package is the
      namespace's package, '.', and the text after the first '_'. */
  lemma PackageNameVersioned(files: FileSystem, schemaFile: Path, findNamespace: string -> Option<string>)
    requires schemaFile in files && findNamespace(files[schemaFile]).Some?
    requires '_' in NameWithoutExtension(schemaFile)
    ensures var base := NameWithoutExtension(schemaFile);
      var i := FirstIndexOf(base, '_');
      && '_' !in base[..i]
      && PackageNameFromNamespace(files, schemaFile, findNamespace)
         == Ok(UrlToPackage(findNamespace(files[schemaFile]).value) + "." + base[i + 1..])
  {
    var base := NameWithoutExtension(schemaFile);
    var i := FirstIndexOf(base, '_');
    assert base == base[..i] + [base[i]] + base[i + 1..];
    SplitFirstJoin(base[..i], '_', base[i + 1..]);
  }

  // ---------------------------------------------------------------------
  // getDefaultBindings, generateWithEpisode, generateWithDependencies

  /** The default binding of a schema: <base>.xjb.xml next to it, in the
      schema's own directory. */
  function DefaultBindingOf(schema: Path): (b: Path)
    ensures FileName(b) == NameWithoutExtension(schema) + ".xjb.xml"
    ensures ParentDir(b) == ParentDir(schema)
  {
    ChildInverse(ParentDir(schema), NameWithoutExtension(schema) + ".xjb.xml");
    Child(ParentDir(schema), NameWithoutExtension(schema) + ".xjb.xml")
  }

  /** The image of each element under f, in order, kept when it exists. */
  function Existing<S>(files: FileSystem, xs: seq<S>, f: S -> Path): (ps: seq<Path>)
    ensures |ps| <= |xs|
    ensures forall i :: 0 <= i < |ps| ==> ps[i] in files
  {
    if xs == [] then []
    else
      var front := Existing(files, xs[..|xs| - 1], f);
      var last := f(xs[|xs| - 1]);
      if last in files then front + [last] else front
  }

  lemma {:induction false} ExistingExact<S>(files: FileSystem, xs: seq<S>, f: S -> Path, p: Path)
    ensures p in Existing(files, xs, f) <==> p in files && exists i :: 0 <= i < |xs| && p == f(xs[i])
    decreases |xs|
  {
    if xs != [] {
      var front := xs[..|xs| - 1];
      ExistingExact(files, front, f, p);
      if p in Existing(files, front, f) {
        var i :| 0 <= i < |front| && p == f(front[i]);
        assert xs[i] == front[i];
      } else if p == f(xs[|xs| - 1]) {
      } else if p in files {
        forall i | 0 <= i < |xs| ensures p != f(xs[i]) {
          if i < |front| {
            assert xs[i] == front[i];
          }
        }
      }
    }
  }

  /** getDefaultBindings: the default binding of each schema, in schema
      order, kept only when it exists. */
  function DefaultBindings(files: FileSystem, schemas: seq<Path>): (bs: seq<Path>)
    ensures |bs| <= |schemas|
    ensures forall i :: 0 <= i < |bs| ==> bs[i] in files
  {
    Existing(files, schemas, DefaultBindingOf)
  }

  /** The bindings are exactly the existing default bindings of the schemas,
      at most one per schema. */
  lemma DefaultBindingsExact(files: FileSystem, schemas: seq<Path>, b: Path)
    ensures |DefaultBindings(files, schemas)| <= |schemas|
    ensures b in DefaultBindings(files, schemas) <==>
      b in files && exists i :: 0 <= i < |schemas| && b == DefaultBindingOf(schemas[i])
  {
    ExistingExact(files, schemas, DefaultBindingOf, b);
  }

  /** The request generateWithEpisode makes: the schema alone, its default
      bindings, no episodes, an episode to be created. */
  function EpisodeRequest(files: FileSystem, schema: Path, catalog: Option<Path>, flags: Option<seq<Flag>>,
                          packageName: Option<string>): Request {
    Request([schema], DefaultBindings(files, [schema]), [], catalog, true, flags, packageName)
  }

  /** generateWithEpisode: generate with that request; its result is dropped,
      its failures propagate. */
  method GenerateWithEpisode(env: Env, xjc: Xjc, w: World, schema: Path, catalog: Option<Path>,
                             flags: Option<seq<Flag>>, packageName: Option<string>)
    returns (outcome: Outcome, w': World)
    ensures Step(outcome, w') == GenerateSpec(env, xjc, w, EpisodeRequest(w.files, schema, catalog, flags, packageName))
  {
    var schemas := [schema];
    var bindings := DefaultBindings(w.files, schemas);
    outcome, w' := Generate(env, xjc, w, Request(schemas, bindings, [], catalog, true, flags, packageName));
  }

  /** A dependency is compiled by generateWithEpisode with its defaults: no
      catalog, default flags, no package name. */
  function EpisodePlan(): Plan {
    (dep: Path, files: FileSystem) => EpisodeRequest(files, dep, None, None, None)
  }

  /** generateWithDependencies over dependency files: each dependency whose
      episode is missing is compiled, then the schemas are compiled with
      their default bindings, looked up after the loop, and the episodes of
      all dependencies. */
  function WithDependenciesSpec(env: Env, xjc: Xjc, w: World, schemas: seq<Path>, dependencies: seq<Path>,
                                catalog: Option<Path>, createEpisode: bool, flags: Option<seq<Flag>>,
                                packageName: Option<string>): Step {
    var s := EnsureAll(env, xjc, EpisodePlan(), w, dependencies);
    if s.outcome.Fail? then s
    else
      var bindings := DefaultBindings(s.world.files, schemas);
      GenerateSpec(env, xjc, s.world, Request(schemas, bindings, EpisodesOf(env, dependencies), catalog, createEpisode, flags, packageName))
  }

  method GenerateWithDependencies(env: Env, xjc: Xjc, w: World, schemas: seq<Path>, dependencies: seq<Path>,
                                  catalog: Option<Path>, createEpisode: bool, flags: Option<seq<Flag>>,
                                  packageName: Option<string>)
    returns (outcome: Outcome, w': World)
    ensures Step(outcome, w') == WithDependenciesSpec(env, xjc, w, schemas, dependencies, catalog, createEpisode, flags, packageName)
  {
    var episodes;
    outcome, w', episodes := EnsureEpisodes(env, xjc, EpisodePlan(), w, dependencies);
    if outcome.Fail? {
      return;
    }
    var bindings := DefaultBindings(w'.files, schemas);
    outcome, w' := Generate(env, xjc, w', Request(schemas, bindings, episodes, catalog, createEpisode, flags, packageName));
  }

  /** A dependency compile is the dependency alone with no episodes and an
      episode to be created, and happens only when its episode is missing. */
  lemma DependencyCompile(env: Env, xjc: Xjc, w: World, dep: Path)
    ensures var req := EpisodePlan()(dep, w.files);
      && req.schemas == [dep] && req.episodes == [] && req.createEpisode
      && (EpisodeFile(env, dep) in w.files ==> EnsureOne(env, xjc, EpisodePlan(), w, dep) == Step(Pass, w))
      && (EpisodeFile(env, dep) !in w.files ==>
            EnsureOne(env, xjc, EpisodePlan(), w, dep).world.requests == w.requests + [req])
  {
    EnsureOneContract(env, xjc, EpisodePlan(), w, dep);
  }

  /** When the final call is reached it is the last request, and it passes
      exactly one episode per dependency, in dependency order. */
  lemma WithDependenciesFinalCall(env: Env, xjc: Xjc, w: World, schemas: seq<Path>, dependencies: seq<Path>,
                                  catalog: Option<Path>, createEpisode: bool, flags: Option<seq<Flag>>,
                                  packageName: Option<string>)
    requires EnsureAll(env, xjc, EpisodePlan(), w, dependencies).outcome.Pass?
    ensures var s := WithDependenciesSpec(env, xjc, w, schemas, dependencies, catalog, createEpisode, flags, packageName);
      && s.world.requests != []
      && var r := Last(s.world.requests);
      && r.schemas == schemas && r.createEpisode == createEpisode
      && |r.episodes| == |dependencies|
      && (forall i :: 0 <= i < |dependencies| ==> r.episodes[i] == EpisodeFile(env, dependencies[i]))
  {
    var s := EnsureAll(env, xjc, EpisodePlan(), w, dependencies);
    var req := Request(schemas, DefaultBindings(s.world.files, schemas), EpisodesOf(env, dependencies), catalog, createEpisode, flags, packageName);
    GenerateContract(env, xjc, s.world, req);
    LastSnoc(s.world.requests, req);
  }

  /** With every dependency's episode present only the final call is made. */
  lemma WithDependenciesAllBuilt(env: Env, xjc: Xjc, w: World, schemas: seq<Path>, dependencies: seq<Path>,
                                 catalog: Option<Path>, createEpisode: bool, flags: Option<seq<Flag>>,
                                 packageName: Option<string>)
    requires forall i :: 0 <= i < |dependencies| ==> EpisodeFile(env, dependencies[i]) in w.files
    ensures WithDependenciesSpec(env, xjc, w, schemas, dependencies, catalog, createEpisode, flags, packageName)
      == GenerateSpec(env, xjc, w, Request(schemas, DefaultBindings(w.files, schemas), EpisodesOf(env, dependencies),
                                           catalog, createEpisode, flags, packageName))
  {
    EnsureAllBuiltIsNoOp(env, xjc, EpisodePlan(), w, dependencies);
  }

  /** Every dependency name resolved against the schema folder. */
  function ChildrenOf(dir: Path, names: seq<string>): (ps: seq<Path>)
    ensures |ps| == |names|
    ensures forall i :: 0 <= i < |names| ==> ps[i] == Child(Some(dir), names[i])
  {
    if names == [] then [] else ChildrenOf(dir, names[..|names| - 1]) + [Child(Some(dir), names[|names| - 1])]
  }

  /** The overload taking names: schema and dependencies resolved against
      the schema folder. */
  method GenerateWithDependencyNames(env: Env, xjc: Xjc, w: World, schemaDir: Path, schema: string, names: seq<string>,
                                     catalog: Option<Path>, createEpisode: bool, flags: Option<seq<Flag>>,
                                     packageName: Option<string>)
    returns (outcome: Outcome, w': World)
    ensures Step(outcome, w') == WithDependenciesSpec(env, xjc, w, [Child(Some(schemaDir), schema)], ChildrenOf(schemaDir, names),
                                                      catalog, createEpisode, flags, packageName)
  {
    var schemaFiles := [Child(Some(schemaDir), schema)];
    var dependencyFiles := ChildrenOf(schemaDir, names);
    outcome, w' := GenerateWithDependencies(env, xjc, w, schemaFiles, dependencyFiles, catalog, createEpisode, flags, packageName);
  }
}
