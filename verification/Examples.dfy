/**
 * Worked inputs for `undust`, each with the `urlparse` result the standard
 * library gives for it and the default options unless stated otherwise.
 */
module Examples {
  import opened Optional
  import opened Text
  import opened Catalogs
  import opened UrlSplit
  import opened Generator
  import opened Undust

  const Defaults := Config(false, false, None, false)

  /**
   * A file one directory below the host root, such as
   * `https://x.test/app/main.php?id=1`: the generator runs once, at
   * `https://x.test/app/`, with the stem (`main`), the extension (`php`) and
   * `?` + the query (`?id=1`).
   */
  lemma FileInDirectory(url: string, p: ParsedUrl, dir: string, stem: string, ext: string)
    requires IsValidUrl(Some(p)) && p.query != ""
    requires dir != "" && '/' !in dir
    requires ext != "" && '.' !in ext
    requires forall c :: c in stem + "." + ext ==> '!' <= c <= '~' && c != '/'
    requires p.path == "/" + dir + "/" + stem + "." + ext
    ensures Prepare(url, Some(p), Defaults)
         == Run(Job([Authority(p) + "/" + dir + "/"], stem, ext, "?" + p.query))
  {
    var name := stem + "." + ext;
    OneDirectoryDown(p, dir, name);
    assert Strip(name, Whitespace) == name by {
      PrintableKept(name);
    }
    assert SplitExtension(name) == (stem, ext) by {
      DotSplit(name, stem, ext);
    }
    PrepareGenerates(url, p, Defaults, stem, ext);
  }

  lemma OneDirectoryDown(p: ParsedUrl, dir: string, name: string)
    requires dir != "" && '/' !in dir && name != "" && '/' !in name
    requires p.path == "/" + dir + "/" + name
    ensures var d := SplitUrl(p);
      d.endpoint == Some(name) && d.directories == [dir] && d.directoryUrl == Authority(p) + "/" + dir + "/"
  {
    var segs := [dir, name];
    assert segs[1..] == [name] && segs[..1] == [dir];
    assert p.path == "/" + Join(segs, "/");
    assert Join([dir], "/") == dir;
    FilePathRoundTrip(p, segs);
    DirectoryUrlShape(p);
  }

  /** Once the filters are known to pass, `Prepare` hands the generator its job. */
  lemma PrepareGenerates(url: string, p: ParsedUrl, cfg: Config, stem: string, ext: string)
    requires !ExceedsLength(url, cfg) && IsValidUrl(Some(p)) && SplitUrl(p).endpoint.Some?
    requires SplitExtension(Strip(SplitUrl(p).endpoint.value, Whitespace)) == (stem, ext)
    requires !(cfg.extensionOnly && ext == "")
    ensures var d := SplitUrl(p);
      Prepare(url, Some(p), cfg) == Run(Job(Bases(d, cfg.allDirs), stem, ext, QuerySuffix(d.query, cfg.stripQuery)))
  {
  }

  /**
   * Among the lines printed for one base there is the file name with `.bak`
   * appended (`https://x.test/app/main.php.bak?id=1` in the example above).
   */
  lemma BackupCopyIsProbed(base: string, stem: string, ext: string, query: string, order: Order)
    requires IsOrder(order) && ext != ""
    ensures base + stem + "." + ext + ".bak" + query in Emitted([base], stem, ext, query, order)
  {
    var c := base + stem + "." + ext + ".bak" + query;
    assert c in Candidates(base, stem, ext, query, order) by {
      BakEntry(base, stem, ext, query);
      assert "bak" in Extensions;
      CandidatesAreCatalogNames(base, stem, ext, query, order, c);
    }
    assert [base][..0] == [];
  }

  lemma BakEntry(base: string, stem: string, ext: string, query: string)
    requires ext != ""
    ensures FromEntry(base + stem + "." + ext + ".bak" + query, Suffix, "bak", base, stem, ext, query)
  {
    assert base + stem + "." + ext + ".bak" + query == base + stem + "." + ext + "." + "bak" + query;
  }

  /** The only way to write an endpoint as stem, dot, dot-free extension. */
  lemma DotSplit(endpoint: string, stem: string, ext: string)
    requires endpoint == stem + "." + ext && '.' !in ext
    ensures SplitExtension(endpoint) == (stem, ext)
  {
    assert endpoint[|stem|] == '.';
    var r := SplitExtension(endpoint);
    assert r.1 == endpoint[|endpoint| - |ext|..] == ext;
    assert r.0 == endpoint[..|stem|] == stem;
  }

  /**
   * One might expect a non-empty stem, but an endpoint that starts with its
   * only dot, such as `.bak`, has the empty stem: `rsplit('.', 1)` gives
   * `['', 'bak']`.
   */
  lemma DotFileHasEmptyStem()
    ensures SplitExtension(".bak") == ("", "bak")
  {
    DotSplit(".bak", "", "bak");
  }

  /**
   * An endpoint made only of whitespace, as in `https://x.test/ ?id=1`, passes
   * the endpoint filter, because `strip()` runs after it, and reaches the
   * generator with an empty stem and no extension.
   */
  lemma BlankEndpointHasEmptyStem(url: string, p: ParsedUrl)
    requires IsValidUrl(Some(p)) && p.path == "/ "
    ensures Prepare(url, Some(p), Defaults)
         == Run(Job([Authority(p) + "/"], "", "", QuerySuffix(SplitUrl(p).query, false)))
  {
    AtHostRoot(p, " ");
    assert Strip(" ", Whitespace) == "" by {
      BlankStripped();
    }
    assert SplitExtension("") == ("", "");
    PrepareGenerates(url, p, Defaults, "", "");
  }

  lemma BlankStripped()
    ensures Strip(" ", Whitespace) == ""
  {
  }

  /** A file directly below the host root is its own endpoint, with no directories. */
  lemma AtHostRoot(p: ParsedUrl, name: string)
    requires name != "" && '/' !in name && p.path == "/" + name
    ensures var d := SplitUrl(p);
      d.endpoint == Some(name) && d.directories == [] && d.directoryUrl == Authority(p) + "/"
  {
    var segs := [name];
    assert segs[..0] == [];
    assert p.path == "/" + Join(segs, "/");
    FilePathRoundTrip(p, segs);
    DirectoryUrlShape(p);
  }

  /** `https://x.test/`: the path ends with a slash, so there is no endpoint. */
  lemma HostRootIsSkipped()
    ensures Prepare("https://x.test/", Some(ParsedUrl("https", "x.test", "/", "")), Defaults)
         == Skip(NoEndpoint)
  {
    assert EndsWith("/", "/");
  }

  /**
   * With `-l 10`, a 29-character URL is skipped before it is parsed, whatever
   * the parser would have made of it.
   */
  lemma LengthLimitComesFirst(parsed: Option<ParsedUrl>)
    ensures Prepare("https://example.com/a/b/c.php", parsed, Config(false, false, Some(10), false))
         == Skip(TooLong)
  {
  }

  /**
   * With `-eo`, a URL whose endpoint has no dot (`https://x.test/README`) is
   * skipped.
   */
  lemma DotlessEndpointSkipped(url: string, p: ParsedUrl, dirs: seq<string>, name: string, cfg: Config)
    requires IsValidUrl(Some(p)) && !ExceedsLength(url, cfg) && cfg.extensionOnly
    requires forall s :: s in dirs + [name] ==> s != "" && '/' !in s
    requires p.path == "/" + Join(dirs + [name], "/")
    requires forall c :: c in name ==> '!' <= c <= '~' && c != '.'
    ensures Prepare(url, Some(p), cfg) == Skip(ExtensionsOnly)
  {
    var segs := dirs + [name];
    assert SplitUrl(p).endpoint == Some(name) by {
      FilePathRoundTrip(p, segs);
    }
    PrintableKept(name);
  }

  /**
   * With `-a`, `/a/b/c/x.php` gives four passes: the host root, then `a/`,
   * `a/b/` and `a/b/c/` below it.
   */
  lemma AllDirsWalk(p: ParsedUrl, a: string, b: string, c: string, name: string)
    requires forall s :: s in [a, b, c, name] ==> s != "" && '/' !in s
    requires p.path == "/" + a + "/" + b + "/" + c + "/" + name
    ensures var root := Authority(p) + "/";
      Bases(SplitUrl(p), true)
        == [root, root + a + "/", root + a + "/" + b + "/", root + a + "/" + b + "/" + c + "/"]
  {
    ThreeDirectories(p, a, b, c, name);
    WalkOfThree(Authority(p) + "/", a, b, c);
  }

  lemma ThreeDirectories(p: ParsedUrl, a: string, b: string, c: string, name: string)
    requires forall s :: s in [a, b, c, name] ==> s != "" && '/' !in s
    requires p.path == "/" + a + "/" + b + "/" + c + "/" + name
    ensures SplitUrl(p).directories == [a, b, c]
  {
    var segs := [a, b, c, name];
    JoinFour(a, b, c, name, "/");
    assert p.path == "/" + Join(segs, "/");
    assert segs[..3] == [a, b, c];
    FilePathRoundTrip(p, segs);
  }

  lemma JoinFour(a: string, b: string, c: string, d: string, sep: string)
    ensures sep + Join([a, b, c, d], sep) == sep + a + sep + b + sep + c + sep + d
  {
    JoinCons(c, [d], sep);
    JoinCons(b, [c, d], sep);
    JoinCons(a, [b, c, d], sep);
  }

  lemma JoinCons(x: string, rest: seq<string>, sep: string)
    requires rest != []
    ensures Join([x] + rest, sep) == x + sep + Join(rest, sep)
  {
    assert ([x] + rest)[1..] == rest;
  }

  lemma WalkOfThree(root: string, a: string, b: string, c: string)
    ensures WalkBases(root, [a, b, c])
         == [root, root + a + "/", root + a + "/" + b + "/", root + a + "/" + b + "/" + c + "/"]
  {
    var dirs := [a, b, c];
    assert dirs[..2] == [a, b] && [a, b][..1] == [a] && [a][..0] == [];
    assert DirPath([a]) == a + "/";
    assert DirPath([a, b]) == a + "/" + b + "/";
    assert DirPath(dirs) == a + "/" + b + "/" + c + "/";
    assert WalkBases(root, [a]) == [root] + [root + DirPath([a])];
    assert WalkBases(root, [a, b]) == WalkBases(root, [a]) + [root + DirPath([a, b])];
    assert WalkBases(root, dirs) == WalkBases(root, [a, b]) + [root + DirPath(dirs)];
    assert root + (a + "/") == root + a + "/";
    assert root + (a + "/" + b + "/") == root + a + "/" + b + "/";
    assert root + (a + "/" + b + "/" + c + "/") == root + a + "/" + b + "/" + c + "/";
  }
}
