/**
 * `undust`: the filters one input URL goes through, the stem/extension split
 * of its endpoint, the query suffix, and the one or more base URLs for which
 * the candidates are generated.
 */
module Undust {
  import opened Optional
  import opened Text
  import opened Catalogs
  import opened UrlSplit
  import opened Generator

  /** The command-line options the core reads: `-sq`, `-eo`, `-l` and `-a`. */
  datatype Config = Config(
    stripQuery: bool,
    extensionOnly: bool,
    length: Option<int>,   // None when `-l` is not given
    allDirs: bool)

  /** Why a URL yields no candidates. */
  datatype SkipReason =
    | TooLong           // longer than `-l`; the source writes no diagnostic
    | NotValidHttpUrl   // diagnostic "(not a valid http url)"
    | NoEndpoint        // diagnostic "(no endpoint to mutate)"
    | ExtensionsOnly    // diagnostic "(extentions-only enabled)"

  /** What `undust` did with one URL, besides the lines it printed. */
  datatype Outcome = Generated | Skipped(reason: SkipReason)

  /** The characters for which Python's `str.isspace` holds, which `str.strip()` removes. */
  const Whitespace: set<char> :=
    {'\t', '\n', '\U{0B}', '\U{0C}', '\r', '\U{1C}', '\U{1D}', '\U{1E}', '\U{1F}', ' ',
     '\U{85}', '\U{A0}', '\U{1680}', '\U{2000}', '\U{2001}', '\U{2002}', '\U{2003}',
     '\U{2004}', '\U{2005}', '\U{2006}', '\U{2007}', '\U{2008}', '\U{2009}', '\U{200A}',
     '\U{2028}', '\U{2029}', '\U{202F}', '\U{205F}', '\U{3000}'}

  /** `if args.length: if len(url) > args.length`: a limit of 0 or none means no limit. */
  predicate ExceedsLength(url: string, cfg: Config)
  {
    cfg.length.Some? && cfg.length.value != 0 && |url| > cfg.length.value
  }

  /**
   * Without `-l`, or with `-l 0`, no URL is too long; a negative limit is
   * truthy and below every length, so it rejects every URL; a positive limit
   * rejects exactly the URLs longer than it.
   */
  lemma LengthLimit(url: string, cfg: Config)
    ensures cfg.length.None? || cfg.length.value == 0 ==> !ExceedsLength(url, cfg)
    ensures cfg.length.Some? && cfg.length.value < 0 ==> ExceedsLength(url, cfg)
    ensures cfg.length.Some? && cfg.length.value > 0 ==> (ExceedsLength(url, cfg) <==> |url| > cfg.length.value)
  {
  }

  /**
   * The endpoint cut at its last dot into stem and extension; without a dot
   * the stem is the whole endpoint and the extension is empty.
   */
  function SplitExtension(endpoint: string): (r: (string, string))
    ensures '.' in endpoint ==> r.0 + "." + r.1 == endpoint && '.' !in r.1
    ensures '.' !in endpoint ==> r.0 == endpoint && r.1 == ""
  {
    if '.' in endpoint then
      var parts := RSplitOnce(endpoint, '.');
      assert parts[1..] == [parts[1]];
      (parts[0], parts[1])
    else
      (endpoint, "")
  }

  /** Printable ASCII other than the space is not whitespace, so `strip()` keeps it. */
  lemma PrintableKept(s: string)
    requires forall c :: c in s ==> '!' <= c <= '~'
    ensures Strip(s, Whitespace) == s
  {
    forall i | 0 <= i < |s|
      ensures s[i] !in Whitespace
    {
      assert s[i] in s;
      PrintableNotSpace(s[i]);
    }
  }

  lemma PrintableNotSpace(c: char)
    requires '!' <= c <= '~'
    ensures c !in Whitespace
  {
  }

  /**
   * `'' if not query or args.strip_query else f'?{query}'`: empty exactly when
   * the query is stripped, absent or empty, and otherwise the query behind `?`.
   */
  function QuerySuffix(query: Option<string>, stripQuery: bool): (r: string)
    ensures r == "" <==> stripQuery || query.None? || query.value == ""
    ensures r != "" ==> r[0] == '?' && r[1..] == query.value
  {
    if query.None? || query.value == "" || stripQuery then "" else "?" + query.value
  }

  /**
   * `d1/d2/.../dk/`: the `path` that the all-directories loop has built after k
   * steps, which is the directories joined with `/`, plus `/`.
   */
  function DirPath(dirs: seq<string>): (r: string)
    ensures dirs != [] ==> r == Join(dirs, "/") + "/"
  {
    if dirs == [] then ""
    else
      JoinLast(dirs, "/");
      DirPath(dirs[..|dirs| - 1]) + dirs[|dirs| - 1] + "/"
  }

  /**
   * The bases of the all-directories walk over `dirs`: the host root, then the
   * host root followed by each longer run of leading directories.
   */
  function WalkBases(root: string, dirs: seq<string>): (r: seq<string>)
    ensures |r| == |dirs| + 1
  {
    if dirs == [] then [root]
    else WalkBases(root, dirs[..|dirs| - 1]) + [root + DirPath(dirs)]
  }

  /**
   * The base URLs that `generate_archive_urls` is called with, in order: one
   * pass, or under all-directories one per directory and one for the host
   * root, which comes first. When the directory URL starts with the host root,
   * so does every base.
   */
  function Bases(d: Decomposed, allDirs: bool): (r: seq<string>)
    ensures |r| == if allDirs then |d.directories| + 1 else 1
    ensures r[0] == if allDirs && d.directories != [] then d.root else d.directoryUrl
    ensures d.root <= d.directoryUrl ==> forall b :: b in r ==> d.root <= b
  {
    if !allDirs || d.directories == [] then [d.directoryUrl]
    else
      WalkSteps(d.root, d.directories);
      WalkBasesFromRoot(d.root, d.directories);
      WalkBases(d.root, d.directories)
  }

  /** The work left for one URL once every filter has passed. */
  datatype Job = Job(bases: seq<string>, stem: string, ext: string, query: string)

  datatype Plan = Skip(reason: SkipReason) | Run(job: Job)

  /**
   * The filters of `undust`, in the order the source applies them, and what the
   * generator is given. A URL reaches the generator only when it is within the
   * length limit, is a valid http(s) URL and has an endpoint; under `-eo` it
   * also has an extension, and an extension never holds a dot.
   */
  function Prepare(url: string, parsed: Option<ParsedUrl>, cfg: Config): (r: Plan)
    ensures r.Run? ==> !ExceedsLength(url, cfg) && IsValidUrl(parsed) && SplitUrl(parsed.value).endpoint.Some?
    ensures r.Run? ==> r.job.bases != [] && '.' !in r.job.ext
    ensures r.Run? && cfg.extensionOnly ==> r.job.ext != ""
  {
    if ExceedsLength(url, cfg) then Skip(TooLong)
    else if !IsValidUrl(parsed) then Skip(NotValidHttpUrl)
    else
      var d := SplitUrl(parsed.value);
      if d.endpoint.None? then Skip(NoEndpoint)
      else
        var parts := SplitExtension(Strip(d.endpoint.value, Whitespace));
        if cfg.extensionOnly && parts.1 == "" then Skip(ExtensionsOnly)
        else Run(Job(Bases(d, cfg.allDirs), parts.0, parts.1, QuerySuffix(d.query, cfg.stripQuery)))
  }

  /** How many lines one call of `generate_archive_urls` prints. */
  function PerBase(ext: string, order: Order): nat
  {
    PerEntry(ext) * (|order.extensions| + |order.symbols| + |order.patterns|)
  }

  /** Every line printed for a job: the candidates of each base in turn. */
  function Emitted(bases: seq<string>, stem: string, ext: string, query: string, order: Order): (r: seq<string>)
    ensures |r| == |bases| * PerBase(ext, order)
  {
    if bases == [] then []
    else
      MulSucc(|bases| - 1, PerBase(ext, order));
      Emitted(bases[..|bases| - 1], stem, ext, query, order)
      + Candidates(bases[|bases| - 1], stem, ext, query, order)
  }

  /**
   * `undust(url)`: `parsed` is what `urlparse(url)` gives, or None when it
   * raises. Returns what happened and the lines printed, in order.
   */
  method Undust(url: string, parsed: Option<ParsedUrl>, cfg: Config, order: Order)
    returns (outcome: Outcome, out: seq<string>)
    ensures Prepare(url, parsed, cfg).Skip? ==>
      outcome == Skipped(Prepare(url, parsed, cfg).reason) && out == []
    ensures Prepare(url, parsed, cfg).Run? ==>
      var job := Prepare(url, parsed, cfg).job;
      outcome == Generated && out == Emitted(job.bases, job.stem, job.ext, job.query, order)
  {
    if ExceedsLength(url, cfg) {
      return Skipped(TooLong), [];
    }
    if !IsValidUrl(parsed) {
      return Skipped(NotValidHttpUrl), [];
    }
    var d := SplitUrl(parsed.value);
    if d.endpoint.None? {
      return Skipped(NoEndpoint), [];
    }
    var endpoint := Strip(d.endpoint.value, Whitespace);
    var (stem, ext) := SplitExtension(endpoint);
    if cfg.extensionOnly && ext == "" {
      return Skipped(ExtensionsOnly), [];
    }
    var query := QuerySuffix(d.query, cfg.stripQuery);
    out := GeneratePasses(d, cfg.allDirs, stem, query, ext, order);
    outcome := Generated;
  }

  /**
   * The end of `undust`: one call of `generate_archive_urls` at the directory
   * URL, or, in all-directories mode, one at the host root and one more for
   * each directory, with `path` growing by that directory and a slash.
   */
  method GeneratePasses(d: Decomposed, allDirs: bool, stem: string, query: string, ext: string, order: Order)
    returns (out: seq<string>)
    ensures out == Emitted(Bases(d, allDirs), stem, ext, query, order)
  {
    if !allDirs || d.directories == [] {
      out := GenerateArchiveUrls(d.directoryUrl, stem, query, ext, order);
      assert [d.directoryUrl][..0] == [];
    } else {
      var root, dirs := d.root, d.directories;
      var path := "";
      out := GenerateArchiveUrls(root, stem, query, ext, order);
      assert [root][..0] == [];
      for i := 0 to |dirs|
        invariant path == DirPath(dirs[..i])
        invariant out == Emitted(WalkBases(root, dirs[..i]), stem, ext, query, order)
      {
        var prefix := dirs[..i + 1];
        assert prefix[..i] == dirs[..i] && prefix[i] == dirs[i];
        path := path + dirs[i] + "/";
        var more := GenerateArchiveUrls(root + path, stem, query, ext, order);
        EmittedAppend(WalkBases(root, dirs[..i]), root + path, stem, ext, query, order);
        out := out + more;
      }
      assert dirs[..|dirs|] == dirs;
    }
  }

  lemma EmittedAppend(bases: seq<string>, base: string, stem: string, ext: string, query: string, order: Order)
    ensures Emitted(bases + [base], stem, ext, query, order)
         == Emitted(bases, stem, ext, query, order) + Candidates(base, stem, ext, query, order)
  {
    assert (bases + [base])[..|bases|] == bases;
  }

  /**
   * What a URL that passes the filters prints: a single pass, or in
   * all-directories mode one pass for the host root and one per directory; 31
   * candidates per pass without an extension and 62 with one; every candidate
   * starts with the host root and ends with the query suffix.
   */
  lemma GeneratedLines(url: string, parsed: Option<ParsedUrl>, cfg: Config, order: Order)
    requires IsOrder(order)
    requires Prepare(url, parsed, cfg).Run?
    ensures parsed.Some?
    ensures var job := Prepare(url, parsed, cfg).job;
      |job.bases| == if cfg.allDirs then |SplitUrl(parsed.value).directories| + 1 else 1
    ensures var job := Prepare(url, parsed, cfg).job;
      |Emitted(job.bases, job.stem, job.ext, job.query, order)|
        == |job.bases| * (if job.ext == "" then 31 else 62)
    ensures var job := Prepare(url, parsed, cfg).job;
      forall c :: c in Emitted(job.bases, job.stem, job.ext, job.query, order) ==>
        Authority(parsed.value) + "/" <= c && EndsWith(c, job.query)
  {
    PrepareBases(url, parsed, cfg);
    var d := SplitUrl(parsed.value);
    JobLines(Prepare(url, parsed, cfg).job, d, cfg.allDirs, order);
  }

  /** The same facts for any job whose bases are those of a split URL. */
  lemma JobLines(job: Job, d: Decomposed, allDirs: bool, order: Order)
    requires IsOrder(order)
    requires d.root <= d.directoryUrl && job.bases == Bases(d, allDirs)
    ensures |job.bases| == if allDirs then |d.directories| + 1 else 1
    ensures |Emitted(job.bases, job.stem, job.ext, job.query, order)|
        == |job.bases| * (if job.ext == "" then 31 else 62)
    ensures forall c :: c in Emitted(job.bases, job.stem, job.ext, job.query, order) ==>
        d.root <= c && EndsWith(c, job.query)
  {
    BasesRooted(d, allDirs, job.bases);
    EmittedLines(job.bases, job.stem, job.ext, job.query, order, d.root);
    EmittedCount(job.bases, job.stem, job.ext, job.query, order);
  }

  lemma BasesRooted(d: Decomposed, allDirs: bool, bases: seq<string>)
    requires d.root <= d.directoryUrl && bases == Bases(d, allDirs)
    ensures forall b :: b in bases ==> d.root <= b
  {
  }

  lemma PrepareBases(url: string, parsed: Option<ParsedUrl>, cfg: Config)
    requires Prepare(url, parsed, cfg).Run?
    ensures parsed.Some? && Prepare(url, parsed, cfg).job.bases == Bases(SplitUrl(parsed.value), cfg.allDirs)
  {
  }

  lemma EmittedCount(bases: seq<string>, stem: string, ext: string, query: string, order: Order)
    requires IsOrder(order)
    ensures |Emitted(bases, stem, ext, query, order)| == |bases| * (if ext == "" then 31 else 62)
  {
    OrderCoversCatalogs(order);
    assert PerBase(ext, order) == if ext == "" then 31 else 62;
  }

  lemma {:induction false} WalkBasesFromRoot(root: string, dirs: seq<string>)
    ensures forall b :: b in WalkBases(root, dirs) ==> root <= b
  {
    if dirs != [] {
      WalkBasesFromRoot(root, dirs[..|dirs| - 1]);
      var tail := DirPath(dirs);
      assert (root + tail)[..|root|] == root;
    }
  }

  // ---------------------------------------------------------------------------
  // What the filters let through
  // ---------------------------------------------------------------------------

  /** An endpoint has no extension when it has no dot or ends with one. */
  predicate NoExtension(endpoint: string)
  {
    '.' !in endpoint || EndsWith(endpoint, ".")
  }

  /** The extension is empty exactly when the endpoint has no dot or ends with one. */
  lemma ExtensionEmptyIff(endpoint: string)
    ensures SplitExtension(endpoint).1 == "" <==> NoExtension(endpoint)
  {
    var (stem, ext) := SplitExtension(endpoint);
    if '.' in endpoint {
      assert endpoint == stem + "." + ext;
      if ext == "" {
        assert endpoint[|endpoint| - 1..] == ".";
      } else {
        assert endpoint[|endpoint| - 1] == ext[|ext| - 1];
        assert ext[|ext| - 1] in ext;
      }
    }
  }

  /** The last non-empty segment of the path with surrounding whitespace removed. */
  function StrippedEndpoint(p: ParsedUrl): string
    requires Segments(p.path) != []
  {
    var segs := Segments(p.path);
    Strip(segs[|segs| - 1], Whitespace)
  }

  /**
   * The four filters, in the order the source applies them: the length limit
   * (before the URL is even parsed), http(s) validity, the presence of an
   * endpoint, and the extension-only option. A URL that passes all four is
   * generated for.
   */
  lemma Filters(url: string, parsed: Option<ParsedUrl>, cfg: Config)
    ensures Prepare(url, parsed, cfg) == Skip(TooLong) <==> ExceedsLength(url, cfg)
    ensures Prepare(url, parsed, cfg) == Skip(NotValidHttpUrl)
        <==> !ExceedsLength(url, cfg) && !IsValidUrl(parsed)
    ensures Prepare(url, parsed, cfg) == Skip(NoEndpoint)
        <==> !ExceedsLength(url, cfg) && IsValidUrl(parsed) &&
             (EndsWith(parsed.value.path, "/") || Segments(parsed.value.path) == [])
    ensures Prepare(url, parsed, cfg) == Skip(ExtensionsOnly)
        <==> !ExceedsLength(url, cfg) && IsValidUrl(parsed) &&
             !(EndsWith(parsed.value.path, "/") || Segments(parsed.value.path) == []) &&
             cfg.extensionOnly && NoExtension(StrippedEndpoint(parsed.value))
  {
    if !ExceedsLength(url, cfg) && IsValidUrl(parsed) {
      var p := parsed.value;
      var d := SplitUrl(p);
      if d.endpoint.Some? {
        var segs := Segments(p.path);
        assert d.endpoint.value == segs[|segs| - 1] by {
          assert segs == d.directories + [d.endpoint.value];
        }
        ExtensionEmptyIff(StrippedEndpoint(p));
      }
    }
  }

  /**
   * For a URL that is generated for: the stem and extension put back together
   * give the stripped endpoint, the extension holds no dot, and the query
   * suffix is empty when the query is stripped or absent and `?` + query
   * otherwise.
   */
  lemma StemAndQuery(url: string, parsed: Option<ParsedUrl>, cfg: Config)
    requires Prepare(url, parsed, cfg).Run?
    ensures parsed.Some? && Segments(parsed.value.path) != []
    ensures var job := Prepare(url, parsed, cfg).job;
      var e := StrippedEndpoint(parsed.value);
      e == (if '.' in e then job.stem + "." + job.ext else job.stem) && '.' !in job.ext
    ensures var job := Prepare(url, parsed, cfg).job;
      job.query == if cfg.stripQuery || parsed.value.query == "" then "" else "?" + parsed.value.query
  {
    var p := parsed.value;
    var d := SplitUrl(p);
    var segs := Segments(p.path);
    assert segs == d.directories + [d.endpoint.value];
  }

  /**
   * The generator passes: a single one at the directory URL unless all-dirs is
   * on and there are directories; then one at the host root and one per
   * directory, each base extending the one before by that directory and a
   * slash, the last one being the directory URL.
   */
  lemma Passes(p: ParsedUrl, allDirs: bool)
    ensures var d := SplitUrl(p);
      !allDirs || d.directories == [] ==> Bases(d, allDirs) == [d.directoryUrl]
    ensures var d := SplitUrl(p);
      allDirs && d.directories != [] ==>
        var b := Bases(d, allDirs);
        |b| == |d.directories| + 1 &&
        b[0] == d.root &&
        (forall k :: 0 <= k < |d.directories| ==> b[k + 1] == b[k] + d.directories[k] + "/") &&
        b[|d.directories|] == d.directoryUrl
  {
    var d := SplitUrl(p);
    if allDirs && d.directories != [] {
      var dirs := d.directories;
      WalkSteps(d.root, dirs);
      DirectoryUrlShape(p);
    }
  }

  lemma {:induction false} WalkSteps(root: string, dirs: seq<string>)
    ensures var b := WalkBases(root, dirs);
      b[0] == root &&
      b[|dirs|] == root + DirPath(dirs) &&
      forall k :: 0 <= k < |dirs| ==> b[k + 1] == b[k] + dirs[k] + "/"
  {
    if dirs != [] {
      var init := dirs[..|dirs| - 1];
      WalkSteps(root, init);
      var b := WalkBases(root, dirs);
      assert b == WalkBases(root, init) + [root + DirPath(dirs)];
      forall k | 0 <= k < |dirs|
        ensures b[k + 1] == b[k] + dirs[k] + "/"
      {
        if k < |init| {
          assert dirs[k] == init[k];
        } else {
          assert DirPath(dirs) == DirPath(init) + dirs[k] + "/";
        }
      }
    }
  }

  /** Where block `k` starts when every block holds `n` lines. */
  function Offset(k: nat, n: nat): nat
  {
    MulMono(0, k, n);
    k * n
  }

  /**
   * The lines printed for a list of bases are the candidates of each base in
   * turn: block `k` is exactly what the generator prints for base `k`.
   */
  lemma {:induction false} EmittedBlocks(bases: seq<string>, stem: string, ext: string, query: string, order: Order, k: nat)
    requires k < |bases|
    ensures var n := PerBase(ext, order);
      var lo := Offset(k, n);
      lo + n <= |Emitted(bases, stem, ext, query, order)| &&
      Emitted(bases, stem, ext, query, order)[lo..lo + n] == Candidates(bases[k], stem, ext, query, order)
    decreases |bases|, 1
  {
    if k < |bases| - 1 {
      EmittedFrontBlock(bases, stem, ext, query, order, k);
    } else {
      EmittedLastBlock(bases, stem, ext, query, order);
    }
  }

  lemma {:induction false} EmittedFrontBlock(bases: seq<string>, stem: string, ext: string, query: string, order: Order, k: nat)
    requires k < |bases| - 1
    ensures var n := PerBase(ext, order);
      var lo := Offset(k, n);
      lo + n <= |Emitted(bases, stem, ext, query, order)| &&
      Emitted(bases, stem, ext, query, order)[lo..lo + n] == Candidates(bases[k], stem, ext, query, order)
    decreases |bases|, 0
  {
    var n := PerBase(ext, order);
    var init := bases[..|bases| - 1];
    var front := Emitted(init, stem, ext, query, order);
    var last := Candidates(bases[|bases| - 1], stem, ext, query, order);
    assert Emitted(bases, stem, ext, query, order) == front + last;
    EmittedBlocks(init, stem, ext, query, order, k);
    assert bases[k] == init[k];
    var lo := Offset(k, n);
    SliceOfFront(front, last, lo, lo + n);
  }

  lemma EmittedLastBlock(bases: seq<string>, stem: string, ext: string, query: string, order: Order)
    requires bases != []
    ensures var n := PerBase(ext, order);
      var lo := Offset(|bases| - 1, n);
      lo + n <= |Emitted(bases, stem, ext, query, order)| &&
      Emitted(bases, stem, ext, query, order)[lo..lo + n] == Candidates(bases[|bases| - 1], stem, ext, query, order)
  {
    var k := |bases| - 1;
    var front := Emitted(bases[..k], stem, ext, query, order);
    var last := Candidates(bases[k], stem, ext, query, order);
    assert Emitted(bases, stem, ext, query, order) == front + last;
    assert |front| == Offset(k, PerBase(ext, order));
    SliceOfBack(front, last);
  }

  lemma SliceOfFront(x: seq<string>, y: seq<string>, lo: int, hi: int)
    requires 0 <= lo <= hi <= |x|
    ensures (x + y)[lo..hi] == x[lo..hi]
  {
  }

  lemma SliceOfBack(x: seq<string>, y: seq<string>)
    ensures (x + y)[|x|..|x| + |y|] == y
  {
  }

  lemma MulSucc(a: nat, n: nat)
    ensures (a + 1) * n == a * n + n
  {
  }

  lemma MulMono(a: nat, b: nat, n: nat)
    requires a <= b
    ensures a * n <= b * n
  {
  }

  /** Every printed line starts with the prefix that every base starts with, and ends with the query suffix. */
  lemma {:induction false} EmittedLines(bases: seq<string>, stem: string, ext: string, query: string, order: Order, prefix: string)
    requires forall b :: b in bases ==> prefix <= b
    ensures forall c :: c in Emitted(bases, stem, ext, query, order) ==> prefix <= c && EndsWith(c, query)
  {
    if bases != [] {
      var init := bases[..|bases| - 1];
      assert forall b :: b in init ==> b in bases;
      EmittedLines(init, stem, ext, query, order, prefix);
      assert bases[|bases| - 1] in bases;
    }
  }
}
