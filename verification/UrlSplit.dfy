/**
 * `is_valid_url` and `split_url`: a parsed URL is taken apart into its host
 * root, the URL of the directory that holds the endpoint, the endpoint, the
 * query and the directory names.
 */
module UrlSplit {
  import opened Optional
  import opened Text

  /**
   * The fields of `urllib.parse.urlparse(url)` that the core reads. The parser
   * itself is not modelled: its result is an input.
   */
  datatype ParsedUrl = ParsedUrl(scheme: string, netloc: string, path: string, query: string)

  /** The five values `split_url` returns. */
  datatype Decomposed = Decomposed(
    root: string,              // scheme://netloc/
    directoryUrl: string,      // scheme://netloc/d1/.../dn/
    endpoint: Option<string>,  // the last path segment, or None for `False`
    query: Option<string>,     // the query, or None for `False`
    directories: seq<string>)  // d1, ..., dn

  /** `scheme://netloc`, without a trailing slash. */
  function Authority(p: ParsedUrl): string
  {
    p.scheme + "://" + p.netloc
  }

  /**
   * `is_valid_url`: an http or https URL with a host. `None` stands for a URL
   * on which `urlparse` raises, which the source answers with `False`.
   */
  predicate IsValidUrl(parsed: Option<ParsedUrl>)
  {
    parsed.Some? &&
    (parsed.value.scheme == "http" || parsed.value.scheme == "https") &&
    parsed.value.netloc != ""
  }

  /**
   * A URL is valid exactly when `urlparse` succeeds, the host is not empty and
   * the host root `scheme://netloc/` (the `root` of `SplitUrl`) is
   * `http://host/` or `https://host/`.
   */
  lemma ValidUrlRoot(parsed: Option<ParsedUrl>)
    ensures IsValidUrl(parsed) <==>
      parsed.Some? && parsed.value.netloc != "" &&
      (Authority(parsed.value) + "/" == "http://" + parsed.value.netloc + "/" ||
       Authority(parsed.value) + "/" == "https://" + parsed.value.netloc + "/")
  {
    if parsed.Some? {
      SchemeOfRoot(parsed.value, "http");
      SchemeOfRoot(parsed.value, "https");
    }
  }

  /** The host root spells the scheme `s` exactly when the scheme is `s`. */
  lemma SchemeOfRoot(p: ParsedUrl, s: string)
    ensures Authority(p) + "/" == s + "://" + p.netloc + "/" <==> p.scheme == s
  {
    var tail := "://" + p.netloc + "/";
    assert Authority(p) + "/" == p.scheme + tail;
    assert s + "://" + p.netloc + "/" == s + tail;
    if p.scheme + tail == s + tail {
      CancelTail(p.scheme, s, tail);
    }
  }

  lemma CancelTail(a: string, b: string, t: string)
    requires a + t == b + t
    ensures a == b
  {
    assert |a| == |b|;
    assert a == (a + t)[..|a|];
    assert b == (b + t)[..|b|];
  }

  /** The non-empty `/`-separated segments of a path, in order. */
  function Segments(path: string): (r: seq<string>)
    ensures forall s :: s in r ==> s != "" && '/' !in s
  {
    NonEmpty(Split(Strip(path, {'/'}), "/"))
  }

  /** `split_url` */
  function SplitUrl(p: ParsedUrl): (d: Decomposed)
    ensures d.root == Authority(p) + "/"
    ensures Authority(p) + "/" <= d.directoryUrl && EndsWith(d.directoryUrl, "/")
    ensures d.endpoint.None? <==> EndsWith(p.path, "/") || Segments(p.path) == []
    ensures d.endpoint.None? ==> d.directories == Segments(p.path)
    ensures d.endpoint.Some? ==> d.directories + [d.endpoint.value] == Segments(p.path)
    ensures d.endpoint.Some? ==> d.endpoint.value != "" && '/' !in d.endpoint.value
    ensures forall dir :: dir in d.directories ==> dir != "" && '/' !in dir
    ensures d.query.None? <==> p.query == ""
    ensures d.query.Some? ==> d.query.value == p.query
  {
    FromSegments(p, Segments(p.path))
  }

  /** What `split_url` makes of the URL once its path is cut into `parts`. */
  function FromSegments(p: ParsedUrl, parts: seq<string>): (d: Decomposed)
    requires forall s :: s in parts ==> s != "" && '/' !in s
    ensures d.root == Authority(p) + "/"
    ensures Authority(p) + "/" <= d.directoryUrl && EndsWith(d.directoryUrl, "/")
    ensures d.endpoint.None? <==> EndsWith(p.path, "/") || parts == []
    ensures d.endpoint.None? ==> d.directories == parts
    ensures d.endpoint.Some? ==> d.directories + [d.endpoint.value] == parts
    ensures d.endpoint.Some? ==> d.endpoint.value != "" && '/' !in d.endpoint.value
    ensures forall dir :: dir in d.directories ==> dir != "" && '/' !in dir
    ensures d.query.None? <==> p.query == ""
    ensures d.query.Some? ==> d.query.value == p.query
  {
    var query := if p.query != "" then Some(p.query) else None;
    if EndsWith(p.path, "/") || parts == [] then
      Decomposed(Authority(p) + "/", DirectoryUrl(p, parts), None, query, parts)
    else
      var dirs := parts[..|parts| - 1];
      InitAndLast(parts, dirs);
      Decomposed(Authority(p) + "/", DirectoryUrl(p, dirs), Some(parts[|parts| - 1]), query, dirs)
  }

  /** A list of segments is its directories followed by its last segment. */
  lemma InitAndLast(parts: seq<string>, dirs: seq<string>)
    requires parts != [] && dirs == parts[..|parts| - 1]
    requires forall s :: s in parts ==> s != "" && '/' !in s
    ensures parts == dirs + [parts[|parts| - 1]]
    ensures parts[|parts| - 1] != "" && '/' !in parts[|parts| - 1]
    ensures forall dir :: dir in dirs ==> dir != "" && '/' !in dir
  {
    assert parts[|parts| - 1] in parts;
    assert parts == dirs + [parts[|parts| - 1]];
    forall dir | dir in dirs
      ensures dir != "" && '/' !in dir
    {
      assert dir in parts;
    }
  }

  /** The `base_url + '/'` that `split_url` builds from the directories. */
  function DirectoryUrl(p: ParsedUrl, dirs: seq<string>): (r: string)
    ensures Authority(p) + "/" <= r && EndsWith(r, "/")
  {
    var base := Authority(p) + (if dirs != [] then "/" + Join(dirs, "/") else "");
    assert (base + "/")[|base|..] == "/";
    assert dirs != [] ==> base + "/" == Authority(p) + "/" + (Join(dirs, "/") + "/");
    base + "/"
  }

  /**
   * The directory URL is the host root when there are no directories, and the
   * host root followed by the directories joined with `/` and a closing `/`
   * otherwise.
   */
  lemma DirectoryUrlShape(p: ParsedUrl)
    ensures var d := SplitUrl(p);
      d.directoryUrl == d.root + (if d.directories == [] then "" else Join(d.directories, "/") + "/")
  {
    ShapeFromSegments(p, Segments(p.path));
  }

  lemma ShapeFromSegments(p: ParsedUrl, parts: seq<string>)
    requires forall s :: s in parts ==> s != "" && '/' !in s
    ensures var d := FromSegments(p, parts);
      d.directoryUrl == d.root + (if d.directories == [] then "" else Join(d.directories, "/") + "/")
  {
    var d := FromSegments(p, parts);
    if d.directories != [] {
      DirectoryUrlSpelled(p, d.directories);
    }
  }

  /**
   * The directory URL followed by the endpoint spells the path with its empty
   * segments removed.
   */
  lemma ReassembleFile(p: ParsedUrl)
    requires SplitUrl(p).endpoint.Some?
    ensures SplitUrl(p).directoryUrl + SplitUrl(p).endpoint.value
            == Authority(p) + "/" + Join(Segments(p.path), "/")
  {
    var d := SplitUrl(p);
    DirectoryUrlThen(p, d.directories, d.endpoint.value);
  }

  lemma DirectoryUrlThen(p: ParsedUrl, dirs: seq<string>, e: string)
    ensures DirectoryUrl(p, dirs) + e == Authority(p) + "/" + Join(dirs + [e], "/")
  {
    var a := Authority(p) + "/";
    if dirs == [] {
      assert dirs + [e] == [e];
      assert DirectoryUrl(p, dirs) == a;
    } else {
      var j := Join(dirs, "/");
      DirectoryUrlSpelled(p, dirs);
      JoinSnoc(dirs, e, "/");
      assert DirectoryUrl(p, dirs) + e == a + (j + "/") + e;
    }
  }

  /**
   * Without an endpoint the directory URL alone spells the path with its empty
   * segments removed, closed by a slash.
   */
  lemma ReassembleDirectory(p: ParsedUrl)
    requires SplitUrl(p).endpoint.None?
    ensures SplitUrl(p).directoryUrl
            == Authority(p) + "/" + Join(Segments(p.path), "/")
               + (if Segments(p.path) == [] then "" else "/")
  {
    var d := SplitUrl(p);
    var a := Authority(p) + "/";
    if d.directories != [] {
      var j := Join(d.directories, "/");
      DirectoryUrlSpelled(p, d.directories);
      assert d.directoryUrl == a + j + "/";
    }
  }

  lemma DirectoryUrlSpelled(p: ParsedUrl, dirs: seq<string>)
    requires dirs != []
    ensures DirectoryUrl(p, dirs) == Authority(p) + "/" + (Join(dirs, "/") + "/")
  {
  }

  /**
   * A path in canonical form, `/s1/.../sn` with non-empty segments, is taken
   * apart into directories s1..s(n-1) and endpoint sn, and put back together.
   */
  lemma FilePathRoundTrip(p: ParsedUrl, segs: seq<string>)
    requires segs != [] && forall s :: s in segs ==> s != "" && '/' !in s
    requires p.path == "/" + Join(segs, "/")
    ensures var d := SplitUrl(p);
      d.endpoint == Some(segs[|segs| - 1]) &&
      d.directories == segs[..|segs| - 1] &&
      d.directoryUrl + d.endpoint.value == Authority(p) + p.path
  {
    SegmentsOfFilePath(p.path, segs);
    NoTrailingSlash(p.path, segs);
    FileEndpoint(p, segs);
    ReassembleCanonical(p, segs);
    Regroup(p, SplitUrl(p).directoryUrl, SplitUrl(p).endpoint.value, Join(segs, "/"));
  }

  /** A path that does not end in `/` ends in its last segment, the endpoint. */
  lemma FileEndpoint(p: ParsedUrl, segs: seq<string>)
    requires segs != [] && Segments(p.path) == segs && !EndsWith(p.path, "/")
    ensures SplitUrl(p).endpoint == Some(segs[|segs| - 1])
    ensures SplitUrl(p).directories == segs[..|segs| - 1]
  {
    var d := SplitUrl(p);
    var n := |segs|;
    var e := d.endpoint.value;
    assert d.directories + [e] == segs;
    assert segs[..n - 1] == (d.directories + [e])[..n - 1];
  }

  lemma ReassembleCanonical(p: ParsedUrl, segs: seq<string>)
    requires SplitUrl(p).endpoint.Some? && Segments(p.path) == segs
    ensures SplitUrl(p).directoryUrl + SplitUrl(p).endpoint.value
            == Authority(p) + "/" + Join(segs, "/")
  {
    ReassembleFile(p);
  }

  lemma Regroup(p: ParsedUrl, front: string, back: string, j: string)
    requires front + back == Authority(p) + "/" + j
    requires p.path == "/" + j
    ensures front + back == Authority(p) + p.path
  {
  }

  lemma NoTrailingSlash(path: string, segs: seq<string>)
    requires segs != [] && forall s :: s in segs ==> s != "" && '/' !in s
    requires path == "/" + Join(segs, "/")
    ensures !EndsWith(path, "/")
  {
    var last := segs[|segs| - 1];
    assert last in segs;
    JoinEndsWith(segs, "/");
    assert path[|path| - 1] == last[|last| - 1];
    assert last[|last| - 1] in last;
  }

  /**
   * A path in canonical directory form, `/s1/.../sn/`, has no endpoint; its
   * segments are the directories, and the directory URL spells the path.
   */
  lemma DirectoryPathRoundTrip(p: ParsedUrl, segs: seq<string>)
    requires segs != [] && forall s :: s in segs ==> s != "" && '/' !in s
    requires p.path == "/" + Join(segs, "/") + "/"
    ensures var d := SplitUrl(p);
      d.endpoint.None? && d.directories == segs && d.directoryUrl == Authority(p) + p.path
  {
    var q := "/" + Join(segs, "/");
    assert p.path == q + "/";
    assert (q + "/")[|q|..] == "/";
    SegmentsOfDirectoryPath(p.path, segs);
    DirectoryOfSegments(p, segs);
  }

  lemma DirectoryOfSegments(p: ParsedUrl, segs: seq<string>)
    requires segs != [] && forall s :: s in segs ==> s != "" && '/' !in s
    requires p.path == "/" + Join(segs, "/") + "/" && EndsWith(p.path, "/")
    ensures var d := FromSegments(p, segs);
      d.endpoint.None? && d.directories == segs && d.directoryUrl == Authority(p) + p.path
  {
    DirectoryUrlSpelled(p, segs);
  }

  /** The segments of `/s1/.../sn` are s1..sn. */
  lemma SegmentsOfFilePath(path: string, segs: seq<string>)
    requires segs != [] && forall s :: s in segs ==> s != "" && '/' !in s
    requires path == "/" + Join(segs, "/")
    ensures Segments(path) == segs
  {
    SplitIgnoresStrip(path, '/');
    LeadingSeparator(segs, '/');
  }

  /** The segments of `/s1/.../sn/` are s1..sn. */
  lemma SegmentsOfDirectoryPath(path: string, segs: seq<string>)
    requires segs != [] && forall s :: s in segs ==> s != "" && '/' !in s
    requires path == "/" + Join(segs, "/") + "/"
    ensures Segments(path) == segs
  {
    SplitIgnoresStrip(path, '/');
    EnclosingSeparators(segs, '/');
  }

  /** Splitting `c` + the parts joined with `c` and dropping empty pieces gives the parts. */
  lemma LeadingSeparator(segs: seq<string>, c: char)
    requires segs != [] && forall s :: s in segs ==> s != "" && c !in s
    ensures NonEmpty(Split([c] + Join(segs, [c]), [c])) == segs
  {
    SplitLeading(Join(segs, [c]), c);
    SplitJoin(segs, c);
    NonEmptyAppend([""], segs);
    NonEmptyKeeps(segs);
  }

  /** The same with a closing `c`, which only adds an empty piece. */
  lemma EnclosingSeparators(segs: seq<string>, c: char)
    requires segs != [] && forall s :: s in segs ==> s != "" && c !in s
    ensures NonEmpty(Split([c] + Join(segs, [c]) + [c], [c])) == segs
  {
    SplitEnclosed(segs, c);
    NonEmptyAppend([""], segs + [""]);
    NonEmptyAppend(segs, [""]);
    NonEmptyKeeps(segs);
  }

  lemma SplitEnclosed(segs: seq<string>, c: char)
    requires segs != [] && forall s :: s in segs ==> c !in s
    ensures Split([c] + Join(segs, [c]) + [c], [c]) == [""] + (segs + [""])
  {
    var j := Join(segs, [c]);
    assert [c] + j + [c] == [c] + (j + [c]);
    SplitLeading(j + [c], c);
    SplitSnoc(j, c);
    SplitJoin(segs, c);
  }

  /** A leading separator cuts off an empty piece. */
  lemma SplitLeading(t: string, c: char)
    ensures Split([c] + t, [c]) == [""] + Split(t, [c])
  {
    assert [c] + t == "" + [c] + t;
    SplitAfter("", t, c);
  }

  /** A joined list ends with its last part. */
  lemma JoinEndsWith(segs: seq<string>, sep: string)
    requires segs != []
    ensures EndsWith(Join(segs, sep), segs[|segs| - 1])
  {
    var last := segs[|segs| - 1];
    if |segs| == 1 {
      EndsWithAppend("", last);
    } else {
      var init := segs[..|segs| - 1];
      assert segs == init + [last];
      JoinSnoc(init, last, sep);
      EndsWithAppend(Join(init, sep) + sep, last);
    }
  }

  lemma EndsWithAppend(front: string, back: string)
    ensures EndsWith(front + back, back)
  {
    assert (front + back)[|front|..] == back;
  }
}
