/**
 * The operations of Python's `str` that the URL logic relies on, over `string`.
 */
module Text {

  /** `s.endswith(suffix)` */
  predicate EndsWith(s: string, suffix: string)
  {
    |suffix| <= |s| && s[|s| - |suffix|..] == suffix
  }

  /** `sep.join(parts)` */
  function Join(parts: seq<string>, sep: string): string
  {
    if |parts| == 0 then ""
    else if |parts| == 1 then parts[0]
    else parts[0] + sep + Join(parts[1..], sep)
  }

  /**
   * `s.split(sep)` for a non-empty separator: the string is cut at the leftmost
   * occurrence of `sep` and the rest is split again, so cuts never overlap.
   * Joining the pieces with `sep` gives back `s`, and for a one-character
   * separator no piece contains that character.
   */
  function Split(s: string, sep: string): (r: seq<string>)
    requires sep != ""
    ensures |r| >= 1
    ensures Join(r, sep) == s
    ensures |sep| == 1 ==> forall p :: p in r ==> sep[0] !in p
    decreases |s|
  {
    if |s| < |sep| then [s]
    else if s[..|sep|] == sep then
      var rest := Split(s[|sep|..], sep);
      assert s == sep + s[|sep|..];
      [""] + rest
    else
      var rest := Split(s[1..], sep);
      assert s == [s[0]] + s[1..];
      assert |sep| == 1 ==> s[0] != sep[0];
      JoinHead([s[0]], rest, sep);
      [[s[0]] + rest[0]] + rest[1..]
  }

  lemma JoinHead(x: string, parts: seq<string>, sep: string)
    requires |parts| >= 1
    ensures Join([x + parts[0]] + parts[1..], sep) == x + Join(parts, sep)
  {
    var l := [x + parts[0]] + parts[1..];
    assert l[1..] == parts[1..];
  }

  /** `[p for p in parts if p]` */
  function NonEmpty(parts: seq<string>): (r: seq<string>)
    ensures forall p :: p in r <==> p in parts && p != ""
    ensures |r| <= |parts|
  {
    if parts == [] then []
    else if parts[0] == "" then NonEmpty(parts[1..])
    else [parts[0]] + NonEmpty(parts[1..])
  }

  /** `s.lstrip(chars)`: drops the longest prefix made of `chars` only. */
  function LStrip(s: string, chars: set<char>): (r: string)
    ensures EndsWith(s, r)
    ensures forall k :: 0 <= k < |s| - |r| ==> s[k] in chars
    ensures r != "" ==> r[0] !in chars
  {
    if s != "" && s[0] in chars then LStrip(s[1..], chars) else s
  }

  /** `s.rstrip(chars)`: drops the longest suffix made of `chars` only. */
  function RStrip(s: string, chars: set<char>): (r: string)
    ensures r <= s
    ensures forall k :: |r| <= k < |s| ==> s[k] in chars
    ensures r != "" ==> r[|r| - 1] !in chars
  {
    if s != "" && s[|s| - 1] in chars then RStrip(s[..|s| - 1], chars) else s
  }

  /**
   * `r` is `s` with `i` characters cut from the front and the rest past `r`
   * cut from the back, every cut character being in `chars`.
   */
  predicate TrimmedAt(s: string, chars: set<char>, i: int, r: string)
  {
    0 <= i && i + |r| <= |s| && s[i..i + |r|] == r &&
    (forall k :: 0 <= k < i ==> s[k] in chars) &&
    (forall k :: i + |r| <= k < |s| ==> s[k] in chars)
  }

  /**
   * `s.strip(chars)`: the leading and trailing runs of `chars` removed, and
   * nothing else, so neither end of the result is in `chars`.
   */
  function Strip(s: string, chars: set<char>): (r: string)
    ensures exists i :: TrimmedAt(s, chars, i, r)
    ensures r != "" ==> r[0] !in chars && r[|r| - 1] !in chars
    ensures (forall k :: 0 <= k < |s| ==> s[k] !in chars) ==> r == s
  {
    StripsRuns(s, chars);
    RStrip(LStrip(s, chars), chars)
  }

  lemma StripsRuns(s: string, chars: set<char>)
    ensures TrimmedAt(s, chars, |s| - |LStrip(s, chars)|, RStrip(LStrip(s, chars), chars))
  {
    var l := LStrip(s, chars);
    var r := RStrip(l, chars);
    var i := |s| - |l|;
    assert s[i..] == l;
    assert s[i..i + |r|] == l[..|r|] == r;
    forall k | i + |r| <= k < |s|
      ensures s[k] in chars
    {
      assert s[k] == l[k - i];
    }
  }

  /**
   * Stripping is the only trimming of runs of `chars` whose ends are not in
   * `chars`: any such `t` is `Strip(s, chars)`.
   */
  lemma StripUnique(s: string, chars: set<char>, i: int, t: string)
    requires TrimmedAt(s, chars, i, t)
    requires t != "" ==> t[0] !in chars && t[|t| - 1] !in chars
    ensures t == Strip(s, chars)
  {
    var r := Strip(s, chars);
    var j := |s| - |LStrip(s, chars)|;
    StripsRuns(s, chars);
    if t != "" && r != "" {
      assert t[0] == s[i] && r[0] == s[j];
      assert i == j;
      assert t[|t| - 1] == s[i + |t| - 1] && r[|r| - 1] == s[j + |r| - 1];
    }
  }

  /** `s.rfind(c)`: the index of the last `c` in `s`, or -1 when there is none. */
  function RFind(s: string, c: char): (r: int)
    ensures -1 <= r < |s|
    ensures r == -1 <==> c !in s
    ensures r >= 0 ==> s[r] == c && c !in s[r + 1..]
  {
    if s == "" then -1
    else if s[|s| - 1] == c then |s| - 1
    else RFind(s[..|s| - 1], c)
  }

  /** `s.rsplit(c, 1)`: cuts at the last `c`, if there is one. */
  function RSplitOnce(s: string, c: char): (r: seq<string>)
    ensures |r| == if c in s then 2 else 1
    ensures Join(r, [c]) == s
    ensures |r| == 2 ==> c !in r[1]
  {
    var i := RFind(s, c);
    if i < 0 then [s]
    else
      assert s == s[..i] + [c] + s[i + 1..];
      [s[..i], s[i + 1..]]
  }

  // ---------------------------------------------------------------------------
  // Lemmas about splitting and joining on a one-character separator
  // ---------------------------------------------------------------------------

  /** A piece without the separator splits to itself. */
  lemma {:induction false} SplitFree(p: string, c: char)
    requires c !in p
    ensures Split(p, [c]) == [p]
  {
    if p != "" {
      assert p[..1] == [p[0]];
      SplitFree(p[1..], c);
      assert [p[0]] + p[1..] == p;
    }
  }

  /** Splitting `p + c + t` cuts after `p` when `p` holds no `c`. */
  lemma {:induction false} SplitAfter(p: string, t: string, c: char)
    requires c !in p
    ensures Split(p + [c] + t, [c]) == [p] + Split(t, [c])
  {
    var s := p + [c] + t;
    if p == "" {
      assert s[..1] == [c];
      assert s[1..] == t;
    } else {
      assert s[..1] == [p[0]];
      assert s[1..] == p[1..] + [c] + t;
      SplitAfter(p[1..], t, c);
      assert [p[0]] + p[1..] == p;
    }
  }

  /** Splitting undoes joining, when no part holds the separator. */
  lemma {:induction false} SplitJoin(parts: seq<string>, c: char)
    requires parts != []
    requires forall p :: p in parts ==> c !in p
    ensures Split(Join(parts, [c]), [c]) == parts
  {
    if |parts| == 1 {
      SplitFree(parts[0], c);
    } else {
      SplitJoin(parts[1..], c);
      SplitAfter(parts[0], Join(parts[1..], [c]), c);
    }
  }

  /** A trailing separator adds one empty piece. */
  lemma {:induction false} SplitSnoc(s: string, c: char)
    ensures Split(s + [c], [c]) == Split(s, [c]) + [""]
  {
    var t := s + [c];
    if s == "" {
      assert t[..1] == [c];
      assert t[1..] == "";
    } else if s[0] == c {
      assert t[..1] == [c];
      assert t[1..] == s[1..] + [c];
      assert s[..1] == [c];
      SplitSnoc(s[1..], c);
    } else {
      assert t[..1][0] == s[0] && s[..1][0] == s[0];
      assert t[1..] == s[1..] + [c];
      SplitSnoc(s[1..], c);
    }
  }

  lemma {:induction false} NonEmptyAppend(a: seq<string>, b: seq<string>)
    ensures NonEmpty(a + b) == NonEmpty(a) + NonEmpty(b)
  {
    if a == [] {
      assert a + b == b;
    } else {
      assert (a + b)[0] == a[0];
      assert (a + b)[1..] == a[1..] + b;
      NonEmptyAppend(a[1..], b);
    }
  }

  /** The list comprehension keeps a list without empty strings as it is. */
  lemma {:induction false} NonEmptyKeeps(parts: seq<string>)
    requires forall p :: p in parts ==> p != ""
    ensures NonEmpty(parts) == parts
  {
    if parts != [] {
      assert forall p :: p in parts[1..] ==> p in parts;
      NonEmptyKeeps(parts[1..]);
      assert parts[0] in parts;
      assert parts == [parts[0]] + parts[1..];
    }
  }

  /**
   * Stripping the separator from both ends before splitting changes nothing once
   * empty pieces are dropped.
   */
  lemma SplitIgnoresStrip(s: string, c: char)
    ensures NonEmpty(Split(Strip(s, {c}), [c])) == NonEmpty(Split(s, [c]))
  {
    var l := LStrip(s, {c});
    RStripImmaterial(l, c);
    LStripImmaterial(s, c);
  }

  lemma {:induction false} LStripImmaterial(s: string, c: char)
    ensures NonEmpty(Split(LStrip(s, {c}), [c])) == NonEmpty(Split(s, [c]))
  {
    if s != "" && s[0] == c {
      assert s[..1] == [c];
      LStripImmaterial(s[1..], c);
    }
  }

  lemma {:induction false} RStripImmaterial(s: string, c: char)
    ensures NonEmpty(Split(RStrip(s, {c}), [c])) == NonEmpty(Split(s, [c]))
  {
    if s != "" && s[|s| - 1] == c {
      var init := s[..|s| - 1];
      RStripImmaterial(init, c);
      assert s == init + [c];
      SplitSnoc(init, c);
      NonEmptyAppend(Split(init, [c]), [""]);
    }
  }

  /** A joined list is its last part, after the others joined and a separator. */
  lemma JoinLast(parts: seq<string>, sep: string)
    requires parts != []
    ensures Join(parts, sep)
         == if |parts| == 1 then parts[0]
            else Join(parts[..|parts| - 1], sep) + sep + parts[|parts| - 1]
  {
    if |parts| > 1 {
      var init := parts[..|parts| - 1];
      assert parts == init + [parts[|parts| - 1]];
      JoinSnoc(init, parts[|parts| - 1], sep);
    }
  }

  /** Joining with a further part appends the separator and that part. */
  lemma {:induction false} JoinSnoc(parts: seq<string>, x: string, sep: string)
    requires parts != []
    ensures Join(parts + [x], sep) == Join(parts, sep) + sep + x
  {
    if |parts| > 1 {
      assert (parts + [x])[1..] == parts[1..] + [x];
      JoinSnoc(parts[1..], x, sep);
    }
  }
}
