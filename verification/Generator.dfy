/**
 * `generate_archive_urls`: for one base URL, every backup-file name that the
 * three catalogs make of the endpoint's stem and extension.
 */
module Generator {
  import opened Text
  import opened Catalogs

  /** Which catalog an entry comes from, and so how it is applied. */
  datatype Kind = Suffix | Prefix | Template

  /** The token that a template's value replaces. */
  const Placeholder := "VAL"

  /**
   * `template.replace('VAL', value)`, which is Python's
   * `value.join(template.split('VAL'))`. A template without `VAL` is left as it
   * is; in one with a single `VAL`, the value takes its place between the text
   * before and after it.
   */
  function Substitute(template: string, value: string): (r: string)
    ensures var parts := Split(template, Placeholder);
      |parts| == 1 ==> template == parts[0] && r == template
    ensures var parts := Split(template, Placeholder);
      |parts| == 2 ==> template == parts[0] + Placeholder + parts[1] && r == parts[0] + value + parts[1]
  {
    var parts := Split(template, Placeholder);
    if |parts| == 2 then
      assert parts[1..] == [parts[1]];
      assert Join(parts, Placeholder) == parts[0] + Placeholder + Join([parts[1]], Placeholder);
      assert Join(parts, value) == parts[0] + value + Join([parts[1]], value);
      Join(parts, value)
    else
      Join(parts, value)
  }

  /** Candidates per catalog entry: one, and a second one when there is an extension. */
  function PerEntry(ext: string): nat
  {
    if ext == "" then 1 else 2
  }

  /**
   * The lines one catalog entry `v` prints for one base URL, in print order:
   * first the one built from the stem, then, when there is an extension, the
   * one built from `stem.ext`.
   */
  function Variants(kind: Kind, v: string, base: string, stem: string, ext: string, query: string): (r: seq<string>)
    ensures |r| == PerEntry(ext)
    ensures forall c :: c in r ==> base <= c && EndsWith(c, query)
  {
    var named := stem + "." + ext;
    var names :=
      match kind
      case Suffix => [stem + "." + v] + (if ext != "" then [named + "." + v] else [])
      case Prefix => [v + stem] + (if ext != "" then [v + named] else [])
      case Template => [Substitute(v, stem)] + (if ext != "" then [Substitute(v, named)] else []);
    assert forall k :: 0 <= k < |names| ==> EndsWith(base + names[k] + query, query) by {
      forall k | 0 <= k < |names| ensures EndsWith(base + names[k] + query, query) {
        var front := base + names[k];
        assert (front + query)[|front|..] == query;
      }
    }
    seq(|names|, k requires 0 <= k < |names| => base + names[k] + query)
  }

  /** The lines that one loop prints for the entries `vals`, in order. */
  function Block(kind: Kind, vals: seq<string>, base: string, stem: string, ext: string, query: string): (r: seq<string>)
    ensures |r| == |vals| * PerEntry(ext)
    ensures forall c :: c in r ==> base <= c && EndsWith(c, query)
  {
    if vals == [] then []
    else
      var init := vals[..|vals| - 1];
      var front := Block(kind, init, base, stem, ext, query);
      var last := Variants(kind, vals[|vals| - 1], base, stem, ext, query);
      assert |front + last| == (|init| + 1) * PerEntry(ext);
      front + last
  }

  /** Everything one call of `generate_archive_urls` prints: the three loops in turn. */
  function Candidates(base: string, stem: string, ext: string, query: string, order: Order): (r: seq<string>)
    ensures |r| == PerEntry(ext) * (|order.extensions| + |order.symbols| + |order.patterns|)
    ensures forall c :: c in r ==> base <= c && EndsWith(c, query)
  {
    var e := Block(Suffix, order.extensions, base, stem, ext, query);
    var s := Block(Prefix, order.symbols, base, stem, ext, query);
    var t := Block(Template, order.patterns, base, stem, ext, query);
    assert |e + s + t| == PerEntry(ext) * (|order.extensions| + |order.symbols| + |order.patterns|) by {
      var k := PerEntry(ext);
      assert |e| == |order.extensions| * k && |s| == |order.symbols| * k && |t| == |order.patterns| * k;
      assert |order.extensions| * k + |order.symbols| * k + |order.patterns| * k
          == k * (|order.extensions| + |order.symbols| + |order.patterns|);
    }
    e + s + t
  }

  /**
   * `generate_archive_urls(base_url, endpoint, query, ext)`: the lines it
   * prints, in order. `stem` is the endpoint with its extension removed.
   */
  method GenerateArchiveUrls(base: string, stem: string, query: string, ext: string, order: Order)
    returns (out: seq<string>)
    ensures out == Candidates(base, stem, ext, query, order)
  {
    var suffixed := SuffixLoop(order.extensions, base, stem, ext, query);
    var prefixed := PrefixLoop(order.symbols, base, stem, ext, query);
    var templated := TemplateLoop(order.patterns, base, stem, ext, query);
    out := suffixed + prefixed + templated;
  }

  /** The first loop: each archive extension after the stem, then after `stem.ext`. */
  method SuffixLoop(exts: seq<string>, base: string, stem: string, ext: string, query: string)
    returns (out: seq<string>)
    ensures out == Block(Suffix, exts, base, stem, ext, query)
  {
    out := [];
    for i := 0 to |exts|
      invariant out == Block(Suffix, exts[..i], base, stem, ext, query)
    {
      var v := exts[i];
      SuffixStep(exts, i, base, stem, ext, query);
      out := out + [base + stem + "." + v + query];
      if ext != "" {
        out := out + [base + stem + "." + ext + "." + v + query];
      }
    }
    assert exts[..|exts|] == exts;
  }

  /** The second loop: each symbol before the stem, then before `stem.ext`. */
  method PrefixLoop(syms: seq<string>, base: string, stem: string, ext: string, query: string)
    returns (out: seq<string>)
    ensures out == Block(Prefix, syms, base, stem, ext, query)
  {
    out := [];
    for i := 0 to |syms|
      invariant out == Block(Prefix, syms[..i], base, stem, ext, query)
    {
      var s := syms[i];
      PrefixStep(syms, i, base, stem, ext, query);
      out := out + [base + s + stem + query];
      if ext != "" {
        out := out + [base + s + stem + "." + ext + query];
      }
    }
    assert syms[..|syms|] == syms;
  }

  /** The third loop: each template with `VAL` replaced by the stem, then by `stem.ext`. */
  method TemplateLoop(pats: seq<string>, base: string, stem: string, ext: string, query: string)
    returns (out: seq<string>)
    ensures out == Block(Template, pats, base, stem, ext, query)
  {
    out := [];
    for i := 0 to |pats|
      invariant out == Block(Template, pats[..i], base, stem, ext, query)
    {
      var p := pats[i];
      TemplateStep(pats, i, base, stem, ext, query);
      out := out + [base + Substitute(p, stem) + query];
      if ext != "" {
        out := out + [base + Substitute(p, stem + "." + ext) + query];
      }
    }
    assert pats[..|pats|] == pats;
  }

  /** One more extension adds its lines after those of the entries before it. */
  lemma SuffixStep(vals: seq<string>, i: int, base: string, stem: string, ext: string, query: string)
    requires 0 <= i < |vals|
    ensures Block(Suffix, vals[..i + 1], base, stem, ext, query)
         == Block(Suffix, vals[..i], base, stem, ext, query) + [base + stem + "." + vals[i] + query]
            + (if ext != "" then [base + stem + "." + ext + "." + vals[i] + query] else [])
  {
    assert vals[..i + 1][..i] == vals[..i];
    SuffixLines(vals[i], base, stem, ext, query);
  }

  /** One more symbol adds its lines after those of the entries before it. */
  lemma PrefixStep(vals: seq<string>, i: int, base: string, stem: string, ext: string, query: string)
    requires 0 <= i < |vals|
    ensures Block(Prefix, vals[..i + 1], base, stem, ext, query)
         == Block(Prefix, vals[..i], base, stem, ext, query) + [base + vals[i] + stem + query]
            + (if ext != "" then [base + vals[i] + stem + "." + ext + query] else [])
  {
    assert vals[..i + 1][..i] == vals[..i];
    PrefixLines(vals[i], base, stem, ext, query);
  }

  /** One more template adds its lines after those of the entries before it. */
  lemma TemplateStep(vals: seq<string>, i: int, base: string, stem: string, ext: string, query: string)
    requires 0 <= i < |vals|
    ensures Block(Template, vals[..i + 1], base, stem, ext, query)
         == Block(Template, vals[..i], base, stem, ext, query) + [base + Substitute(vals[i], stem) + query]
            + (if ext != "" then [base + Substitute(vals[i], stem + "." + ext) + query] else [])
  {
    assert vals[..i + 1][..i] == vals[..i];
    TemplateLines(vals[i], base, stem, ext, query);
  }

  lemma SuffixLines(v: string, base: string, stem: string, ext: string, query: string)
    ensures Variants(Suffix, v, base, stem, ext, query)
         == [base + stem + "." + v + query]
            + (if ext != "" then [base + stem + "." + ext + "." + v + query] else [])
  {
    var r := Variants(Suffix, v, base, stem, ext, query);
    assert r[0] == base + stem + "." + v + query;
    assert ext != "" ==> r[1] == base + stem + "." + ext + "." + v + query;
  }

  lemma PrefixLines(s: string, base: string, stem: string, ext: string, query: string)
    ensures Variants(Prefix, s, base, stem, ext, query)
         == [base + s + stem + query]
            + (if ext != "" then [base + s + stem + "." + ext + query] else [])
  {
    var r := Variants(Prefix, s, base, stem, ext, query);
    assert r[0] == base + s + stem + query;
    assert ext != "" ==> r[1] == base + s + stem + "." + ext + query;
  }

  lemma TemplateLines(p: string, base: string, stem: string, ext: string, query: string)
    ensures Variants(Template, p, base, stem, ext, query)
         == [base + Substitute(p, stem) + query]
            + (if ext != "" then [base + Substitute(p, stem + "." + ext) + query] else [])
  {
  }

  /** The lines a catalog entry yields, by the catalog it belongs to. */
  predicate FromEntry(c: string, kind: Kind, v: string, base: string, stem: string, ext: string, query: string)
  {
    match kind
    case Suffix =>
      c == base + stem + "." + v + query ||
      (ext != "" && c == base + stem + "." + ext + "." + v + query)
    case Prefix =>
      c == base + v + stem + query ||
      (ext != "" && c == base + v + stem + "." + ext + query)
    case Template =>
      c == base + Substitute(v, stem) + query ||
      (ext != "" && c == base + Substitute(v, stem + "." + ext) + query)
  }

  /**
   * A line is a candidate exactly when some entry of some catalog makes it: the
   * stem or `stem.ext` followed by a dot and an archive extension, preceded by a
   * symbol, or put in the place of `VAL` in a template.
   */
  ghost predicate MadeFromCatalogs(c: string, base: string, stem: string, ext: string, query: string)
  {
    (exists v :: v in Extensions && FromEntry(c, Suffix, v, base, stem, ext, query)) ||
    (exists v :: v in Symbols && FromEntry(c, Prefix, v, base, stem, ext, query)) ||
    (exists v :: v in Patterns && FromEntry(c, Template, v, base, stem, ext, query))
  }

  lemma VariantsFromEntry(kind: Kind, v: string, base: string, stem: string, ext: string, query: string, c: string)
    ensures c in Variants(kind, v, base, stem, ext, query) <==> FromEntry(c, kind, v, base, stem, ext, query)
  {
    match kind
    case Suffix => SuffixLines(v, base, stem, ext, query);
    case Prefix => PrefixLines(v, base, stem, ext, query);
    case Template => TemplateLines(v, base, stem, ext, query);
  }

  /** A loop prints a line exactly when one of its entries yields it. */
  lemma {:induction false} BlockMembers(kind: Kind, vals: seq<string>, base: string, stem: string, ext: string, query: string, c: string)
    ensures c in Block(kind, vals, base, stem, ext, query)
        <==> exists v :: v in vals && FromEntry(c, kind, v, base, stem, ext, query)
  {
    if vals != [] {
      var init, last := vals[..|vals| - 1], vals[|vals| - 1];
      assert vals == init + [last];
      BlockMembers(kind, init, base, stem, ext, query, c);
      VariantsFromEntry(kind, last, base, stem, ext, query, c);
      if exists v :: v in vals && FromEntry(c, kind, v, base, stem, ext, query) {
        var v :| v in vals && FromEntry(c, kind, v, base, stem, ext, query);
        if v != last {
          assert v in init;
        }
      }
    }
  }

  /**
   * Whatever order the catalogs are enumerated in, the candidates of one base
   * are exactly the lines the catalogs make of the stem and extension.
   */
  lemma CandidatesAreCatalogNames(base: string, stem: string, ext: string, query: string, order: Order, c: string)
    requires IsOrder(order)
    ensures c in Candidates(base, stem, ext, query, order) <==> MadeFromCatalogs(c, base, stem, ext, query)
  {
    OrderCoversCatalogs(order);
    BlockMembers(Suffix, order.extensions, base, stem, ext, query, c);
    BlockMembers(Prefix, order.symbols, base, stem, ext, query, c);
    BlockMembers(Template, order.patterns, base, stem, ext, query, c);
  }

  /** 31 candidates per base without an extension, 62 with one. */
  lemma CandidatesPerBase(base: string, stem: string, ext: string, query: string, order: Order)
    requires IsOrder(order)
    ensures |Candidates(base, stem, ext, query, order)| == if ext == "" then 31 else 62
  {
    OrderCoversCatalogs(order);
  }

  /** Every template of the catalog holds `VAL` exactly once. */
  lemma TemplatesHoldOnePlaceholder()
    ensures forall t :: t in Patterns ==> |Split(t, Placeholder)| == 2
  {
    forall t | t in Patterns
      ensures |Split(t, Placeholder)| == 2
    {
      var k :| 0 <= k < |Patterns| && Patterns[k] == t;
      TemplateAt(k);
    }
  }

  /** Template `k`, written as the text before and after its `VAL`. */
  lemma TemplateAt(k: nat)
    requires k < |Patterns|
    ensures |Split(Patterns[k], Placeholder)| == 2
  {
    var (before, after) :=
      if k == 0 then ("_", "_")
      else if k == 1 then ("__", "__")
      else if k == 2 then ("--", "--")
      else if k == 3 then ("", "--old")
      else if k == 4 then ("__", "_backup__")
      else ("__", "__.bak");
    assert Patterns[k] == before + Placeholder + after;
    OnePlaceholder(before, after);
  }

  lemma OnePlaceholder(before: string, after: string)
    requires 'V' !in before && 'V' !in after
    ensures Split(before + Placeholder + after, Placeholder) == [before, after]
  {
    SplitAtPlaceholder(before, after);
    SplitWithoutPlaceholder(after);
  }

  /** Text with no `V` holds no `VAL` to cut at. */
  lemma {:induction false} SplitWithoutPlaceholder(s: string)
    requires 'V' !in s
    ensures Split(s, Placeholder) == [s]
  {
    if |s| >= 3 {
      assert s[..3][0] == s[0];
      SplitWithoutPlaceholder(s[1..]);
      assert [s[0]] + s[1..] == s;
    }
  }

  /** The first cut falls at the first `VAL` when the text before it has no `V`. */
  lemma {:induction false} SplitAtPlaceholder(before: string, after: string)
    requires 'V' !in before
    ensures Split(before + Placeholder + after, Placeholder) == [before] + Split(after, Placeholder)
  {
    var s := before + Placeholder + after;
    if before == "" {
      assert s[..3] == Placeholder;
      assert s[3..] == after;
    } else {
      assert s[..3][0] == before[0];
      assert s[1..] == before[1..] + Placeholder + after;
      SplitAtPlaceholder(before[1..], after);
      assert [before[0]] + before[1..] == before;
    }
  }
}
