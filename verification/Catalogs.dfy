/**
 * The three fixed transformation catalogs of `Global`. The source holds them in
 * Python sets, whose iteration order depends on string hashing; the lists below
 * carry the entries in the order they are written, and `Order` is whatever order
 * a run enumerates them in.
 */
module Catalogs {

  /** `Global.archive_extensions`: suffixes appended after a dot. */
  const Extensions: seq<string> :=
    ["gz", "rar", "tar", "zip", "swp", "swo", "swn", "bak", "bak1", "bak2",
     "backup", "old", "copy", "save", "txt", "tmp", "temp", "~", "1", "2"]

  /** `Global.archive_symbols`: markers put in front of the file name. */
  const Symbols: seq<string> := [".", "_", "__", "~", "._"]

  /** `Global.archive_patterns`: templates whose `VAL` is replaced by the file name. */
  const Patterns: seq<string> :=
    ["_VAL_", "__VAL__", "--VAL--", "VAL--old", "__VAL_backup__", "__VAL__.bak"]

  predicate Distinct(s: seq<string>)
  {
    forall i, j :: 0 <= i < j < |s| ==> s[i] != s[j]
  }

  /** The order in which one run visits the three catalogs. */
  datatype Order = Order(extensions: seq<string>, symbols: seq<string>, patterns: seq<string>)

  /** Each catalog is visited exactly once per entry, in some order. */
  predicate IsOrder(o: Order)
  {
    multiset(o.extensions) == multiset(Extensions) &&
    multiset(o.symbols) == multiset(Symbols) &&
    multiset(o.patterns) == multiset(Patterns)
  }


  /**
   * The literal lists hold no entry twice, so they are the sets the source
   * builds, with 20, 5 and 6 members.
   */
  lemma ExtensionsAreSet()
    ensures Distinct(Extensions) && |Extensions| == 20
  {
    ExtensionsFrom0();
    ExtensionsFrom5();
    ExtensionsFrom10();
    ExtensionsFrom15();
  }

  /** No entry in positions `lo` to `hi - 1` of `s` appears again later in it. */
  predicate NotRepeatedFrom(s: seq<string>, lo: int, hi: int)
  {
    forall i, j :: 0 <= lo <= i < hi && i < j < |s| ==> s[i] != s[j]
  }

  lemma ExtensionsFrom0()
    ensures NotRepeatedFrom(Extensions, 0, 5)
  {
  }

  lemma ExtensionsFrom5()
    ensures NotRepeatedFrom(Extensions, 5, 10)
  {
  }

  lemma ExtensionsFrom10()
    ensures NotRepeatedFrom(Extensions, 10, 15)
  {
  }

  lemma ExtensionsFrom15()
    ensures NotRepeatedFrom(Extensions, 15, 20)
  {
  }

  lemma SymbolsAreSet()
    ensures Distinct(Symbols) && |Symbols| == 5
  {
  }

  lemma PatternsAreSet()
    ensures Distinct(Patterns) && |Patterns| == 6
  {
  }

  /** Every enumeration visits each entry of each catalog and nothing else. */
  lemma OrderCoversCatalogs(o: Order)
    requires IsOrder(o)
    ensures |o.extensions| == 20 && |o.symbols| == 5 && |o.patterns| == 6
    ensures forall v :: v in o.extensions <==> v in Extensions
    ensures forall v :: v in o.symbols <==> v in Symbols
    ensures forall v :: v in o.patterns <==> v in Patterns
  {
    assert forall v :: v in o.extensions <==> v in multiset(o.extensions);
    assert forall v :: v in o.symbols <==> v in multiset(o.symbols);
    assert forall v :: v in o.patterns <==> v in multiset(o.patterns);
  }
}
