# undust, modelled in Dafny

`undust.py` takes known URLs and prints candidate URLs for backup copies of the
file each one names. Examples are `main.php.bak`, `.main.php` and
`__main.php__.bak`. This project models its core and proves properties of it:

- the three catalogs of `Global`: archive extensions, prefix symbols and `VAL`
  templates;
- `is_valid_url`;
- `split_url`, which takes a URL apart into host root, directory URL, endpoint,
  query and directories;
- `generate_archive_urls`, which prints the candidates for one base URL;
- `undust`, which applies the four skip filters, splits the endpoint into stem
  and extension, builds the query suffix, and calls the generator once or once
  per ancestor directory.

Files:

- `Optional.dfy`: the `Option` type.
- `Text.dfy`: the Python string operations the source calls (`split`,
  `join`, `strip` and `rsplit(c, 1)`) and a list comprehension that drops
  empty strings. `lstrip`, `rstrip` and `rfind` are modelled only as the
  helpers that define `strip` and `rsplit`.
- `Catalogs.dfy`: the three catalogs.
  - The source keeps them in Python sets, whose iteration order is set by
    string hashing.
  - A run's order is the parameter `Order`. `IsOrder` requires that each list
    it holds is a permutation of its catalog.
  - Every property about output contents is stated for any such order.
- `UrlSplit.dfy`: `is_valid_url` and `split_url`.
  - `urllib.parse.urlparse` is not modelled; its result is the input
    `ParsedUrl`.
  - `None` stands for a URL on which `urlparse` raises.
- `Generator.dfy`: `generate_archive_urls`.
  - It is a method that returns the lines it prints. Each of its three loops
    is a method of its own, proved equal to the function `Block`.
  - It is proved equal to the function `Candidates`, whose contents and size
    are characterised.
- `Undust.dfy`: `undust`.
  - It is a method with the same early returns and the same all-directories
    loop.
  - It is proved equal to `Prepare` (the filters and what they hand on) and
    `Emitted` (everything printed).
  - A skip is reported as `Skipped(reason)` rather than as a line on standard
    error.
- `Examples.dfy`: worked sample inputs, stated over symbolic host and path
  parts.

Behaviour of the code that one might not expect:

- One might expect the stem to be non-empty. It is empty for an endpoint such
  as `.bak`, because `rsplit('.', 1)` gives `['', 'bak']`
  (`Examples.DotFileHasEmptyStem`).
- The stem is also empty for an endpoint made only of whitespace. `strip()`
  runs after the endpoint check, so such an endpoint still reaches the
  generator (`Examples.BlankEndpointHasEmptyStem`).
- The length filter is silent: the code writes no diagnostic for it.
- A negative `-l` value is truthy in Python, so it skips every URL
  (`Undust.LengthLimit`).

## Model

| member | source | states |
|---|---|---|
| Text.Split | undust.py:60 | `str.split(sep)` gives at least one part, the parts joined with `sep` give the input back, and with a one-character separator no part contains it |
| Text.SplitJoin | undust.py:60 | splitting parts joined with a one-character separator gives the parts back when none of them holds it |
| Text.NonEmpty | undust.py:63 | `[p for p in parts if p]` keeps exactly the non-empty parts and is no longer than its input |
| Text.Strip | undust.py:60 | `strip(chars)` is the input with a leading run and a trailing run of characters in `chars` cut off; neither end of the result is in `chars`; nothing changes when no character is in `chars` |
| Text.StripUnique | undust.py:60 | any cutting of leading and trailing runs of `chars` whose result has neither end in `chars` gives exactly `strip(chars)`, so the contract of `Strip` determines its result |
| Text.SplitIgnoresStrip | undust.py:60-63 | stripping `/` before splitting on `/` only drops empty parts, so the non-empty segments are those of the raw path |
| Text.RFind | undust.py:142 | helper for `rsplit('.', 1)`: the index of the last occurrence of a character, or -1 exactly when it does not occur |
| Text.RSplitOnce | undust.py:142 | `rsplit(c, 1)` gives two parts exactly when `c` occurs, their join with `c` is the input, and the second part holds no `c` |
| Catalogs.ExtensionsAreSet | undust.py:51 | the 20 archive extensions are distinct |
| Catalogs.SymbolsAreSet | undust.py:52 | the 5 prefix symbols are distinct |
| Catalogs.PatternsAreSet | undust.py:53 | the 6 templates are distinct |
| Catalogs.OrderCoversCatalogs | undust.py:50-53 | any iteration order of the sets visits 20, 5 and 6 entries, which are exactly the catalog entries |
| Generator.TemplatesHoldOnePlaceholder | undust.py:53 | every template holds the placeholder `VAL` exactly once |
| Generator.Substitute | undust.py:115-116 | `p.replace('VAL', v)` leaves a template without the placeholder unchanged, and on one with a single placeholder puts `v` between the text before and after it |
| UrlSplit.ValidUrlRoot | undust.py:96-101 | a URL is valid exactly when `urlparse` succeeds, the host is non-empty, and the host root `scheme://netloc/` is `http://host/` or `https://host/` |
| UrlSplit.Segments | undust.py:60-63 | the path's segments are non-empty and hold no `/` |
| UrlSplit.SplitUrl | undust.py:57-79 | root is `scheme://netloc/`; the directory URL starts with it and ends with `/`; there is no endpoint exactly when the path ends in `/` or has no segments; the endpoint is the last segment and the directories the ones before it, otherwise all segments; the query is absent exactly when it is empty |
| UrlSplit.FromSegments | undust.py:65-79 | given the non-empty segments, there is no endpoint exactly when the path ends in `/` or there are no segments; otherwise the endpoint is the last segment and the directories are the ones before it |
| UrlSplit.DirectoryUrl | undust.py:72-74 | `base_url + '/'` starts with `scheme://netloc/` and ends with `/` |
| UrlSplit.DirectoryUrlShape | undust.py:72-79 | the directory URL is the root, followed by the directories joined with `/` and a final `/` when there are any |
| UrlSplit.ReassembleFile | undust.py:72-79 | the directory URL followed by the endpoint is `scheme://netloc/` plus the segments joined with `/` |
| UrlSplit.ReassembleDirectory | undust.py:72-79 | without an endpoint, the directory URL is `scheme://netloc/` plus the segments joined with `/` and closed by `/` |
| UrlSplit.FilePathRoundTrip | undust.py:57-79 | a path `/s1/.../sn` with non-empty segments gives endpoint `sn` and directories `s1..s(n-1)`, and the directory URL plus the endpoint is `scheme://netloc` plus the path |
| UrlSplit.DirectoryPathRoundTrip | undust.py:57-79 | a path `/s1/.../sn/` has no endpoint, its directories are `s1..sn`, and the directory URL is `scheme://netloc` plus the path |
| Generator.Variants | undust.py:106-116 | one catalog entry yields one line, or two when there is an extension, each starting with the base and ending with the query suffix |
| Generator.Block | undust.py:106-116 | one loop over `n` entries prints `n` lines, or `2n` with an extension, each starting with the base and ending with the query suffix |
| Generator.Candidates | undust.py:105-116 | the lines for one base number `PerEntry(ext)` times the total catalog size, and each starts with the base and ends with the query suffix |
| Generator.GenerateArchiveUrls | undust.py:105-116 | the three loops print exactly `Candidates`, so the count and the prefix and suffix of each line are those proved for `Candidates` |
| Generator.SuffixLoop | undust.py:106-108 | the loop over the archive extensions prints exactly `Block` of them: the stem, then `stem.ext`, followed by `.` and each extension |
| Generator.PrefixLoop | undust.py:110-112 | the loop over the symbols prints exactly `Block` of them: each symbol before the stem, then before `stem.ext` |
| Generator.TemplateLoop | undust.py:114-116 | the loop over the templates prints exactly `Block` of them: each template with `VAL` replaced by the stem, then by `stem.ext` |
| Generator.VariantsFromEntry | undust.py:106-116 | a line comes from one catalog entry exactly when it is that entry's suffix, prefix or template form of the stem or of `stem.ext` |
| Generator.BlockMembers | undust.py:106-116 | a loop prints a line exactly when one of its entries yields it |
| Generator.CandidatesAreCatalogNames | undust.py:105-116 | in any iteration order, the lines for a base are exactly those the catalogs make of the stem and extension |
| Generator.CandidatesPerBase | undust.py:105-116 | 31 lines per base without an extension and 62 with one |
| Undust.SplitExtension | undust.py:139-144 | with a dot, stem + `.` + extension is the endpoint and the extension holds no dot; without one, the stem is the endpoint and the extension is empty |
| Undust.ExtensionEmptyIff | undust.py:139-146 | the extension is empty exactly when the endpoint has no dot or ends with one |
| Undust.LengthLimit | undust.py:123-124 | without `-l` or with `-l 0` no URL is too long; a negative limit rejects every URL; a positive limit rejects exactly the URLs longer than it |
| Undust.QuerySuffix | undust.py:150 | the query suffix is empty exactly when the query is stripped, absent or empty, and otherwise is `?` followed by the query |
| Undust.Prepare | undust.py:120-150 | a URL reaches the generator only within the length limit, valid and with an endpoint; it gets at least one base; the extension holds no dot, and is non-empty under `-eo` |
| Undust.PrintableKept | undust.py:138 | `strip()` leaves an endpoint of printable non-space ASCII unchanged |
| Undust.Filters | undust.py:120-148 | a URL is skipped for length exactly when a non-zero limit is exceeded; as not http(s) exactly when it passes that and the scheme or host is wrong; for lacking an endpoint, and for lacking an extension under `-eo`, exactly when the earlier filters pass and its own condition holds |
| Undust.StemAndQuery | undust.py:138-150 | for a URL that is generated for, stem and extension rebuild the stripped endpoint, and the query suffix is empty under `-sq` or without a query and `?` + query otherwise |
| Undust.Passes | undust.py:152-161 | one pass at the directory URL unless `-a` is given and there are directories; then `len(directories) + 1` passes, starting at the root, each base extending the previous one by a directory and `/`, and the last equal to the directory URL |
| Undust.DirPath | undust.py:156-161 | the `path` the loop has built after its first k steps is the first k directories joined with `/`, plus `/` |
| Undust.WalkSteps | undust.py:156-161 | the walk's bases start at the host root, each one extends the one before by the next directory and `/`, and the last is the root plus the whole `path` |
| Undust.WalkBasesFromRoot | undust.py:156-161 | every base of the all-directories walk starts with the host root |
| Undust.Bases | undust.py:152-161 | one pass, or `len(directories) + 1` passes under `-a`; the first base is the directory URL, or the host root under `-a` with directories; when the directory URL starts with the host root, every base does |
| Undust.Emitted | undust.py:152-161 | the lines printed for a job number the bases times the lines per base |
| Undust.EmittedBlocks | undust.py:152-161 | block `k` of the printed lines is exactly the generator's output for base `k` |
| Undust.EmittedLines | undust.py:152-161 | every printed line starts with what every base starts with and ends with the query suffix |
| Undust.EmittedCount | undust.py:152-161 | 31 lines per base without an extension and 62 with one |
| Undust.GeneratePasses | undust.py:152-161 | the generator calls, including the `path` loop, print exactly `Emitted` of the bases |
| Undust.Undust | undust.py:120-161 | a skipped URL prints nothing and reports the first failing filter; otherwise it prints exactly `Emitted` of the job that `Prepare` computes |
| Undust.GeneratedLines | undust.py:120-161 | for a URL that is generated for: `len(directories) + 1` passes under `-a` and one otherwise, 31 or 62 lines per pass, each starting with `scheme://netloc/` and ending with the query suffix |
| Examples.FileInDirectory | undust.py:120-161 | `https://x.test/app/main.php?id=1` runs once at `https://x.test/app/` with stem `main`, extension `php` and suffix `?id=1` |
| Examples.BackupCopyIsProbed | undust.py:106-108 | the file name with `.bak` appended is among the lines for a base |
| Examples.DotSplit | undust.py:141-144 | an endpoint written as stem, dot and dot-free extension splits into exactly those |
| Examples.DotFileHasEmptyStem | undust.py:141-144 | the endpoint `.bak` splits into the empty stem and the extension `bak` |
| Examples.BlankEndpointHasEmptyStem | undust.py:134-150 | the whitespace-only endpoint of `/ ` passes the filters and reaches the generator with an empty stem and no extension |
| Examples.HostRootIsSkipped | undust.py:134-136 | `https://x.test/` has no endpoint and is skipped |
| Examples.LengthLimitComesFirst | undust.py:123-125 | with `-l 10`, a 29-character URL is skipped whatever it parses to |
| Examples.DotlessEndpointSkipped | undust.py:146-148 | under `-eo`, an endpoint without a dot is skipped |
| Examples.AllDirsWalk | undust.py:155-161 | with `-a`, `/a/b/c/x.php` gives the four bases root, `a/`, `a/b/` and `a/b/c/` |

## Left out

- argparse and the global `args` (undust.py:21-33) are not modelled. The options the core reads are the `Config` record.
- The banner and ANSI colours (undust.py:8-17, 169-189) are not modelled; they only affect presentation.
- `get_file_contents` and the standard-input loop with its `sleep(0.1)` (undust.py:83-92, 193-215) are not modelled. They are I/O and timing. The model handles one URL per call.
- `urllib.parse.urlparse` is not modelled. Its scheme, netloc, path and query are an input, or `None` when it raises. Both `is_valid_url` and `split_url` parse the same string, so both see the same input.
- `exit_with_msg` and the catch-all `except` that prints an error and calls `exit()` (undust.py:163-165) are not modelled. Every step of the model is total, so no operation raises.
- The text and colours of the diagnostics on standard error are not modelled. Only the reason is kept, as `SkipReason`.
- The iteration order of Python sets is not modelled; it is the `Order` parameter. Contents and counts are proved for every order; the exact order of lines is not.
- Undust.Undust: the ensures ties the printed lines to `Prepare` and `Emitted`. Their count, prefixes and suffixes, and the skip conditions are proved separately in `GeneratedLines`, `Filters` and `EmittedBlocks`. Those lemmas need `IsOrder`, which the method does not require.
- Printing is modelled as the returned sequence of lines. Interleaving with standard error and output buffering are not modelled.
