# FileFetcher (WaybackDigger) in Dafny

This project models the sequence logic of `filefetcher.py`, the whole program of
the WaybackDigger tool, and proves properties of that model. The tool has two
main flows that write `valid_urls.txt`:

- **process_domains**:
  1. For each domain, it asks the Wayback Machine CDX index for every archived
     URL under that domain.
  2. It keeps the URLs whose text matches a file-extension pattern.
  3. It concatenates the kept URLs of all domains and sends one HEAD request per
     URL.
  4. It writes the URLs that answered 200, joined by newlines.
- **process_file_with_urls** reads URLs from a file and runs the same filter,
  validation and save steps on them.

The domain lists come from one of two places:

- a file, read by the line loader (strip every line, drop blank ones);
- every `.txt` file in a directory (`load_domains_from_directory`).

The two network edges are parameters:

- `Fetch.Archive` maps the CDX query to the final response, or to `None` when
  the session raised a `RequestException`.
- `Validate.Probe` maps a URL to the HEAD status, or to `None` when the request
  raised.

Files and directories are given as their contents. `Loader.Directory` is either
`NotADirectory` or the `os.listdir` listing in the order the operating system
returned it. In that listing, each entry's content is `None` when opening or
reading it raised.

Modules:

- `Base`: options, subsequences, `Filter`, `Flatten`, `Map` and `ConcatMap`,
  with their algebra.
- `PyText`: Python's text primitives as the program uses them:
  - `str.isspace` whitespace;
  - `str.strip`;
  - `str.splitlines` and universal-newline file iteration, which differ only in
    the set of line breaks;
  - `"\n".join`.
- `FileType`: the `FILE_EXTENSIONS` search (`re.search` with `re.IGNORECASE`)
  and `filter_urls_by_filetype`.
- `Fetch`: the CDX query and `fetch_wayback_urls`.
- `Validate`: `validate_urls`.
- `Loader`: the line loader, the file round trip and
  `load_domains_from_directory`.
- `Pipeline`: `process_domains`, `save_to_file` and `process_file_with_urls`.

What the code does, stated where it might surprise a reader:

- The type match is an unanchored search, so the extension need not end the
  path. `.sh` accepts `.shtml`, `.md` accepts `.md5`, and the host
  `www.docs.example.com` passes on `.doc` (`FileType.MatchesIff`).
- `splitlines` keeps blank lines and does not strip. A body `"a\nb\n\n"`
  yields `["a", "b", ""]` (`Fetch.FetchKeepsBlankLine`). Those blank lines never
  reach validation, because they hold no dot (`FileType.NoDotNeverMatches`).
- Nothing removes duplicates, neither within one domain nor across domains
  (`Validate.ValidatedCounts`, `Pipeline.RepeatedDomainsRepeatResults`).
- Probing is one sequential loop, one HEAD request at a time. The result keeps
  the input order (`Validate.ValidateUrls`).

## Model

| member | source | states |
|---|---|---|
| FileType.MatchesIff | filefetcher.py:15 | a URL passes exactly when some index holds a dot followed by one of the 48 alternatives, compared ignoring case; the position is unconstrained |
| FileType.MatchesIffSomePosition | filefetcher.py:49 | the left-to-right scan of `re.search` succeeds exactly when the pattern matches at some index |
| FileType.AnyExtensionAtIff | filefetcher.py:15 | the alternation matches at a point exactly when one of its alternatives is a case-insensitive prefix there |
| FileType.StartsWithIsPrefix | filefetcher.py:15 | the character-by-character comparison of one alternative agrees with the declarative "first n characters equal up to case" |
| FileType.MatchWitness | filefetcher.py:49 | a passing URL yields an index holding a dot and an alternative that follows it |
| FileType.WitnessMatches | filefetcher.py:49 | a dot followed by an alternative anywhere in the URL makes it pass |
| FileType.MatchesAtIff | filefetcher.py:15 | the pattern matches at index i exactly when i holds a dot and some alternative follows it |
| FileType.Search | filefetcher.py:49 | returns the leftmost index where the pattern matches (what `match.start()` reports), with no match before it, or None exactly when no index matches |
| FileType.MatchesIgnoresCase | filefetcher.py:49 | two URLs that agree under `Fold` (ASCII case plus U+0130, U+0131, U+017F, U+212A) either both pass or both fail |
| FileType.AnyExtensionIgnoresCase | filefetcher.py:15 | the alternation cannot tell apart two texts that agree under `Fold` (ASCII case plus U+0130, U+0131, U+017F, U+212A) |
| FileType.CaseNeverChangesMembership | filefetcher.py:49 | lower-casing or upper-casing the ASCII letters of a URL never changes whether it passes |
| FileType.NoDotNeverMatches | filefetcher.py:15 | a string without a dot never passes, including the empty lines that `splitlines` keeps |
| FileType.MatchHasDot | filefetcher.py:15 | every passing string holds a dot |
| FileType.FilterByFileType | filefetcher.py:48-51 | the result is an order-preserving subsequence of the input, no longer than it, holding exactly the input URLs that pass, each with a dot |
| FileType.FilterByFileTypeCounts | filefetcher.py:49 | every passing URL is kept as many times as it occurs, and every other URL zero times |
| FileType.FilterByFileTypeIdempotent | filefetcher.py:49 | filtering the filtered list changes nothing |
| FileType.FilterByFileTypeConcat | filefetcher.py:49 | filtering a concatenation equals concatenating the filtered parts |
| Base.Filter | filefetcher.py:49 | the comprehension-with-condition keeps an order-preserving subsequence holding exactly the elements that satisfy the condition |
| Base.FilterCounts | filefetcher.py:49 | the comprehension keeps the multiplicity of every element that satisfies the condition and drops every other |
| Base.FilterConcat | filefetcher.py:49 | filtering distributes over concatenation |
| Base.FilterSnoc | filefetcher.py:56-60 | one more loop iteration appends the new element exactly when it passes |
| Base.FilterIdempotent | filefetcher.py:49 | filtering twice by the same condition equals filtering once |
| Base.FilterKeepsAll | filefetcher.py:56-60 | when every element passes, the whole list is kept, in order |
| Base.FlattenConcat | filefetcher.py:77 | extending the accumulator part by part yields the concatenation of every part |
| Base.FlattenMembers | filefetcher.py:106 | an element is in the accumulated list exactly when it is in one of the parts |
| Base.FlattenRemove | filefetcher.py:100-106 | taking one part out of the accumulation takes exactly its elements out of the result multiset |
| Base.FlattenPermutation | filefetcher.py:100-106 | reordering the parts leaves the multiset of accumulated elements unchanged |
| Base.ConcatMapConcat | filefetcher.py:73-77 | the per-domain accumulation over a cut list of domains is the accumulation over each half, concatenated |
| Base.ConcatMapMembers | filefetcher.py:73-77 | an element is accumulated exactly when one domain's contribution holds it |
| Base.MapConcat | filefetcher.py:100-106 | processing a split listing gives the per-entry results of each part, concatenated |
| Base.MapPermutation | filefetcher.py:100 | reordering the listing reorders the per-entry results and changes nothing else |
| Fetch.ArchiveQuery | filefetcher.py:19-24 | the query asks for `*.<domain>/*` (prefix, suffix and domain in between), collapsed by `urlkey`, as text, reporting only `original` |
| Fetch.ArchiveQueryInjective | filefetcher.py:20 | distinct domains send distinct queries |
| Fetch.FetchWaybackUrls | filefetcher.py:38-46 | a raised request or a 4xx/5xx status gives []; otherwise the lines hold exactly the body's characters minus its line breaks, none holds a break, and the list is empty exactly when the body is |
| Fetch.FetchTerminatedBody | filefetcher.py:41 | a body in which every line ends in "\n" comes back line by line, blank lines included |
| Fetch.FetchKeepsBlankLine | filefetcher.py:41 | the body "a\nb\n\n" with status 200 yields ["a", "b", ""] |
| PyText.TrimStartSpec | filefetcher.py:85 | the left half of `strip()` removes a whitespace prefix and keeps a suffix that starts with a non-space or is empty |
| PyText.TrimEndSpec | filefetcher.py:85 | the right half of `strip()` removes a whitespace suffix and keeps a prefix that ends with a non-space or is empty |
| PyText.Strip | filefetcher.py:85 | `line.strip()` has no whitespace at either end, and is empty exactly when the line is all whitespace |
| PyText.StripIsInfix | filefetcher.py:85 | `line.strip()` is the infix of the line between a whitespace prefix and a whitespace suffix |
| PyText.StripStripped | filefetcher.py:85 | stripping an already stripped string returns it unchanged |
| PyText.Split | filefetcher.py:41 | `splitlines()` returns lines free of breaks whose concatenation is the text minus its breaks, and returns [] only for "" |
| PyText.SplitLineThenRest | filefetcher.py:41 | a break-free line followed by "\n" splits off as exactly that line |
| PyText.SplitLineBreakRest | filefetcher.py:41 | a break-free line followed by any single break character of the mode splits off as exactly that line, unless the break is "\r" and "\n" follows it |
| PyText.SplitLineCrLfRest | filefetcher.py:41 | a break-free line followed by "\r\n" splits off as exactly that line: the pair is one terminator |
| PyText.SplitTwoLines | filefetcher.py:41 | two break-free lines, the second non-empty, separated by one break character or by "\r\n", split into exactly those two lines |
| PyText.VerticalTabSplitsOnlyForSplitlines | filefetcher.py:41 | `splitlines` breaks at a vertical tab, while a file read in text mode keeps it inside the line |
| PyText.SplitSingleLine | filefetcher.py:41 | a non-empty break-free text is one line |
| PyText.SplitTerminated | filefetcher.py:41 | splitting a text in which every break-free line ends in "\n" gives back those lines |
| PyText.SplitJoin | filefetcher.py:68 | splitting `"\n".join(xs)` returns xs when no entry holds a break and the last entry is not empty |
| Loader.StripNonBlank | filefetcher.py:85 | `[line.strip() for line in f if line.strip()]` is no longer than its input and holds only non-empty stripped strings |
| Loader.StripNonBlankMembers | filefetcher.py:85 | a string is loaded exactly when it is non-empty and some line strips to it |
| Loader.StripKeepsNoBreak | filefetcher.py:85 | stripping cannot introduce a line break |
| Loader.StripNonBlankNoBreak | filefetcher.py:85 | loading break-free lines gives break-free entries |
| Loader.StripNonBlankConcat | filefetcher.py:85 | loading two runs of lines one after the other concatenates their results |
| Loader.StripNonBlankClean | filefetcher.py:85 | a list of non-empty stripped strings loads unchanged |
| Loader.LoadLines | filefetcher.py:84-85 | every loaded entry is non-empty, stripped and free of universal newlines |
| Loader.LoadLinesMembers | filefetcher.py:85 | a string is loaded from a file exactly when it is non-empty and some line of the file strips to it |
| Loader.SaveThenLoad | filefetcher.py:68 | loading `"\n".join(xs)` gives the loader applied to xs when no entry holds a break |
| Loader.SaveLoadRoundTrip | filefetcher.py:68 | saving non-empty, stripped, break-free entries and loading them back returns exactly the same list |
| Loader.LoadSaveLoad | filefetcher.py:68 | loading what was saved from a load gives the same list again |
| Loader.MergeMembers | filefetcher.py:100-106 | a domain is merged exactly when some readable `.txt` entry's loaded lines hold it, and every merged domain is non-empty and stripped |
| Loader.LoadDomainsFromDirectory | filefetcher.py:94-110 | a path that is not a directory gives [], and every domain loaded from a directory is non-empty and stripped |
| Loader.DirectoryMembers | filefetcher.py:96-106 | a domain is loaded exactly when the path is a directory and one of its readable `.txt` files holds it |
| Loader.DirectoryCountIsSum | filefetcher.py:100-106 | a directory yields as many domains as its readable `.txt` files hold together, repetitions included |
| Loader.ListingOrderIrrelevant | filefetcher.py:100 | the order of `os.listdir` changes neither which domains are loaded, nor how often each one is, nor how many there are |
| Loader.MergeCons | filefetcher.py:100-106 | the first entry contributes its domains in front of the domains of the rest |
| Loader.OnlyTxtFilesCount | filefetcher.py:101-109 | dropping every entry that is not a readable `.txt` file changes nothing |
| Loader.LoadPlainLine | filefetcher.py:85 | a line of visible ASCII characters loads as itself |
| Loader.LoadTwoLines | filefetcher.py:85 | two visible-ASCII lines joined by "\n" load as those two lines |
| Loader.TwoFilesMergeToThree | filefetcher.py:100-110 | files "a.txt" holding "x.com" and "b.txt" holding "y.com\nz.com" merge to [x.com, y.com, z.com], and to three domains in the other listing order |
| Loader.MergeEitherOrder | filefetcher.py:100-106 | entries contributing one and two domains merge to those three in listing order, and to three in the other order |
| Validate.Validated | filefetcher.py:53-64 | the validated list is an order-preserving subsequence holding exactly the URLs whose probe answered 200 |
| Validate.ValidateUrls | filefetcher.py:55-62 | every URL is probed once, in order; the result holds exactly the URLs that answered 200, in input order, and a raised request or any other status drops the URL |
| Validate.ValidatedCounts | filefetcher.py:56-60 | a live URL is kept as many times as it was listed, and any other URL zero times |
| Validate.ValidatedConcat | filefetcher.py:56-62 | validating a concatenation equals validating each part |
| Validate.ValidatedIdempotent | filefetcher.py:56-62 | validating the validated list again with the same answers drops nothing more |
| Validate.AllAliveKeepsAll | filefetcher.py:56-62 | when every URL answers 200, the whole list is kept, duplicates included |
| Pipeline.DomainCandidates | filefetcher.py:75-76 | a URL is one domain's candidate exactly when the archive listed it for that domain and it passes the filter; every candidate holds a dot and no line break |
| Pipeline.CandidateMembers | filefetcher.py:72-77 | a URL reaches validation exactly when it passes the filter and the archive listed it for one of the domains, and every such URL holds a dot and no break |
| Pipeline.CandidatesConcat | filefetcher.py:73-77 | the candidates of a cut domain list are those of each half, concatenated |
| Pipeline.CandidatesSnoc | filefetcher.py:77 | one more domain appends exactly its filtered URLs at the end |
| Pipeline.FailedFetchContributesNothing | filefetcher.py:44-46 | a domain whose request raised, or whose status was an HTTP error, contributes nothing and does not disturb the domains after it |
| Pipeline.RepeatedDomainsRepeatResults | filefetcher.py:71-79 | when the archive and the probe answer the same way both times, listing the domains twice validates and saves every result twice; nothing deduplicates |
| Pipeline.BatchEqualsPerDomain | filefetcher.py:76-78 | validating once over the concatenation equals validating each domain's matches separately and concatenating |
| Pipeline.NoSplitlinesBreakMeansNoNewline | filefetcher.py:41 | a line free of `splitlines` breaks is free of universal newlines |
| Pipeline.CollectCandidates | filefetcher.py:72-77 | the loop leaves all_urls equal to every domain's filtered URLs, concatenated in domain order |
| Pipeline.ProcessDomains | filefetcher.py:71-79 | validation runs once, over the concatenated candidates; the saved list holds exactly the URLs that answered 200, passed the filter and were listed for some domain; the saved text is the newline join, and reading it back gives the validated URLs, each stripped (`splitlines` does not strip, so a listed " https://example.com/a.pdf" is saved with its space and reads back without it) |
| Pipeline.ValidDomainUrls | filefetcher.py:71-79 | the validated candidates are exactly the filtered, listed URLs that answered 200, and their saved text reads back as those URLs, each stripped and with any that strip to nothing dropped |
| Pipeline.SavedUrlReadsBackStripped | filefetcher.py:68 | the saved list [" https://example.com/a.pdf"] is written as " https://example.com/a.pdf" and reads back as ["https://example.com/a.pdf"]: the file does not always give back the list that was saved |
| Pipeline.SpacedLineReadsBack | filefetcher.py:68 | a saved line with one leading space reads back as that line without the space |
| Pipeline.SaveToFile | filefetcher.py:66-68 | the written text, read back by the line loader, gives the loader applied to the saved list whenever no entry holds a line break |
| Pipeline.SavedTextReadsBack | filefetcher.py:68 | break-free entries written with `"\n".join` load back as the loader applied to them |
| Pipeline.ProcessFileWithUrls | filefetcher.py:82-92 | a missing file does nothing; otherwise the loaded lines are filtered then validated, the result holds exactly the loaded URLs that pass and answered 200, the saved text is their newline join, and it reads back as exactly that list |

## Left out

- HTTP session configuration (filefetcher.py:26-36): the `Retry` policy
  (up to 5 retries after the first request, backoff, `status_forcelist`) and the 10-second timeout are part of
  the `Archive` parameter. The model only sees the final outcome. The same holds
  for the HEAD request's 5-second timeout inside the `Probe` parameter.
- Exceptions other than `RequestException` in `fetch_wayback_urls` and
  `validate_urls`: they propagate and end the program, and the model does not
  represent them.
- `process_file_with_urls`: only `FileNotFoundError` is modelled (`None`
  content). Any other `OSError` or decoding error propagates out of the function
  and is not modelled.
- Text decoding of files and response bodies: contents are given as strings of
  code points.
- The translation of "\n" to `os.linesep` when writing `valid_urls.txt` in text
  mode. On the platforms where the translation is not the identity,
  universal-newline reading undoes it.
- Both oracles are functions, so the model assumes that one URL always gets the
  same HEAD answer and one domain always gets the same archive answer. In the
  program every call sends a new request (filefetcher.py:58 and :39), which can
  fail or return a different body the next time. This matters when a domain or
  URL appears twice, as in `Pipeline.RepeatedDomainsRepeatResults`.
- `os.listdir` order is whatever the operating system returns. The model takes
  it as the given listing and proves that it does not matter beyond the order
  of the result.
- Console output: colorama colours, tqdm progress, the pyfiglet banner and every
  `print`. These are presentation only.
- The interactive menu in `main` (filefetcher.py:113-151). It is input dispatch
  that chains the modelled operations: choice 2 uses the same line loader as
  `Loader.LoadLines`.
- Loader.LoadDomainsFromDirectory: its contract states only the not-a-directory
  case and the shape of the domains. The membership equivalence is the separate
  lemma `Loader.DirectoryMembers`, and the length and order facts are
  `Loader.DirectoryCountIsSum`, `Loader.ListingOrderIrrelevant` and
  `Loader.TwoFilesMergeToThree`.
- Pipeline.SaveToFile: its contract is conditional on break-free entries. For an
  entry holding a line break, the file reads back as more lines than were
  saved, and the model does not describe those lines.
