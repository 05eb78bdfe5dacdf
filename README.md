# Seeking Alpha scraper: ledger, index crawl and article download

This project models the two scraper stages in `seeking_alpha/` of the crowdwisdom repository.

- **Stage 1, `download_index.py`.** It loads the ledger, which is every line of every `*.txt` file in the id directory. It then crawls the paginated index from page 1. On each page it takes the text from every `'/article/` marker up to the next quote, and resumes the search just past that quote. So a marker whose opening quote is the closing quote of the reference just before it is skipped. It stops at an empty page or at a page whose references are all in the ledger. The run fails unless it found at least one new reference.
- **Stage 2, `download_articles.py`.** It keys every ledger line by the non-empty text between `/article/` and the first `-` after it, and it is fatal if a line is malformed or a key repeats. It drops every key that is the name, up to its first dot, of some `*.html.gz` file in some folder. So a key that itself holds a dot is never dropped. It then downloads the remaining articles into four-digit folders, numbered on from the greatest existing folder name in string order. This run writes at most 1000 articles to each folder; a folder that already existed keeps its earlier files as well.

Every fatal `assert` of the scripts is a `Failure(fault)` value. The download stage returns the progress reached so far together with its fault, if it hit one.

Modules:
- `common.dfy` (`Common`): the outcome types, plus Python's `str.find`, `startswith`, `endswith` and `<=` on strings.
- `ledger.dfy` (`Ledger`): the ledger directory and the `old_ids` loader.
- `download_index.dfy` (`DownloadIndex`): reference extraction, the page crawl and stage 1's `main`.
- `download_articles.dfy` (`DownloadArticles`): keying, archive subtraction, folder numbering, the download loop and stage 2's `main`.

Each loop of the scripts is a `method` with loop invariants. Its `ensures` ties the result to a recursive specification function, and lemmas state what the scripts promise about that function.

External effects become parameters:
- A directory listing is a sequence of entries, and a file is its list of lines.
- A downloaded index page is `Some(content)`, or `None` when every retry failed.
- In stage 2, `fetch(key)` says whether the article's download succeeded and `compress(key)` whether `gzip` did.
- Whether the timestamped output file already exists is a boolean.

Two behaviours of stage 1 follow `download_index.py` as written:
- A page stops the crawl when its references are all in the ledger loaded at start (`page_ids.issubset(old_ids)`, line 99). References gathered earlier in the same run do not count.
- An empty first page leaves nothing new, which is fatal (lines 96-98 and 105).

## Model

| member | source | states |
|---|---|---|
| Common.Find | seeking_alpha/download_index.py:60 | `str.find` returns -1 or an index at or after `start` where the pattern fits |
| Common.FindIsFirst | seeking_alpha/download_index.py:60-63 | `str.find` returns the first occurrence at or after `start`, and -1 exactly when there is none |
| Common.StartsWith | seeking_alpha/download_articles.py:50 | defines `str.startswith`: the prefix fits and equals the string's first characters |
| Common.EndsWith | seeking_alpha/download_articles.py:63 | defines `str.endswith` (also used at download_index.py:75 and download_articles.py:44): the suffix fits and equals the string's last characters |
| Common.LexLe | seeking_alpha/download_articles.py:74 | defines Python's `<=` on strings, the order `max` uses: a prefix, or smaller at the first difference |
| Common.LexLeTotal | seeking_alpha/download_articles.py:74 | any two strings are ordered one way or the other, so `max` is defined |
| Common.LexLeTransitive | seeking_alpha/download_articles.py:74 | the string order is transitive, so the maximum is above every name |
| Ledger.TxtFiles | seeking_alpha/download_index.py:75 | the id files are exactly the listed entries whose name ends in `.txt`; no other file is read |
| Ledger.LedgerIds | seeking_alpha/download_index.py:75-81 | defines `old_ids` as the set of lines of the `*.txt` files, read in listing order |
| Ledger.LoadOldIds | seeking_alpha/download_index.py:75-81 | the loop yields the set of all lines of all `*.txt` files (`LedgerIds`) |
| Ledger.AddLines | seeking_alpha/download_index.py:80-81 | adding each line of one file yields the old set plus that file's lines |
| Ledger.LedgerIdsAreTxtLines | seeking_alpha/download_index.py:75-81 | a line is in `old_ids` iff some `*.txt` file of the directory contains it |
| Ledger.LedgerIdsUnion | seeking_alpha/download_index.py:75-81 | the ledger of two directory listings together is the union of their ledgers |
| DownloadIndex.Scan | seeking_alpha/download_index.py:59-66 | defines the outcome of the extraction loop from `start` on: `None` at a marker with no later quote, otherwise each marker's text up to the next quote, resuming past that quote |
| DownloadIndex.ExtractIds | seeking_alpha/download_index.py:54-68 | the extraction loop returns exactly what the `Scan` specification yields, including the failure on an unclosed marker |
| DownloadIndex.ScanNoMarker | seeking_alpha/download_index.py:60-62 | with no marker left, the scan ends with nothing more |
| DownloadIndex.ScanUnclosedMarker | seeking_alpha/download_index.py:63-64 | a marker with no later quote is fatal |
| DownloadIndex.ScanStep | seeking_alpha/download_index.py:60-66 | a marker closed by a quote contributes the text between them, and scanning resumes after that quote |
| DownloadIndex.ExtractedIdsWellFormed | seeking_alpha/download_index.py:54-68 | every extracted reference starts with `/article/`, holds no quote and stands quoted in the page, right after a `'/article/` marker |
| DownloadIndex.ScanIdIsQuoted | seeking_alpha/download_index.py:59-66 | every reference extracted from `start` on stands between a marker at or after `start` and the next quote |
| DownloadIndex.ScanFailsOnlyAtUnclosedMarker | seeking_alpha/download_index.py:63-64 | extraction fails only if some marker has no quote after it |
| DownloadIndex.UnclosedMarkerFailsOrCloses | seeking_alpha/download_index.py:59-66 | a marker with no quote after it either makes extraction fail, or its opening quote closes an earlier reference that is extracted |
| DownloadIndex.ClosedMarkerExtractedOrCloses | seeking_alpha/download_index.py:59-66 | a marker followed by a quote anywhere in a page that extracts is extracted, unless its opening quote closes an earlier reference that is extracted |
| DownloadIndex.QuotedIdShape | seeking_alpha/download_index.py:39-40 | the text between a marker and the next quote starts with `/article/` and holds no quote |
| DownloadIndex.ScanRender | seeking_alpha/download_index.py:54-68 | round trip: quoting well-formed references side by side and extracting them gives back exactly their set |
| DownloadIndex.ScanQuotedList | seeking_alpha/download_index.py:59-66 | a run of quoted well-formed references is extracted as exactly the set of those references |
| DownloadIndex.ScanQuotedItem | seeking_alpha/download_index.py:60-66 | a quoted well-formed reference is extracted, and the scan resumes just past it |
| DownloadIndex.Visit | seeking_alpha/download_index.py:91-102 | one page: a merge only adds references outside the ledger and keeps those gathered; the loop halts only on a downloaded page |
| DownloadIndex.CrawlFrom | seeking_alpha/download_index.py:89-105 | a successful crawl from any page keeps what was gathered and is non-empty; its only faults are a failed download, an unclosed marker, too many references, and nothing new |
| DownloadIndex.Finish | seeking_alpha/download_index.py:105 | the crawl succeeds iff something new was gathered, and returns exactly that |
| DownloadIndex.Crawl | seeking_alpha/download_index.py:88-89 | the crawl starts at page 1 with nothing gathered; a success is non-empty |
| DownloadIndex.CrawlPages | seeking_alpha/download_index.py:88-105 | the page loop returns exactly what the `Crawl` specification yields |
| DownloadIndex.Run | seeking_alpha/download_index.py:70-108 | an existing output file is fatal; otherwise the result is the crawl against the loaded ledger, and a successful result is non-empty and disjoint from the ledger |
| DownloadIndex.CrawlResult | seeking_alpha/download_index.py:88-105 | a successful crawl returns at least one reference; none is in the ledger, and each was on some page 1..10000 |
| DownloadIndex.CrawlFromResult | seeking_alpha/download_index.py:89-105 | from any page on, the result keeps what was gathered before, adds only references from later pages, and never adds a ledger reference |
| DownloadIndex.EmptyPageStops | seeking_alpha/download_index.py:96-98 | a page without references ends the crawl with what was gathered so far |
| DownloadIndex.KnownPageStopsOtherwiseMerge | seeking_alpha/download_index.py:99-102 | a page stops the loop iff all its references are in the ledger; otherwise its new references are merged and the crawl goes on with the next page |
| DownloadIndex.MergeKeepsNewIdsNew | seeking_alpha/download_index.py:102 | merging keeps the gathered references, stays disjoint from the ledger, and adds only the page's non-ledger references |
| DownloadIndex.FailedDownload | seeking_alpha/download_index.py:91-93 | a page whose download failed is fatal when failures terminate, and is skipped otherwise |
| DownloadIndex.TooManyIdsIsFatal | seeking_alpha/download_index.py:95 | a page with more than 55 references is fatal |
| DownloadIndex.IdenticalPagesDoNotStop | seeking_alpha/download_index.py:99-102 | a page repeated on the next page does not stop the crawl when it held new references, because the stop test looks only at the ledger |
| DownloadIndex.CatchUpAfterOnePage | seeking_alpha/download_index.py:96-105 | if page 1 has new references and page 2 only known ones, the result is page 1's new references |
| DownloadIndex.EmptyFirstPageIsFatal | seeking_alpha/download_index.py:96-98 | an empty first page, the one case the docstring (lines 11-12) expects to hold nothing new, leaves nothing new, which is fatal |
| DownloadIndex.CrawlIgnoresPagesBeyondMax | seeking_alpha/download_index.py:89 | pages after page 10000 are never looked at |
| DownloadIndex.CrawlFromIgnoresPagesBeyondMax | seeking_alpha/download_index.py:89 | from any page on, pages after page 10000 are never looked at |
| DownloadArticles.ParseKey | seeking_alpha/download_articles.py:50-53 | a line fails with `NotAnArticle` iff it lacks the `/article/` prefix; a key it returns is non-empty |
| DownloadArticles.ParseKeyShape | seeking_alpha/download_articles.py:50-53 | a parsed key has no `-`, and the line is `/article/` + key + `-` + the rest |
| DownloadArticles.ParseKeyComposed | seeking_alpha/download_articles.py:50-53 | round trip: `/article/` + key + `-` + slug parses back to key, for any dash-free non-empty key |
| DownloadArticles.ParseKeyExample | seeking_alpha/download_articles.py:50-53 | `/article/12345-some-slug` has key `12345` |
| DownloadArticles.ParseKeyNoKey | seeking_alpha/download_articles.py:51-52 | a prefixed line fails with `NoKey` iff a `-` follows the prefix at once or no `-` follows it at all |
| DownloadArticles.StoreLine | seeking_alpha/download_articles.py:50-55 | storing a line never overwrites an entry: a success adds exactly one new key, mapped to that line |
| DownloadArticles.LoadLines | seeking_alpha/download_articles.py:46-55 | a successful load keeps every earlier entry and adds one entry per line |
| DownloadArticles.BuildIdMap | seeking_alpha/download_articles.py:45-55 | `id_map` starts empty and is loaded line by line; a success has one entry per line |
| DownloadArticles.BuildIdMapSucceeds | seeking_alpha/download_articles.py:44-55 | keying the ledger succeeds iff every line parses and no two lines share a key |
| DownloadArticles.BuildIdMapContents | seeking_alpha/download_articles.py:45-55 | a successful `id_map` maps each line's key to that line; every value is a ledger line under its own key; it has one entry per line |
| DownloadArticles.BuildIdMapAppend | seeking_alpha/download_articles.py:50-55 | reading one more line fails with its parse error, fails on a repeated key, or stores key to line |
| DownloadArticles.RepeatedLineIsFatal | seeking_alpha/download_articles.py:54 | the same line twice in the ledger is fatal |
| DownloadArticles.BuildIdMapFailurePersists | seeking_alpha/download_articles.py:46-55 | once a line is fatal, no later line changes the outcome |
| DownloadArticles.LoadIdMap | seeking_alpha/download_articles.py:44-55 | the loop over the `*.txt` files yields exactly `BuildIdMap` of their lines in order |
| DownloadArticles.StoreOne | seeking_alpha/download_articles.py:50-55 | the checks on one line yield exactly `StoreLine` |
| DownloadArticles.StoreLines | seeking_alpha/download_articles.py:49-55 | the loop over one file's lines yields exactly `LoadLines`, stopping at the first fatal line |
| DownloadArticles.Folders | seeking_alpha/download_articles.py:58-59 | the article folders are exactly the listed entries that are directories |
| DownloadArticles.PyPrefix | seeking_alpha/download_articles.py:65 | Python's `s[:n]` is a prefix of `s`, even for `n == -1` |
| DownloadArticles.ArchivedKey | seeking_alpha/download_articles.py:65 | the key read from an archive file name is a prefix of that name |
| DownloadArticles.ArchivedKeyShape | seeking_alpha/download_articles.py:63-65 | the key of an archive file is dot-free, and the file name is key + `.` + the rest |
| DownloadArticles.ArchivedKeyOfName | seeking_alpha/download_articles.py:63-65 | round trip: the file written for a dot-free key reads back as that key |
| DownloadArticles.DottedKeyNotRecognised | seeking_alpha/download_articles.py:63-65 | a key with a dot does not read back from its own archive file name |
| DownloadArticles.KeysOfFilesMembership | seeking_alpha/download_articles.py:61-65 | a key is archived in a folder iff some `.html.gz` file in it has that key |
| DownloadArticles.ArchivedKeys | seeking_alpha/download_articles.py:60-65 | defines the archived keys: the key of every `*.html.gz` file in every folder |
| DownloadArticles.ArchivedKeysMembership | seeking_alpha/download_articles.py:60-65 | a key is archived iff some file of some folder has it |
| DownloadArticles.PendingEntries | seeking_alpha/download_articles.py:60-67 | a key is still pending iff it is in `id_map` and no `.html.gz` file in any folder has it; its line is unchanged |
| DownloadArticles.RemoveArchived | seeking_alpha/download_articles.py:60-67 | the deletion loop over all folders leaves `id_map` minus the archived keys |
| DownloadArticles.RemoveFolder | seeking_alpha/download_articles.py:61-67 | the deletion loop over one folder removes exactly that folder's archived keys |
| DownloadArticles.MaxName | seeking_alpha/download_articles.py:74 | `max(article_folders)` is a folder name no smaller than any other in Python's string order |
| DownloadArticles.DecimalValue | seeking_alpha/download_articles.py:74 | the value of an n-digit decimal is below 10^n |
| DownloadArticles.BaseFolderId | seeking_alpha/download_articles.py:71-74 | the first new folder number is 0 exactly when there is no folder |
| DownloadArticles.LexLeDigitsIsNumeric | seeking_alpha/download_articles.py:74 | for names of equal length made of digits, string order implies numeric order |
| DownloadArticles.NumericIsLexLe | seeking_alpha/download_articles.py:74 | for names of equal length made of digits, numeric order implies string order; with `LexLeDigitsIsNumeric` the two orders agree |
| DownloadArticles.BaseFolderAboveExisting | seeking_alpha/download_articles.py:71-74 | when all folders have four-digit names, the first new folder number is above every existing one and is the largest plus one |
| DownloadArticles.MixedWidthNamesReuseFolder | seeking_alpha/download_articles.py:71-82 | with folders `0100` and `99`, string order picks `99`, so the first new folder is 100, whose `%04d` name `0100` already exists |
| DownloadArticles.FolderName | seeking_alpha/download_articles.py:82 | `%04d` gives four digits |
| DownloadArticles.FolderNameRoundTrip | seeking_alpha/download_articles.py:82 | `%04d` of a folder number below 10000 is four digits that read back as that number |
| DownloadArticles.ShardOf | seeking_alpha/download_articles.py:79 | item `count` goes to the folder `base + k` with `1000 * k <= count < 1000 * (k + 1)` |
| DownloadArticles.ShardProperties | seeking_alpha/download_articles.py:78-79 | items 0..999 go to the base folder and item 1000 to the next; folders never decrease, and no folder receives more than 1000 items |
| DownloadArticles.DownloadStep | seeking_alpha/download_articles.py:79-98 | a key stopped by the folder limit leaves `count` as it was; any other key raises `count` by exactly one, and by exactly as much as `succeeded` and `failed` together; only that key can be archived |
| DownloadArticles.DownloadSpec | seeking_alpha/download_articles.py:77-98 | only keys of the iteration order are archived |
| DownloadArticles.DownloadCounters | seeking_alpha/download_articles.py:76-95 | `count == succeeded + failed`; without a fault, every key is counted |
| DownloadArticles.DownloadFaultFree | seeking_alpha/download_articles.py:79-98 | the loop ends without a fault iff every item's folder is below 10000 and every successful download compresses |
| DownloadArticles.DownloadWritten | seeking_alpha/download_articles.py:91-98 | without a fault, an archive is written exactly for the downloaded keys, each into the folder of its position |
| DownloadArticles.DownloadFolders | seeking_alpha/download_articles.py:79-84 | without a fault, the folders created are exactly the shards of positions 0..n-1 |
| DownloadArticles.DownloadSucceeded | seeking_alpha/download_articles.py:91-95 | without a fault, `succeeded` counts the archives written and `failed` the remaining keys |
| DownloadArticles.DownloadFaultPersists | seeking_alpha/download_articles.py:79-98 | a fault stops the loop: later keys change nothing |
| DownloadArticles.DownloadLastStep | seeking_alpha/download_articles.py:79-98 | the last key of a fault-free run adds its folder, and adds its archive if its download succeeded |
| DownloadArticles.DownloadOne | seeking_alpha/download_articles.py:79-98 | the loop body for one key yields exactly `DownloadStep` |
| DownloadArticles.DownloadAll | seeking_alpha/download_articles.py:76-98 | the download loop yields exactly the `DownloadSpec` progress and fault |
| DownloadArticles.IterationOrder | seeking_alpha/download_articles.py:77 | `iteritems` visits every key of `id_map` exactly once |
| DownloadArticles.Run | seeking_alpha/download_articles.py:37-98 | a load fault stops the run before any download; otherwise every pending key is visited once from the first new folder, and nothing is downloaded when all keys are archived |

## Left out

- The `download` helpers, with their `wget` command, retries, sleep and URLs. Each is an oracle: an index page is `None` when its download failed, and stage 2 takes `fetch`.
- The `gzip` helper is the oracle `compress`. The partial archive file left behind by a failed `gzip` is not modelled.
- Command-line parsing, `os.listdir`, `os.path.isdir`, `os.mkdir`, reading files and `splitlines` are not modelled. Directories are given as sequences of entries, and files as their lines.
- Writing stage 1's output file is not modelled. The timestamped file name is reduced to whether that file already exists.
- All `print` output is left out.
- DownloadArticles.Run: requires the greatest folder name in string order to be a plain decimal. Python's `int()` also accepts signs and surrounding blanks, and raises on any other name; that error path is not modelled.
- DownloadArticles.IterationOrder: the order of `dict.iteritems` is left open (any order of the keys), not the order CPython would use.
- DownloadArticles.DownloadAll: the download oracle is keyed by the article key, where the script fetches by the ledger line. The two are one-to-one in `id_map`.
- DownloadArticles.DownloadStep: folder creation is recorded as the set of folder numbers used. It does not check whether a folder already existed.
- Integer widths: Python integers are unbounded, and the counters are `nat`.
