# Webpack asset downloaders and a path-keeping image downloader, modelled in Dafny

The repository holds three command-line scripts.

- `download_notebookvip_assets.py` and `download_fjii_assets.py` are two
  near-identical webpack asset downloaders. Each fetches a webpack runtime
  script (with up to three attempts), saves it under the output folder at its
  URL path, and reads the public path `r.p = "..."` from it. It then reads the
  JS chunk table and the CSS chunk tables out of the runtime's chunk-URL
  expressions, builds one URL per chunk, sorts and deduplicates the list,
  downloads every target and returns 0 when nothing failed, 2 otherwise. The
  notebookvip script also accepts `--origin` and `--public-path` overrides.
- `download_images_keep_path.py` downloads a list of image URLs to
  `out/<host>/<path>`, skipping every URL whose file already exists, and
  counts successes and failures.

The model is split into modules that follow this structure:

| file | module | what it holds |
|---|---|---|
| `outcomes.dfy` | `Outcomes` | `Option` and `Result` |
| `text.dfy` | `Text` | `str.strip()`, `str.lstrip("/")`, `startswith`/`endswith`, `str(n)` and `int(d)` |
| `scan.dfy` | `Scan` | `re.search` of the chunk-table patterns, `re.findall` of the key/value pattern, the dict comprehension, and the rendering of a table that they read back |
| `runtime.dfy` | `Runtime` | `extract_public_path`, `normalize_public_path`, `parse_js_chunk_map`, `parse_css_chunk_map` |
| `targets.dfy` | `Targets` | the two target-building loops and `sorted(set(targets))` |
| `http.dfy` | `Http` | `http_get_bytes` against an abstract transport |
| `storage.dfy` | `Storage` | `os.path.join`, URLs as `urlparse` splits them, the output folder |
| `download.dfy` | `Download` | `save_file`, the download loop, the exit status and the course of `main` shared by both webpack scripts |
| `notebookvip.dfy` | `NotebookVip` | `main` of the notebookvip script with its overrides |
| `fjii.dfy` | `Fjii` | `main` of the fjii script with its inline normalisation |
| `keeppath.dfy` | `KeepPath` | `save_with_url_structure`, `download_one` and `main` of the image script |

Each regular expression is matched by a scanner written for its own literal
anchors. A search returns the match that Python's backtracking engine
prefers: the leftmost start, then the shortest lazy gaps
(`Scan.SearchIsLeastMatch`). The network is a function `net(url, n)`, which
gives the outcome of the `n`-th request for `url`. The output folder is a
`Disk` object whose `files` map from local path to content is updated in
place.

## Model

| member | source | states |
|---|---|---|
| `Text.Strip` | download_notebookvip_assets.py:147 | `str.strip()`: the result is empty exactly when the text is all whitespace; otherwise it neither starts nor ends with whitespace; and it is a slice of the input with only whitespace around it |
| `Text.LStripSlashes` | download_notebookvip_assets.py:114 | `lstrip("/")` never leaves a leading slash |
| `Text.LStripSlashesRemovesSlashes` | download_notebookvip_assets.py:114 | what `lstrip("/")` removes is a run of slashes, and what it keeps is a suffix of the input |
| `Text.NatToString` | download_notebookvip_assets.py:178 | `str(cid)` is a non-empty run of digits with no leading zero except for 0 itself |
| `Text.DigitsValueOfNatToString` | download_notebookvip_assets.py:58 | `int(str(n)) == n` |
| `Text.NatToStringInjective` | download_notebookvip_assets.py:178 | distinct chunk ids have distinct decimal names |
| `Scan.FindLiteral` | download_notebookvip_assets.py:42-46 | returns the leftmost occurrence of a literal at or after a position, or states that there is none |
| `Scan.FindAnchor` | download_notebookvip_assets.py:43 | returns the leftmost position where the closing `}[e]+".` `\s*` `js"` part matches, or states that there is none |
| `Scan.SearchIsLeastMatch` | download_notebookvip_assets.py:42-46 | the match `re.search` reports is a match of the whole pattern, and it precedes every other match in the engine's order |
| `Scan.SearchNoneIff` | download_notebookvip_assets.py:47 | the search finds nothing exactly when the pattern occurs nowhere |
| `Scan.SearchGroupNoneIff` | download_notebookvip_assets.py:53-56 | `m.group(1)` is unavailable exactly when the pattern occurs nowhere |
| `Scan.SearchAt` | download_notebookvip_assets.py:42-46 | when the parts of the pattern lie at given positions and nothing earlier could start them, `re.search` reports exactly those positions |
| `Scan.SearchGroupOfLayout` | download_notebookvip_assets.py:42-46 | in a text laid out as lead, prefix, gap, mid, table, suffix, rest, the capture group is the table |
| `Scan.SearchGroupOfText` | download_notebookvip_assets.py:42-46 | the same for a text given as one string: lead, then prefix, gap, mid, table and suffix, then rest |
| `Scan.Skip` | download_notebookvip_assets.py:57 | a maximal run of one character class: every character in it is in the class, the next one is not |
| `Scan.PairAt` | download_notebookvip_assets.py:57 | the match of `(\d+)\s*:\s*"(...)"` at one offset has a digit key and a value of the requested class and minimum length, and both sit in the text where the pattern puts them |
| `Scan.PairMatchScanned` | download_notebookvip_assets.py:57 | a match of `(\d+)\s*:\s*"(...)"` at an offset, spelled out run by run with any spacing around the colon, is the one reported there, with its two groups and its end |
| `Scan.PairAtNoneIff` | download_notebookvip_assets.py:57 | nothing is reported at an offset exactly when the pattern matches nowhere there |
| `Scan.PairAtIsMatch` | download_notebookvip_assets.py:57 | what is reported at an offset is a match of the pattern there, run by run, with its two groups and its end |
| `Scan.FindAllFromNext` | download_notebookvip_assets.py:57 | `re.findall` reports the first match at or after the scan position and resumes just after it, so no match is skipped over |
| `Scan.FindAllFromSkips` | download_notebookvip_assets.py:57 | offsets where the pattern matches nowhere add nothing to what `re.findall` reports |
| `Scan.FindAllFromNone` | download_notebookvip_assets.py:57 | with no match at or after the scan position, `re.findall` reports nothing more |
| `Scan.FindAllFromFoundInText` | download_notebookvip_assets.py:57 | every pair a scan reports was matched at some offset at or after where the scan began |
| `Scan.FindAllFoundInText` | download_notebookvip_assets.py:57 | every pair `re.findall` reports was matched somewhere in the span |
| `Scan.FindAllWellFormed` | download_notebookvip_assets.py:57 | every reported key is a digit run and every value has the requested class and length (`[0-9a-f]{8,}` or `[^"]+`) |
| `Scan.Keyed` | download_notebookvip_assets.py:58 | `int(k)` of each pair, in order, with the values untouched |
| `Scan.Dict` | download_notebookvip_assets.py:58 | the dict comprehension has every listed key, and each key's value comes from the last entry with that key |
| `Scan.ParseTable` | download_notebookvip_assets.py:57-58 | every value of a parsed table has the requested class and length |
| `Scan.ParseTableSource` | download_notebookvip_assets.py:57-58 | every id of a parsed table comes from a pair matched in the span, whose digits read as that id, and no later pair has the same id: a repeated key keeps its last value |
| `Scan.ParseTableComplete` | download_notebookvip_assets.py:57-58 | every pair the scan reports contributes its id to the table |
| `Scan.FindAllOfRender` | download_notebookvip_assets.py:57 | `re.findall` over a rendered `{id:"value",...}` body gives back its entries, in order |
| `Scan.ParseTableOfRender` | download_notebookvip_assets.py:57-58 | parsing a rendered table body gives back the table, with later duplicates winning |
| `Runtime.AssignAt` | download_notebookvip_assets.py:27 | a value found at an offset is the capture of an `r.p = "..."` assignment there, with either kind of quote |
| `Runtime.AssignAtOfAssignment` | download_notebookvip_assets.py:27 | any assignment of that shape at an offset is the one found there |
| `Runtime.FindAssign` | download_notebookvip_assets.py:27 | the offset found holds an assignment |
| `Runtime.FindAssignSkips` | download_notebookvip_assets.py:27 | no assignment starts before the offset found, nor anywhere when none is found |
| `Runtime.ExtractPublicPath` | download_notebookvip_assets.py:25-28 | a found public path is non-empty and free of quotes |
| `Runtime.ExtractPublicPathIsFirst` | download_notebookvip_assets.py:25-28 | None exactly when the text holds no assignment; otherwise the value of the leftmost one |
| `Runtime.NormalizePublicPath` | download_notebookvip_assets.py:31-37 | the result starts and ends with `/`; it equals the input exactly when the input already does; and it is the input with at most one slash added at each end |
| `Runtime.NormalizeIsShortest` | download_notebookvip_assets.py:31-37 | no other way of adding slashes at the ends gives a shorter path that starts and ends with `/` |
| `Runtime.NormalizeIdempotent` | download_notebookvip_assets.py:31-37 | normalising twice is normalising once |
| `Runtime.JsPatternImpliesFallback` | download_notebookvip_assets.py:42-52 | wherever the `r.p+` JS pattern matches, the fallback matches too, with the same table |
| `Runtime.CssPatternImpliesFallback` | download_notebookvip_assets.py:71-81 | wherever the first CSS hash pattern matches, the fallback matches too, with the same table |
| `Runtime.FirstTable` | download_notebookvip_assets.py:42-58 | a lookup through two patterns fails only with the given message, and every value of the table it returns is a hash |
| `Runtime.FirstTableErrIff` | download_notebookvip_assets.py:47-54 | the lookup fails exactly when neither pattern occurs anywhere |
| `Runtime.FirstTableFallsBack` | download_notebookvip_assets.py:47-58 | when the first pattern occurs nowhere and the second one captures a body, the table is the one parsed from that body |
| `Runtime.ParseJsChunkMap` | download_notebookvip_assets.py:40-58 | the result is a table whose every value is `[0-9a-f]{8,}`, or ValueError with its message |
| `Runtime.ParseJsChunkMapErrIff` | download_notebookvip_assets.py:42-54 | ValueError exactly when even the prefix-less pattern does not occur |
| `Runtime.JsPatternWins` | download_notebookvip_assets.py:42-47 | when the `r.p+` pattern occurs, its table is used whatever the fallback would find |
| `Runtime.JsFallbackUsed` | download_notebookvip_assets.py:47-58 | when the `r.p+` form occurs nowhere, the table is the one the prefix-less pattern captures |
| `Runtime.CssNameMap` | download_notebookvip_assets.py:63-69 | every name override is a non-empty text without a double quote |
| `Runtime.CssNameMapEmpty` | download_notebookvip_assets.py:63-69 | without a `({...}[e]\|\|e)` table the name map is empty, and this is no error |
| `Runtime.ParseCssChunkMap` | download_notebookvip_assets.py:61-88 | the name overrides are those of the name table, every hash is `[0-9a-f]{8,}`, and an error can only be the ValueError with its message |
| `Runtime.ParseCssChunkMapErrIff` | download_notebookvip_assets.py:71-83 | ValueError exactly when even the fallback hash pattern does not occur |
| `Runtime.CssPatternWins` | download_notebookvip_assets.py:71-76 | when the first CSS pattern occurs, its table is used |
| `Runtime.CssFallbackUsed` | download_notebookvip_assets.py:76-87 | when the first CSS shape occurs nowhere, the hash table is the one the fallback pattern captures |
| `Runtime.NoBraceInRender` | download_notebookvip_assets.py:43 | a rendered table whose values have no `}` has no `}`, so the lazy group cannot stop inside it |
| `Runtime.JsTableTextSearch` | download_notebookvip_assets.py:42-46 | in a JS chunk-URL expression `r.p+"static/js/"+e+"."+{...}[e]+".js"`, the pattern captures exactly the table body |
| `Runtime.ParseJsChunkMapOfTable` | download_notebookvip_assets.py:40-58 | parsing a runtime that starts with the JS chunk-URL expression of a table gives back that table |
| `Runtime.CssTableTextSearch` | download_notebookvip_assets.py:71-75 | in a CSS chunk-URL expression, the first hash pattern captures exactly the hash-table body |
| `Runtime.CssTableTextNames` | download_notebookvip_assets.py:65-67 | in a CSS chunk-URL expression, the name pattern captures exactly the name-table body |
| `Runtime.ParseCssChunkMapOfTable` | download_notebookvip_assets.py:61-88 | parsing a runtime that starts with the CSS chunk-URL expression of two tables gives back both tables |
| `Runtime.ParseJsChunkMapOfFallbackTable` | download_notebookvip_assets.py:47-58 | a runtime holding `"static/js/"+e+"."+{...}[e]+".js"` after a lead without a double quote, and no `r.p+` form anywhere, gives back that table |
| `Runtime.ParseCssChunkMapOfFallbackTable` | download_notebookvip_assets.py:76-87 | a runtime holding `"static/css/"+e+"."+{...}[e]+".css"` after a lead without a double quote, and no name-table CSS shape anywhere, gives back that hash table next to the name overrides |
| `Targets.MinId` | download_notebookvip_assets.py:173 | the least id of a non-empty table |
| `Targets.SortedIds` | download_notebookvip_assets.py:173 | `sorted(table.items())` visits the ids in increasing order, each id of the table exactly once |
| `Targets.StrLessTotal` | download_notebookvip_assets.py:182 | Python's `<` on strings orders any two distinct strings |
| `Targets.StrLessTransitive` | download_notebookvip_assets.py:182 | that order is transitive |
| `Targets.Insert` | download_notebookvip_assets.py:182 | adding a string to a strictly sorted list keeps it strictly sorted, with exactly the old elements and the new one |
| `Targets.SortedUnique` | download_notebookvip_assets.py:182 | `sorted(set(xs))` is strictly sorted and has exactly the elements of `xs` |
| `Targets.StrictlySortedDistinct` | download_notebookvip_assets.py:182 | the target list repeats no URL |
| `Targets.StrictlySortedUnique` | download_notebookvip_assets.py:182 | two strictly sorted lists with the same elements are equal |
| `Targets.SortedUniqueCanonical` | download_notebookvip_assets.py:182 | `sorted(set(xs))` is the one strictly sorted list of the elements of `xs` |
| `Targets.AppendJsTargets` | download_notebookvip_assets.py:171-175 | the first loop appends `origin + <pp>static/js/<id>.<hash>.js` for each JS id, in increasing id order |
| `Targets.AppendCssTargets` | download_notebookvip_assets.py:177-180 | the second loop appends `origin + <pp>static/css/<name>.<hash>.css` for each CSS id, in increasing id order, where the name is the override or `str(cid)` |
| `Targets.BuildTargets` | download_notebookvip_assets.py:171-182 | the two loops followed by `sorted(set(targets))` produce the target list |
| `Targets.JsUrlsMembers` | download_notebookvip_assets.py:173-175 | a URL is among the JS targets exactly when it is the URL of some chunk of the JS table |
| `Targets.CssUrlsMembers` | download_notebookvip_assets.py:177-180 | a URL is among the CSS targets exactly when it is the URL of some chunk of the CSS table, under its override name or its id |
| `Targets.TargetListMembers` | download_notebookvip_assets.py:171-182 | the final list holds exactly the JS and CSS chunk URLs |
| `Targets.JsPathInjective` | download_notebookvip_assets.py:174 | a JS path determines its chunk id and its hash |
| `Targets.JsUrlsDistinct` | download_notebookvip_assets.py:173-175 | distinct JS chunks have distinct URLs, so deduplication loses none of them |
| `Targets.TargetsUnderOrigin` | download_notebookvip_assets.py:174-180 | every target starts with `origin + public path + "static/"` |
| `Targets.TargetListUnder` | download_notebookvip_assets.py:174-182 | the whole target list lies under that prefix |
| `Http.FetchFrom` | download_notebookvip_assets.py:99-109 | the attempts from a given one on make at most `retries` requests in all, and end with content or an exception |
| `Http.Pauses` | download_notebookvip_assets.py:106-107 | `n` attempts are separated by `n - 1` pauses, the `i`-th one of `0.8 * i` seconds |
| `Http.HttpGetBytes` | download_notebookvip_assets.py:91-109 | the retry loop returns what `Fetch` gives, after the requests it counts, pausing only between attempts |
| `Http.FailedBefore` | download_notebookvip_assets.py:100-108 | every attempt before the last one made failed |
| `Http.LastAttempt` | download_notebookvip_assets.py:103-109 | the content returned is that of the last attempt made; an exception is raised only after the final attempt, and it is that attempt's exception |
| `Http.FetchReturnsFirstSuccess` | download_notebookvip_assets.py:98-109 | between 1 and `retries` requests, all failed but the last one; the content of the first success, or the final attempt's exception |
| `Http.FetchSucceedsIff` | download_notebookvip_assets.py:99-103 | content is returned exactly when one of the first `retries` requests succeeds |
| `Http.DefaultRetriesReturnOrRaise` | download_notebookvip_assets.py:95-109 | with the default of three retries the function never falls off the end to return None, and makes one to three requests |
| `Http.PausesBetweenAttempts` | download_notebookvip_assets.py:106-107 | there is one pause fewer than there are requests, and none when the first request succeeds |
| `Storage.JoinUnder` | download_notebookvip_assets.py:115 | `os.path.join` of a relative path gives the folder, then a slash only where needed, then the path |
| `Storage.JoinInjective` | download_notebookvip_assets.py:115 | under one folder, two relative paths give the same file only when they are equal |
| `Storage.LStripRelative` | download_notebookvip_assets.py:114 | `lstrip("/")` leaves a relative path unchanged |
| `Storage.LStripConcat` | download_notebookvip_assets.py:114 | stripping the slashes off `p + s` strips them off `p` alone when `s` is relative |
| `Storage.Disk.Write` | download_notebookvip_assets.py:117-118 | `open(path, "wb").write(data)` creates or replaces that one file and changes no other |
| `Download.SaveFilePathSameIff` | download_fjii_assets.py:140-147 | two URL paths share a local file exactly when they agree once their leading slashes are dropped: `/a/b/c.js` and `a/b/c.js` are the same file |
| `Download.SaveFilePathUnderRoot` | download_notebookvip_assets.py:112-119 | the local file lies under the output folder and ends with the URL path less its leading slashes |
| `Download.SaveFile` | download_notebookvip_assets.py:112-119 | `save_file` writes the data at `os.path.join(out_root, url_path.lstrip("/"))`, returns that path and changes no other file |
| `Download.VisitAll` | download_notebookvip_assets.py:185-197 | after the loop `ok + fail == len(targets)` |
| `Download.DownloadAll` | download_notebookvip_assets.py:185-197 | the loop leaves the folder and the two counters as `VisitAll` gives them: each target is fetched with three retries and saved, or counted as a failure |
| `Download.NoFailureIff` | download_notebookvip_assets.py:185-197 | no target fails exactly when every target is fetched |
| `Download.ExitStatus` | download_notebookvip_assets.py:200 | `main` returns 0 exactly when every target was fetched and 2 exactly when one was not; `ok == len(targets)` exactly when every target was fetched |
| `Download.VisitAllLeavesOthers` | download_notebookvip_assets.py:187-197 | the loop neither creates nor changes a file that is not some target's local file |
| `Download.VisitAllKeepsLast` | download_notebookvip_assets.py:187-197 | a fetched target's content is in its file at the end, unless a later target has the same file |
| `Download.LocalFilesDistinct` | download_notebookvip_assets.py:174-191 | distinct targets under one public path have distinct local files |
| `Download.UnderPublicPathUnderOrigin` | download_notebookvip_assets.py:175-180 | a target under the public path lies under the origin |
| `Download.EveryFetchedTargetSaved` | download_notebookvip_assets.py:182-197 | over the deduplicated list, every fetched target ends up in the folder with its fetched content |
| `Download.ReadTables` | download_notebookvip_assets.py:165-182 | after the runtime is read, `main` stops with ValueError exactly when a parser raises, with that parser's message (the JS one first), having kept the runtime; otherwise it reaches the loop with the target list of both parsed tables, sorted, duplicate-free and under the origin and the public path |
| `Download.ReadTablesFailsIff` | download_notebookvip_assets.py:165-166 | `main` stops with ValueError exactly when the runtime has no JS chunk expression even of the fallback shape, or no CSS one |
| `Download.RunTables` | download_notebookvip_assets.py:165-200 | parsing, building the targets and the loop: on ValueError nothing more is written; otherwise the folder and the counters are those of the loop, and the status is 0 or 2 by the failures |
| `Download.ReadyOutcome` | download_notebookvip_assets.py:185-200 | once `main` reaches the loop, it reports every target once as ok or fail, returns 0 exactly when every target was fetched, and leaves every fetched target in the folder |
| `NotebookVip.Run` | download_notebookvip_assets.py:122-200 | `main`: an exception when the runtime cannot be fetched, with nothing written; otherwise the runtime is saved at its URL path, then the course is that of `RunTables` over the chosen origin and public path |
| `NotebookVip.RuntimeFetchFails` | download_notebookvip_assets.py:153 | `main` aborts before writing anything exactly when all three requests for the runtime fail |
| `NotebookVip.MissingChunkTable` | download_notebookvip_assets.py:153-166 | `main` stops with ValueError exactly when the runtime was fetched but lacks a JS or a CSS chunk expression; it has then written the runtime file and nothing else, and reports one of the two messages |
| `NotebookVip.PublicPathChoice` | download_notebookvip_assets.py:160-161 | the public path starts and ends with `/`; a non-blank `--public-path` wins; otherwise the leftmost `r.p` value, or `/` when there is none |
| `NotebookVip.OriginChoice` | download_notebookvip_assets.py:147 | a non-blank `--origin` wins; otherwise the runtime URL's `scheme://host`, which is a prefix of the runtime URL |
| `NotebookVip.ReadyPlan` | download_notebookvip_assets.py:153-182 | when the loop is reached, both tables were parsed from the fetched runtime and the targets are their sorted, duplicate-free URLs under the chosen origin and public path |
| `Fjii.DetectedPublicPath` | download_fjii_assets.py:42-48 | `extract_public_path` gives `/` when the runtime has no `r.p` assignment, and otherwise the value of the leftmost one |
| `Fjii.NormalizeInPlace` | download_fjii_assets.py:184-189 | the inline normalisation computes `normalize_public_path` and yields a path that starts and ends with `/` |
| `Fjii.Run` | download_fjii_assets.py:153-233 | `main` of the fjii script, with the origin from the runtime URL and the detected, normalised public path |
| `Fjii.SameAsNotebookVipWithoutOverrides` | download_fjii_assets.py:167-214 | without overrides the notebookvip script plans exactly what this one does, and saves the runtime at the same file |
| `KeepPath.HostIsTopFolder` | download_images_keep_path.py:127-137 | `https://host/a/b/c.png` maps to `out_root/host/a/b/c.png`, with the slash added only where the folder has none |
| `KeepPath.SlashIndexAfterHost` | download_images_keep_path.py:133 | the first slash of `host + path` is where the path starts |
| `KeepPath.HostSplit` | download_images_keep_path.py:133 | the host and the path can be recovered from `host + path` |
| `KeepPath.SameFileIff` | download_images_keep_path.py:133-135 | two URLs share a local file exactly when their hosts and their paths are equal |
| `KeepPath.DownloadOne` | download_images_keep_path.py:140-154 | `download_one` skips without a request when the file exists; otherwise it makes one request and writes the content, or raises and writes nothing |
| `KeepPath.StepKeepsExisting` | download_images_keep_path.py:140-152 | `download_one` never changes an existing file, creates no file but the URL's own, and makes a request exactly when that file is missing |
| `KeepPath.StepFailureWritesNothing` | download_images_keep_path.py:148-152 | it fails exactly when the file is missing and the request fails, and then it writes nothing |
| `KeepPath.StepCreatesOnlyOwn` | download_images_keep_path.py:141-152 | a missing path that is not the URL's own stays missing |
| `KeepPath.StepIdempotent` | download_images_keep_path.py:143-145 | after a call that did not fail, calling again skips, makes no request and changes nothing |
| `KeepPath.DownloadAll` | download_images_keep_path.py:167-177 | every URL is counted exactly once, a skip or a download as ok and an exception as fail: `ok + fail == len(URLS)` |
| `KeepPath.DownloadAllPrefix` | download_images_keep_path.py:170-177 | one more URL adds one more `download_one` call on the folder left by the earlier ones |
| `KeepPath.Run` | download_images_keep_path.py:157-179 | the loop of `main` leaves the folder, the counters and the requests made as `DownloadAll` gives them |
| `KeepPath.RunKeepsExisting` | download_images_keep_path.py:170-177 | a run changes no file that existed before it |
| `KeepPath.RunCreatesOnlyUrlFiles` | download_images_keep_path.py:170-177 | a run creates no file other than those of its URLs |
| `KeepPath.CleanRunIsComplete` | download_images_keep_path.py:170-177 | after a run without failures, every URL has its file |
| `KeepPath.RerunIsFree` | download_images_keep_path.py:143-145 | over a folder that already holds every URL's file, a run makes no request, changes nothing and reports every URL as ok |

Both webpack scripts carry the same `extract_public_path` regular expression,
the same `parse_js_chunk_map`, `parse_css_chunk_map`, `http_get_bytes` and
`save_file`, and the same target-building loops and download loop. The lines
cited above in `download_notebookvip_assets.py` are, in
`download_fjii_assets.py` (notebookvip lines, then fjii lines):

- `extract_public_path`: 25-28 and 42-48;
- `parse_js_chunk_map`: 40-58 and 51-78;
- `parse_css_chunk_map`: 61-88 and 81-116;
- `http_get_bytes`: 91-109 and 119-137;
- `save_file`: 112-119 and 140-147;
- the target-building loops: 171-182 and 200-214;
- the download loop and the exit status: 185-200 and 218-233.

## Left out

- The network: `requests.Session`, timeouts, headers and `raise_for_status` are the `Transport` parameter. `net(url, n)` is the outcome of the `n`-th request for `url`, so a URL fetched twice has the same outcomes both times.
- `urlparse` and `urljoin` are not modelled. A URL is given already split into scheme, host and path; query, fragment and params are not modelled. The origin is taken to be `scheme://host`, and `urljoin(origin, p)` is taken to be `origin + p`. An `--origin` override of another shape is outside the model.
- `Download.UrlPath` takes the path of a target to be all of `p`. In the source, a `?`, `#` or `;` in the public path or in a CSS override name (any `[^"]+` text) moves the rest of `p` into the query, fragment or params. Dot segments such as `/a/../` are also resolved by `urljoin`.
- `Download.LocalFilesDistinct` and `Download.EveryFetchedTargetSaved` therefore hold only for targets whose `p` has none of those characters. In the source, override names `A?x` and `A?y` give two distinct targets that share one local file.
- `Targets.TargetList` builds `origin + p` even for a public path that starts with `//` (a protocol-relative `r.p="//cdn.example/"`). Such a path survives `normalize_public_path`, and in the source `urljoin` resolves it to that other host. `Targets.TargetListUnder` and `Download.UnderPublicPathUnderOrigin` describe `origin + p`, not that URL.
- UTF-8 decoding with `errors="replace"` is the `decode` parameter.
- Sleeping: `HttpGetBytes` returns the pause durations in milliseconds but does not sleep. The 0.1 s pause of the image script's loop is not modelled.
- Directories: `os.makedirs` is not modelled, and the folder records only files. A file that cannot be created or written, and a partly written file, are not modelled. An exception from `save_file` or `save_with_url_structure` is therefore not modelled either. Nor is the case where the local path is taken by a folder, or a folder is needed where a file lies.
- `KeepPath.DownloadStep` skips only when a file exists at the local path. In the source, `os.path.exists` is also true for a directory. So `https://h/a` listed after `https://h/a/b.png` finds the folder `out/h/a` made by the earlier `makedirs`: the source skips it and counts it ok, while the model requests it and records a file there. The same holds for `KeepPath.StepKeepsExisting`, `KeepPath.RerunIsFree` and the other step and run lemmas, which read existence as a file being present.
- `argparse`, every `print` and the `idx % 25` progress condition are not modelled.
- The hard-coded `URLS` list is data. `KeepPath.Run` takes the list as a parameter.
- An uncaught exception ends `main` with Python's traceback and exit status 1; `Exit.Aborted` records only the message.
- `Download.Visit` has no case for `http_get_bytes` returning None. With the default of three retries that cannot happen (`Http.DefaultRetriesReturnOrRaise`). `Http.Fetch` models the case for `retries < 1`.
- `\s` and `str.strip()` cover ASCII whitespace only; non-ASCII whitespace is not modelled.
- `Text.DigitsValue` and the `Digit` class cover ASCII digits only. For `str` patterns, Python's `\d` and `int()` accept every Unicode decimal digit (Arabic-Indic digits, for instance). A chunk-table key written with such digits is read by the source but not by the model.
- `Runtime.ExtractPublicPath`: its own contract says only that a found value is non-empty and has no quotes. That the value comes from the leftmost assignment, and that None means no assignment exists, is stated in `Runtime.ExtractPublicPathIsFirst`.
- `Runtime.ParseJsChunkMapOfTable` and `Runtime.ParseCssChunkMapOfTable` state the read-back for a runtime that starts with the chunk-URL expression. The fallback read-backs `Runtime.ParseJsChunkMapOfFallbackTable` and `Runtime.ParseCssChunkMapOfFallbackTable` allow a lead without a double quote before it, and require that the preferred shape occurs nowhere. Any other text before the expression is covered only through the general search lemmas.
- The image script's module docstring shows examples without the host folder (`out/jsb-files/...`). The code and the docstring of `save_with_url_structure` keep the host (`out/<host>/...`); the model follows the code.
- `download_fjii_assets.py:213` has a comment about including the runtime URL among the targets. The code does not do this, and the model follows the code.
