# research-pulse: a verified model of the paper-digest pipeline

research-pulse builds a weekly digest of new arXiv papers. It runs in these steps:

- It fetches the week's listing.
- Optionally, it keeps only the papers that carry a project link.
- It asks a language model which papers match the reader's interests.
- It attaches a project link and a one-sentence summary to each selected paper.
- It downloads the PDF and renders a first-page preview.
- It looks up discussions of the paper on X.
- It caches the result as `papers_data.json` next to the report's assets.

This project models the decision logic of that pipeline in Dafny and proves what each step promises. Every remote service is an input value:

- the arXiv listing;
- the language model's replies;
- the author affiliations;
- the HTTP bodies;
- whether a PDF renders;
- the X search responses.

Modules, in dependency order:

- `Common`: the string and sequence vocabulary of the Python code.
  - substring search, `str.replace`, `split(...)[0]` and `split(...)[-1]`;
  - slices `xs[:n]` with Python's meaning for negative `n`;
  - list comprehensions with a condition.
- `Records`: the paper dictionary and one discussion result. A key the dictionary lacks is `None`.
- `StableSort`: Python's `list.sort` as a stable insertion sort over an integer key. The module proves that it is a permutation, that it is sorted, and that elements with equal keys keep their order. It also proves that it is the only arrangement with those properties.
- `LinkExtractor`: `extract_project_url` and `has_project_link`.
  - The URL regex becomes an ASCII scanner with two flags:
    - whether a match may end in `.`: it may not in the `filter_and_enrich.py` copy, which has the look-behind;
    - whether `?`, `=` and `&` may occur in the path (see Findings).
  - Then come the exclusion rules, the YouTube rewrite and the first-survivor rule.
- `LinkFacts`: properties of the scanner.
  - Text split at a space scans as the two halves.
  - A leading excluded URL is skipped.
  - The two YouTube shapes are rewritten to `/embed/<id>`.
- `Selection`: `filter_papers` and `enrich_with_summaries` from `filter.py`. Enrichment updates an array of papers in place, in two loops.
- `Ranking`: `filter_and_enrich_papers_with_gemini`.
  - The lookup of returned items, where a later item wins.
  - The in-place enrichment loop.
  - The stable sort by returned position.
  - The truncation, and the fallback on any exception.
- `Files`: a file store. It is a class whose fields are a map from path to content and a set of directories.
- `Assets`: `extract_figures` as nested page and image loops with the acceptance filters, `download_pdf`, and `generate_pdf_preview`.
- `Social`: `find_tweets_for_paper`.
  - title cleaning and the query;
  - the user lookup;
  - the like filter and the defaults;
  - the sort by likes, descending.
- `Feed`: `generate_feed.py`.
  - the directory layout;
  - the cache hit or miss;
  - the early exits;
  - the per-paper asset bookkeeping;
  - the discussion step;
  - the cache write.

The pipeline uses both project-link patterns as written, so a watch link keeps the fault of the first finding. The corrected patterns are used only by the finding's corrected lemma. The asset step also follows the code as written: a downloaded PDF that does not render ends the run before the cache write (the second finding). `generate_feed.py` reaches `has_project_link`, `filter_papers` and `enrich_with_summaries` through `filter.py`.

## Model

| member | source | states |
|---|---|---|
| Common.PyTake | ainewsfeed/filter.py:102 | `xs[:n]` is a prefix of `xs` of length `min(n, len)` for `n >= 0`, and drops `-n` elements from the end for negative `n` |
| Common.Filter | ainewsfeed/filter.py:98 | a comprehension with a condition gives a subsequence of its input holding exactly the elements that satisfy the condition, each as often as in the input |
| Common.IndexOf | ainewsfeed/social.py:20 | the position found is an occurrence with no earlier one, and there is none exactly when the pattern never occurs |
| Common.SplitAll | ainewsfeed/filter.py:37-40 | `s.split(sep)` is a non-empty list of pieces without the separator that joined with the separator give back `s` |
| Common.FirstPiece | ainewsfeed/filter.py:37 | `s.split(sep)[0]` is a prefix of `s` with no separator starting before its end, and is `s` itself when there is no separator |
| Common.FirstPieceIsFirstOfSplit | ainewsfeed/filter.py:37 | `split(sep)[0]` is the first piece of the full split |
| Common.LastPiece | ainewsfeed/filter.py:40 | `s.split(sep)[-1]` is a suffix of `s` without the separator, and is `s` itself when there is no separator |
| Common.LastPieceFollowsSeparator | ainewsfeed/filter.py:37-40 | when the separator occurs, `split(sep)[-1]` is immediately preceded by an occurrence of it |
| Common.LastPieceIsLastOfSplit | ainewsfeed/filter.py:37-40 | `split(sep)[-1]` is the last piece of the full split |
| Common.ReplaceIsJoinOfSplit | generate_feed.py:156 | `s.replace(pat, rep)` is `rep.join(s.split(pat))` |
| StableSort.SortBy | ainewsfeed/social.py:74 | `list.sort(key=...)` gives a permutation of its input, sorted by the key |
| StableSort.SortByStable | ainewsfeed/filter_and_enrich.py:145 | elements with equal keys keep their input order |
| StableSort.StableSortIsSortBy | ainewsfeed/filter_and_enrich.py:145 | any arrangement that is sorted and keeps the order of equal keys is the sort's result |
| Files.FileStore.Write | generate_feed.py:190-191 | opening a path for writing replaces that path's content and nothing else |
| Files.FileStore.MakeDirs | generate_feed.py:45 | `mkdir(parents=True, exist_ok=True)` adds the directory and leaves the files alone |
| LinkExtractor.MatchIsWellFormed | ainewsfeed/filter.py:20-21 | every regex match is a scheme, then a non-empty host run, then path characters |
| LinkExtractor.MatchStopFacts | ainewsfeed/filter_and_enrich.py:22 | a match extends over URL characters only, and under the look-behind it never ends with `.` |
| LinkExtractor.UrlsAreWellFormed | ainewsfeed/filter_and_enrich.py:23 | every URL `re.findall` returns is well-formed for the pattern |
| LinkExtractor.WatchVideoId | ainewsfeed/filter.py:37 | the id of a watch URL starts right after the last `v=` (at the start when there is none) and runs to the first `&` after it or to the end; it contains neither `&` nor `v=` |
| LinkExtractor.ShortVideoId | ainewsfeed/filter.py:40 | the id of a `youtu.be` URL is its last segment: a suffix without `/` |
| LinkExtractor.SurvivorIndexMeaning | ainewsfeed/filter.py:23-33 | the scan stops at the first URL that passes both exclusion rules, and finds none exactly when every URL is excluded |
| LinkExtractor.ExtractProjectUrl | ainewsfeed/filter.py:17 | empty text has no project link |
| LinkExtractor.ExtractProjectUrlMeaning | ainewsfeed/filter.py:17-45 | there is no link exactly when the text is empty or every URL is excluded; otherwise the link is the first survivor, rewritten, and is not empty |
| LinkExtractor.HasProjectLinkMatchesProjectUrl | ainewsfeed/filter.py:47-57 | `has_project_link` holds exactly when the abstract-then-comment lookup finds a link, and the abstract's link wins |
| LinkFacts.UrlsEmbedded | ainewsfeed/filter.py:21 | a piece of text bounded by separators scans the same inside a longer text as on its own |
| LinkFacts.UrlsSplitAt | ainewsfeed/filter.py:21 | a text split at a separator scans as the URLs of the part before it, then those of the part after it |
| LinkFacts.UrlsOfJoinedText | ainewsfeed/filter.py:21 | joining two texts with a separator concatenates their URL lists |
| LinkFacts.FirstLinkAppend | ainewsfeed/filter.py:23-43 | the first survivor of two lists is the first list's when it has one, else the second list's |
| LinkFacts.ExtractSkipsExcludedPart | ainewsfeed/filter.py:27-33 | a leading part whose URLs are all excluded does not change the result |
| LinkFacts.ExtractKeepsFirstPart | ainewsfeed/filter.py:43 | a link found in the leading part is the result, whatever follows |
| LinkFacts.FirstUrlOver | ainewsfeed/filter.py:20 | an `https://` URL whose host and path runs end at a non-URL character is matched whole |
| LinkFacts.SurvivesWithoutLetters | ainewsfeed/filter.py:24-33 | a URL without upper-case letters and without the letters of every excluded word survives both rules |
| LinkFacts.ShortLinkEmbedsVideoId | ainewsfeed/filter.py:39-41 | a surviving `https://youtu.be/<id>` becomes `https://www.youtube.com/embed/<id>` |
| LinkFacts.LastPieceOfOnlyOccurrence | ainewsfeed/filter.py:37 | `split(sep)[-1]` of a string with one separator is what follows it |
| LinkFacts.WatchIdAfterV | ainewsfeed/filter.py:37 | the id of `https://www.youtube.com/watch?v=<id>` is `<id>` |
| LinkFacts.WatchPageIsLink | ainewsfeed/filter.py:36-38 | the bare watch page survives and is rewritten to the embed prefix followed by the whole page URL |
| LinkFacts.WatchLinkLosesVideoId | ainewsfeed/filter.py:20-21 | as written, `https://www.youtube.com/watch?v=<id>` yields the embed prefix plus the watch page URL, and the id is lost |
| LinkFacts.WatchLinkEmbedsVideoId | ainewsfeed/filter.py:36-38 | with query characters admitted, a surviving watch link yields `https://www.youtube.com/embed/<id>` |
| Selection.FilterPapers | ainewsfeed/filter.py:64-65 | empty input gives no papers and no prompt; otherwise the prompt carries the interests, the limit and a listing of the papers |
| Selection.FilterPapersIsSubsequence | ainewsfeed/filter.py:98-102 | the selection is a subsequence of the input, in input order |
| Selection.FilterPapersKeepsReturnedIds | ainewsfeed/filter.py:98-102 | on a parsed reply, the selection is the first `limit` input papers whose id was returned, in input order |
| Selection.FilterPapersFallback | ainewsfeed/filter.py:106-112 | on any failure, the selection is the first 5 input papers, whatever the limit |
| Selection.PromptListsEveryPaper | ainewsfeed/filter.py:70 | every input paper's id and title line appears in the prompt's listing |
| Selection.EnrichWithSummaries | ainewsfeed/filter.py:114-165 | every paper of the array is updated in place to its enriched form |
| Selection.AttachLinks | ainewsfeed/filter.py:123-127 | each paper gets the link found in it as `project_url`, and nothing else changes |
| Selection.AttachSummaries | ainewsfeed/filter.py:159-160 | each paper gets its summary, or the placeholder for a missing id, and nothing else changes |
| Selection.EnrichedKeepsPaper | ainewsfeed/filter.py:123-160 | enrichment changes only `project_url` and `ai_summary` |
| Selection.EnrichedLinkMatchesPrefilter | ainewsfeed/filter.py:124-127 | every enriched paper has the `project_url` key, and it holds a link exactly when `has_project_link` accepts the paper |
| Selection.EnrichedSummary | ainewsfeed/filter.py:159-165 | a usable reply gives the paper's own summary or "Could not generate summary."; a failed reply leaves `ai_summary` untouched |
| Ranking.LaterItemWins | ainewsfeed/filter_and_enrich.py:122 | both dictionaries have exactly the returned ids as keys, and each key maps to the last item carrying it: its payload and its index |
| Ranking.EnrichMatches | ainewsfeed/filter_and_enrich.py:126-140 | the loop updates each matched paper in place and collects the matched papers in input order |
| Ranking.FilterAndEnrich | ainewsfeed/filter_and_enrich.py:107-158 | on any failure, including an item without an id, the result is `papers[:limit]` and the papers are untouched; otherwise it is the first `limit` of the ranked matches |
| Ranking.MatchedMembers | ainewsfeed/filter_and_enrich.py:127-140 | every collected paper is an input paper whose id was returned, enriched with that id's payload |
| Ranking.MatchedComplete | ainewsfeed/filter_and_enrich.py:127 | every input paper whose id was returned is collected |
| Ranking.MatchedLength | ainewsfeed/filter_and_enrich.py:126-140 | the collection holds one paper per input paper whose id was returned |
| Ranking.RankedPaperFromLastItem | ainewsfeed/filter_and_enrich.py:128-138 | each output paper carries the last item's summary and rating, with the defaults for missing fields, and its locally extracted link |
| Ranking.EnrichKeepsLinkText | ainewsfeed/filter_and_enrich.py:135-138 | enriching a paper does not change the link found in it |
| Ranking.UnreturnedPaperDropped | ainewsfeed/filter_and_enrich.py:127 | an input paper whose id was not returned has no output paper |
| Ranking.RankedOrder | ainewsfeed/filter_and_enrich.py:144-145 | the output is a permutation of the matched papers, sorted by returned index, and papers with the same index keep their input order |
| Ranking.RankedOrderUnique | ainewsfeed/filter_and_enrich.py:144-145 | that order is the only one with both properties |
| Ranking.RankedKeysAreReturnedPositions | ainewsfeed/filter_and_enrich.py:145 | the default index 999 is never used, and every sort key is a returned position |
| Ranking.RankedLength | ainewsfeed/filter_and_enrich.py:148 | at most `limit` papers, and at most as many as input papers were matched |
| Ranking.CountReturnedBound | ainewsfeed/filter_and_enrich.py:126-140 | no more papers are matched than were given |
| Assets.JudgeAcceptsExactly | ainewsfeed/assets.py:73-98 | an image is saved exactly when it has at least 15000 bytes, both sides are at least 200, the aspect ratio lies in [0.2, 5], and saving does not raise |
| Assets.SavedMode | ainewsfeed/assets.py:95-96 | a CMYK image is saved as RGB, and any other mode is kept |
| Assets.MappedElements | ainewsfeed/assets.py:91-99 | the saved paths are, element by element, the path of each figure |
| Assets.Cap | ainewsfeed/assets.py:62-70 | the cap keeps a prefix of at most `max_figures` candidates |
| Assets.ExtractFigures | ainewsfeed/assets.py:48-105 | creates the figures directory; the returned paths are the capped accepted images in page-then-image order, each saved under the figures directory |
| Assets.SaveFigures | ainewsfeed/assets.py:61-63 | the page loop stops at five pages or at the cap, and has then saved exactly the capped candidates |
| Assets.SavePageFigures | ainewsfeed/assets.py:68-70 | the image loop of one page appends that page's accepted images until the cap is reached |
| Assets.ConsiderImage | ainewsfeed/assets.py:72-102 | one image is saved and appended when accepted, and otherwise skipped, including when its processing raises |
| Assets.SaveFigure | ainewsfeed/assets.py:91-99 | an accepted image is written to its file, and its relative path is appended |
| Assets.NextPage | ainewsfeed/assets.py:61-70 | a page processed below the cap extends the capped candidates by that page |
| Assets.PagesDone | ainewsfeed/assets.py:61-63 | stopping at the page limit or at the cap gives exactly the figures |
| Assets.DownloadPdf | ainewsfeed/assets.py:32-46 | an existing path succeeds without a fetch; otherwise a successful fetch stores the body and a failed one changes nothing and reports failure; success leaves the path present |
| Assets.GeneratePdfPreview | ainewsfeed/assets.py:9-30 | a stored PDF that renders gives `<id>_preview.png` and writes the preview file; anything else gives None and writes nothing |
| Assets.CandidatesMeaning | ainewsfeed/assets.py:61-88 | the candidates are exactly the accepted images of the pages examined |
| Assets.FiguresAreAcceptedImages | ainewsfeed/assets.py:61-88 | every figure is an accepted image of one of the first five pages and meets every bound |
| Assets.FiguresCompleteBelowCap | ainewsfeed/assets.py:61-99 | below the cap, every accepted image of the examined pages is a figure |
| Assets.FiguresCapped | ainewsfeed/assets.py:48 | at most `max_figures` figures, and at most 3 by default |
| Assets.CandidatesOrdered | ainewsfeed/assets.py:61-68 | candidates come from the pages examined, in page-then-image order |
| Assets.FiguresInOrder | ainewsfeed/assets.py:61-99 | the figures are in page-then-image order |
| Assets.FigureNameInjective | ainewsfeed/assets.py:91 | two figures with the same file name have the same page and image index |
| Assets.FigurePathsDistinct | ainewsfeed/assets.py:91-99 | no two returned figure paths are equal |
| Social.CleanTitleRemovesQuotes | ainewsfeed/social.py:20 | the cleaned title has no `"` and no `'`, and keeps every other character of the title |
| Social.ReplaceCharByNothing | ainewsfeed/social.py:20 | replacing a character by nothing removes every occurrence of it and nothing else |
| Social.QueryQuotesTitle | ainewsfeed/social.py:23 | the query is the cleaned title in double quotes, followed by ` -is:retweet lang:en`, and its only double quotes are the two delimiters |
| Social.FindTweetsForPaper | ainewsfeed/social.py:3-79 | without a token the result is empty; otherwise it is the processed response to the query for the title |
| Social.BuildUsers | ainewsfeed/social.py:45-49 | the user loop succeeds exactly when every user has an id, and then builds the lookup |
| Social.KeepLiked | ainewsfeed/social.py:51-71 | the tweet loop builds exactly the kept results |
| Social.KeptFacts | ainewsfeed/social.py:52-58 | every kept result has at least 2 likes and comes from a post, and there are no more results than posts |
| Social.KeptComplete | ainewsfeed/social.py:52-71 | every post with at least 2 likes gives a result |
| Social.FailedSearchGivesNothing | ainewsfeed/social.py:36-43 | a non-200 status, a response without `data` or a failed request gives no results |
| Social.ResultsComeFromLikedPosts | ainewsfeed/social.py:52-58 | every result has at least 2 likes and comes from a post of the response, and there are no more results than posts |
| Social.ResultsByLikes | ainewsfeed/social.py:74 | results are in non-increasing order of likes |
| Social.ResultsKeepResponseOrder | ainewsfeed/social.py:74 | results with equal likes keep their response order |
| Social.LaterUserWins | ainewsfeed/social.py:46-49 | when a user id repeats, the later record is used |
| Social.TweetAuthorDefaults | ainewsfeed/social.py:60-70 | an unknown author gives handle "unknown" and name "Unknown"; the url is `https://x.com/<handle>/status/<id>` |
| Social.TweetUrlNamesHandle | ainewsfeed/social.py:70 | a handle without `/` can be read back from the url |
| Feed.SetupDirectories | generate_feed.py:34-57 | the layout is derived from the root, year, week, prefix and date, and exactly the week and assets directories are created |
| Feed.RelativeAssetsResolve | generate_feed.py:53-55 | the report sits in the week directory, and the relative asset path, read from there, names the assets directory |
| Feed.LayoutPathsDistinct | generate_feed.py:44-54 | the cache file is neither directory nor the report |
| Feed.ArxivPdfUrl | generate_feed.py:156 | without `pdf_url`, an abstract-page url `<pre>/abs/<id>` gives `<pre>/pdf/<id>.pdf`, for any scheme and host `pre` that holds no other `/abs/` |
| Feed.AuthorsFullNamesEveryAuthor | generate_feed.py:152-153 | without an affiliation string, every author's name appears in `authors_full` |
| Feed.WithPreviewDegrades | generate_feed.py:166-175 | the written preview step fails exactly when no preview was made; the corrected step agrees with it whenever the preview was made, and otherwise leaves the paper as it is |
| Feed.PreviewStep | generate_feed.py:166-175 | as written, the step raises exactly when the stored PDF does not render, and then changes nothing; otherwise it writes the preview file and sets `pdf_preview` |
| Feed.ProcessAssets | generate_feed.py:149-177 | the download counts as a success when something was already at the PDF path, without a request, and otherwise exactly when the request succeeds; sets `authors_full`; sets `local_pdf` to the relative copy on success and the remote url on failure; sets `pdf_preview` exactly when the downloaded PDF rendered; the files behind them exist; raises exactly when a downloaded PDF does not render; the new files are those of `StepFiles`: the PDF body when nothing was at its path and the request succeeded, then the preview |
| Feed.DownloadsDecidedMeaning | generate_feed.py:148-160 | the recorded downloads are decided paper by paper: `download_pdf` answers True for a paper exactly when something was at its PDF path after the earlier papers' steps or its request succeeds |
| Feed.StepFilesFrame | generate_feed.py:149-177 | one asset step removes no file, rewrites only the paper's preview, and creates only the paper's PDF, holding the body of its request, and its preview |
| Feed.AssetFilesFrame | generate_feed.py:148-177 | the asset loop removes no file, rewrites only the processed papers' previews, and creates only their PDFs, each holding the body of its request, and their previews |
| Feed.AssetsDoneStep | generate_feed.py:148-177 | one more paper processed after papers that did not crash keeps every earlier paper's recorded assets, files and rendering PDF |
| Feed.AttachAssets | generate_feed.py:148-177 | papers get their assets recorded in order, each download decided on the files the earlier papers' steps left, with `pdf_preview` set exactly for those whose PDF rendered, up to and including the first whose downloaded PDF does not render, where the loop raises; all of them when none fails; the papers after it are untouched; the files are those of the steps taken |
| Feed.AttachTweets | generate_feed.py:180-186 | with a token, every paper gets the discussion found for its title, and nothing else changes |
| Feed.AttachTweet | generate_feed.py:182-186 | one paper gets its discussion, and the other papers are untouched |
| Feed.Run | generate_feed.py:84-191 | on a cache hit, the stored list is the result and no file is written; an early exit writes no cache; otherwise each download is decided on the files the earlier papers' steps left, the run raises exactly when a downloaded PDF does not render, and the files are then those of the asset steps taken, with the cache file as it was; else every selected paper is enriched, its assets recorded, its preview set when its PDF was downloaded and, with a token, its discussion attached, the files are those of all asset steps plus the cache, and reading the cache back yields the result |
| Feed.ProcessSelected | generate_feed.py:138-191 | each download is decided on the files the earlier papers' steps left; the run raises exactly when a downloaded PDF does not render, and then the files are those of the asset steps taken, with the cache file as before; otherwise the selected papers come out enriched, with their assets, previews and discussion, in order, and the files are those of all asset steps with exactly that list written to the cache file |
| Feed.ReportSelected | generate_feed.py:179-191 | after an asset loop without a crash, every paper is a final paper whose asset files are still present, and the cache file holds exactly the list |
| Feed.CacheWriteKeepsAssets | generate_feed.py:188-191 | writing the cache file leaves every recorded PDF and preview in place and every rendering PDF rendering |
| Feed.DiscussAndCache | generate_feed.py:180-191 | with a token every paper gets the discussion for its title, without one papers are unchanged, and the resulting list replaces the cache file's content |
| Feed.SelectedFromListing | generate_feed.py:117-132 | every selected paper is from the listing, and has a project link when one is required |
| Feed.FinalPaperKeepsPaper | generate_feed.py:140-186 | a final paper keeps its id, title, url and `pdf_url`, and its `project_url` is the one found in it, a link whenever one is required |
| Feed.AssetNamesDistinct | generate_feed.py:157-175 | the PDF and preview files never overwrite the cache or each other, and distinct papers get distinct files |

## Left out

- Remote services are not modelled. These are the Gemini requests, the HTTP requests, the arXiv listing and the affiliation scraper. Their outputs are inputs of the model: values, or functions of their request.
- `get_arxiv_papers`, `get_author_affiliations` and `generate_report` are not part of this model. The report step after the cache, and the keyword arguments `generate_feed.py` passes to them, are therefore not modelled.
- PyMuPDF and PIL are abstracted. Opening, rasterising, converting and saving images is not modelled.
  - An image is a record of its byte count, its decoded size and mode, or the fact that processing raises.
  - A document is its pages' image lists.
  - `fitz.open` raising in `extract_figures` is not modelled. The model always has a document.
- JudgeAcceptsExactly: the aspect test `w / h` on floats is stated by integer cross-multiplication, the exact comparison. Float rounding of the quotient is not modelled.
- The prompt texts are not modelled word for word. Only the parts a property depends on are kept: the interests, the limit, and the one-line-per-paper listing.
- Unicode `\w` is not modelled. The URL regexes are an ASCII scanner, and percent escapes take their two hex digits.
- Case folding is ASCII only. `str.lower` is modelled on `A`–`Z`.
- Clock and dates are not modelled. `datetime.now`, `strftime` (the year, ISO week and date stamp) and the date-range computation are parameters.
- The configuration file, the environment variables, argparse and the diagnostics are left out.
  - `sys.exit` becomes an `Outcome` value.
  - `time.sleep` and `print` are left out.
- The JSON text of the cache is not modelled. The cache file holds the dumped paper list as a value, so a read-back gives the list that was written. A file of the wrong kind reads as `CacheUnreadable`.
- The cache write is not atomic, and the model promises no atomicity.
- The uncaught exception of the preview step is the `Crashed` outcome. The traceback and the files written before it are not modelled beyond what `Feed.Run` states.
- Paths are plain strings joined with `/`. pathlib's normalisation is not modelled: a root with a trailing `/` or an empty root gives a path with `//` or a leading `/`, where Python's path has neither. A cache file stored under the normalised path is therefore not found by the model.
- Files.FileStore.Write: writing to a path that is a directory is not an error in the model. `open(path, "w")` and `pix.save` raise there; the model replaces the directory by a file. So `Feed.Run` with `force` and a directory at the cache path reports where the program raises.
- Files.FileStore.MakeDirs: creating a directory where a file sits is not an error in the model. `mkdir(parents=True, exist_ok=True)` raises `FileExistsError` there; the model adds the directory beside the file.
- Files are written into directories the model does not check. Directory parents are not tracked; `mkdir(parents=True)` adds only the named directory.
- Feed.ProcessAssets reads the paper's `authors` key, as `generate_feed.py:153` does. The listing client fills a differently named key, which is not part of this model.
- JSON nulls and non-string ids in the model's replies are not modelled. An id is a string or missing.
- `run_feed.py` and `ainewsfeed/__init__.py` are not part of this model. The first is an older command line without the cache; the second only re-exports.

## Findings

| source | as written | input that shows it | evidently intended | confidence | as-written member | corrected member |
|---|---|---|---|---|---|---|
| ainewsfeed/filter.py:20-21, ainewsfeed/filter_and_enrich.py:22 | the URL pattern admits no `?`, `=` or `&`, so a watch link is cut at `watch`, and the rewrite at lines 36-38 embeds the whole watch page URL instead of the video id | `https://www.youtube.com/watch?v=abc123` gives `https://www.youtube.com/embed/https://www.youtube.com/watch` | `https://www.youtube.com/embed/abc123` | high, not executed | LinkFacts.WatchLinkLosesVideoId | LinkFacts.WatchLinkEmbedsVideoId |
| generate_feed.py:166-175 | when `generate_pdf_preview` returns None, line 174 evaluates `assets_dir / None`, which raises and ends the run | any paper whose PDF downloads but does not render | leave the paper without `pdf_preview` and go on | high, not executed | Feed.PreviewStep | Feed.WithPreviewDegrades |

The pipeline model follows the code as written in both rows. A watch link is cut as the first row describes. A PDF that downloads but does not render ends the run with the `Crashed` outcome before the discussion step and the cache write. The corrected definitions (`LinkExtractor.CorrectedFilterPattern`, `LinkExtractor.CorrectedEnrichPattern` and `Feed.WithPreviewCorrected`) stand beside them with the intended property proved.
