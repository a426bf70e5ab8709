# Manga scraper core in Dafny

This project models the sequential decision procedures of a Go scraper that bulk-downloads
manhwa (series, then chapters, then images) from two sites, Comick and AsuraComic. It
proves properties of those procedures. It covers:

- the retrying file download, including its 404 rule and linear backoff;
- the consecutive-failure probe loops: chapter-list pages, image indices and Asura chapter numbers;
- the string scanners that find the opaque 8-character image hash of a Comick chapter;
- the Asura series, cover and image-URL extraction;
- the catalog and language filters;
- the header profiles sent with each kind of request.

The network, the file system and the clock are inputs. Each one is a function from the
attempt, page, image or chapter number to what the outside world answers. A regular
expression's matches and a decoded JSON record are inputs too. Sleeps are summed in ghost
variables.

Modules, one per source file, plus three shared ones:

| module | models |
|---|---|
| `Wrappers` | `Option` and `Result` |
| `Text` | the Go `strings` functions the source uses (`Index`, `IndexAny`, `LastIndex`, `Contains`, `ReplaceAll`, `TrimPrefix`, `Trim`, `FieldsFunc`, `ToLower`, `Title`) and integer formatting |
| `Utils` | utils.go |
| `Headers` | headers.go (`HeaderManager` is a class with its four header sets) |
| `Enumeration` | the loop shape shared by every probe loop: probe 0, 1, 2, … and stop at three failures in a row or at a cap; the chapter-list walk |
| `Dedup` | order-preserving duplicate removal (the `seen`-map idiom) |
| `Comick` | comick_adapter.go |
| `Asura` | asura_adapter.go |
| `Scraper` | scraper.go, the older single-site Comick scraper. It has its own record types (`ManhwaBrief`, `ChapterBrief`) because their Go declarations are not among the sources. |

Loops of the source are Dafny methods with loop invariants:

- the attempt loop of `DownloadFile`;
- the nested fill loop of `mergeHeaders`;
- the chapter-list walks;
- the image loops;
- the Asura chapter loop;
- the per-page filter loops;
- the `seen`-map loops of the Asura adapter.

Each method is proved against a specification function. The properties of that function are lemmas.

## Model

| member | source | states |
|---|---|---|
| Utils.IsAlphaNumeric | utils.go:41-48 | true exactly when every character is an ASCII letter or digit (so true for the empty string) |
| Utils.ExtractBetween | utils.go:106-119 | "" when the start marker is absent or no end marker follows it; otherwise the text from just after the first start marker up to the first end marker after it |
| Utils.MarkersAround | utils.go:111-118 | the start marker, the extracted text and the end marker occur together at the start marker's position |
| Utils.ExtractBetweenHasNoEnd | utils.go:113-118 | the extracted text never contains the end marker |
| Utils.FirstEnd | utils.go:54-89 | the first attempt that ends the loop (a 404 or a full success); no earlier attempt ends it |
| Utils.EndsHere | utils.go:54-89 | an ending attempt with no earlier ending attempt is the one the loop stops at |
| Utils.Tries | utils.go:54 | the loop never gets past MaxRetries attempts |
| Utils.TriangleClosedForm | utils.go:58 | the backoff units of k failed attempts, 1 + 2 + … + k, are k(k+1)/2 |
| Utils.DownloadFile | utils.go:51-92 | at most MaxRetries requests and none when MaxRetries <= 0; success exactly at the first attempt with status 200 whose create and copy succeed; a 404 is returned at once; every failed attempt k sleeps RetryDelay × (k+1), the last one included, and the ending attempt does not sleep; exhaustion reports the attempt count and the last attempt's error; a failed download leaves what its failed attempts left behind: the file of a failed copy is removed, unless that removal fails and leaves the partial file. `downloadImage` (scraper.go:390-433) is the same loop, so this contract covers it too |
| Utils.RemovalsSucceed | utils.go:78-85 | when every removal succeeds, a failed download leaves no file it created: the destination is missing if some attempt created it and untouched otherwise |
| Utils.FailedRemovalLeavesPartial | utils.go:82 | the error of os.Remove is ignored, so a failed removal leaves the partial file behind unless a later attempt creates the file again |
| Utils.CommonHeaders | utils.go:95-103 | the five common browser headers with their values (names and size in Headers.CommonNames) |
| Utils.DownloadEach | utils.go:51-92 | a download in a run fails exactly when the retry policy on that download's outcomes does not succeed |
| Utils.NotFoundAtOnce | utils.go:63-67 | a 404 on the first attempt ends the loop at attempt 0 without success, so by the DownloadFile contract it makes one request, sleeps nothing and returns the 404 |
| Utils.SuccessOnThirdAttempt | utils.go:54-88 | two transient failures and then a success under a cap of three end the loop at attempt 2 with success, so by the DownloadFile contract it makes three requests and sleeps RetryDelay × (1 + 2) |
| Headers.HeaderManager.MergeHeaders | headers.go:72-80 | the result is the merge of the sets applied left to right, built in a fresh map; the manager's stored sets are constants and stay unchanged |
| Headers.MergedKeys | headers.go:72-80 | a key is in the merge exactly when it is in one of the sets |
| Headers.LastSetWins | headers.go:74-77 | a key's value comes from the last set that has it |
| Headers.MergeTwo | headers.go:57-69 | merging two sets is the right-biased union of the two maps |
| Headers.DisjointOverlay | headers.go:57-69 | overlaying a set whose names are all new keeps every earlier header, and the sizes add up |
| Headers.CommonNames | headers.go:14-20 | the five common header names |
| Headers.ApiRole | headers.go:22-27 | the API role set (names and size in Headers.ApiNames) |
| Headers.PageRole | headers.go:29-35 | the page role set (names and size in Headers.PageNames) |
| Headers.ImageRole | headers.go:37-46 | the image role set (names and size in Headers.ImageNames) |
| Headers.ApiNames | headers.go:22-27 | the four API header names |
| Headers.PageNames | headers.go:29-35 | the five page header names |
| Headers.ImageNames | headers.go:37-46 | the eight image header names |
| Headers.ApiDisjoint | headers.go:14-27 | no API header name is a common header name |
| Headers.PageDisjoint | headers.go:14-35 | no page header name is a common header name |
| Headers.ImageDisjoint | headers.go:14-46 | no image header name is a common header name |
| Headers.SharedNamesNotCommon | headers.go:14-46 | the role header names used by more than one role are not common names |
| Headers.PageOnlyNameNotCommon | headers.go:29-35 | Upgrade-Insecure-Requests is not a common name |
| Headers.ImageOnlyNamesNotCommon | headers.go:37-46 | the names only image requests send are not common names |
| Headers.ApiProfileSize | headers.go:14-27 | the API profile has 9 entries |
| Headers.PageProfileSize | headers.go:14-35 | the page profile has 10 entries |
| Headers.ImageProfileSize | headers.go:14-46 | the image profile has 13 entries |
| Headers.ApiProfileShape | headers.go:57-59 | the API profile carries every common header and every API header, each with its own value |
| Headers.PageProfileShape | headers.go:62-64 | the page profile carries every common header and every page header, each with its own value |
| Headers.ImageProfileShape | headers.go:67-69 | the image profile carries every common header and every image header, each with its own value |
| Headers.ApiValues | headers.go:22-27 | the API profile has Accept "*/*" and Sec-Fetch-Mode "cors" |
| Headers.PageValues | headers.go:29-35 | the page profile has Sec-Fetch-Mode "navigate" |
| Headers.ImageValues | headers.go:37-46 | the image profile has Sec-Fetch-Dest "image" and Referer "https://comick.live/" |
| Headers.HeaderManager.GetAPIHeaders | headers.go:57-59 | the merge of the common set and the API set |
| Headers.HeaderManager.GetPageHeaders | headers.go:62-64 | the merge of the common set and the page set |
| Headers.HeaderManager.GetImageHeaders | headers.go:67-69 | the merge of the common set and the image set |
| Enumeration.FirstStop | comick_adapter.go:305-320 | the first probe that stops a loop, or the cap when none does: never past the cap, and a stopping probe when below it |
| Enumeration.BeforeFirstStop | comick_adapter.go:305-320 | no probe before the first stop stops the loop |
| Enumeration.StopHere | comick_adapter.go:305-320 | a stopping probe with no earlier stop is the first stop |
| Enumeration.Probes | comick_adapter.go:305-320 | a loop that breaks after its first stopping probe, or runs to its cap, makes at most cap probes, and the last one stops it |
| Enumeration.ProbesEndHere | comick_adapter.go:311-314 | a loop that breaks at probe k, with no stop before it, made k + 1 probes |
| Enumeration.ProbesGoOn | comick_adapter.go:305-320 | a probe that does not stop the loop is followed by another probe |
| Enumeration.ProbesRunOut | comick_adapter.go:305 | a loop that never stops makes all cap probes |
| Enumeration.StreakMeans | comick_adapter.go:311-319 | the consecutive-failure counter is at least m exactly when the last m probes all failed |
| Enumeration.ProbeStep | comick_adapter.go:311-319 | a failure adds one to the counter, a success resets it to 0, and the loop stops exactly when the counter reaches 3 |
| Enumeration.LimitMeansThreeInARow | comick_adapter.go:311-314 | the loop stops after probe k exactly when probes k-2, k-1 and k all failed |
| Enumeration.ProbeFailed | scraper.go:362-370 | a failed image adds to the counter and not to the count; the loop stops after it exactly when the counter reaches 3 |
| Enumeration.ProbeSucceeded | scraper.go:374-376 | a successful image resets the counter, adds one to the count and never stops the loop |
| Enumeration.ProbesExhausted | scraper.go:353 | a loop that reaches its cap has made cap probes |
| Enumeration.NoSuccessMeansAllFailed | scraper.go:381-383 | no success was counted exactly when every probe failed |
| Enumeration.Filter | comick_adapter.go:135-140 | keeps exactly the elements the predicate accepts and at most as many as there are |
| Enumeration.FilterAppend | comick_adapter.go:248-252 | filtering page after page keeps the accepted entries in their order of appearance |
| Enumeration.LastPage | comick_adapter.go:211-262 | the last page the walk requests is the first page it stops at: three failures in a row, an empty decoded page, or a decoded page past the cap |
| Enumeration.BeforeLastPage | comick_adapter.go:211-262 | the walk stops at no page before the last one |
| Enumeration.WalkBounded | comick_adapter.go:220-261 | the walk always stops, at page 102 at the latest, because the cap is only checked after a decoded page |
| Enumeration.WalkBoundReached | comick_adapter.go:220-261 | 100 full pages followed by failures really make the walk go to page 102 (103 requests) |
| Enumeration.FailedPageStep | comick_adapter.go:220-245 | a transport error, a 404 or a decode failure adds one to the counter and keeps no chapters |
| Enumeration.DecodedPageStep | comick_adapter.go:247-261 | a decoded page resets the counter and keeps its accepted chapters; it ends the walk when empty or past the cap |
| Enumeration.WalkEndsHere | comick_adapter.go:211-262 | a page the walk stops at, with no stop before it, is the last page |
| Enumeration.WalkGoesOn | comick_adapter.go:211-262 | a page the walk does not stop at is followed by a request for the next page |
| Enumeration.CollectedKept | comick_adapter.go:248-252 | every collected chapter was accepted by the filter |
| Enumeration.ChapterListUrlsAt | comick_adapter.go:212-217 | request p of the walk is the URL of page p: no query for page 0, then `?page=p` |
| Enumeration.ChapterListUrlsStep | comick_adapter.go:212-217 | each request asks for the page after the previous one |
| Enumeration.AppendKept | comick_adapter.go:248-252 | the inner loop appends the accepted entries of a page, in order |
| Enumeration.ChapterWalk | comick_adapter.go:206-265 | the walk requests exactly the pages up to its last page, in order, and returns the accepted entries of every decoded page among them |
| Dedup.FirstIndex | asura_adapter.go:143-146 | the index of the first occurrence of an element |
| Dedup.FirstIndexExtend | asura_adapter.go:143-146 | appending does not move the first occurrence of an element already present |
| Dedup.Unique | asura_adapter.go:410-418 | the result has exactly the elements of the input and no duplicates |
| Dedup.UniqueStep | asura_adapter.go:413-417 | one more element adds nothing when it was seen before, and is appended otherwise |
| Dedup.SeenStep | asura_adapter.go:414-415 | the `seen` set holds exactly the elements met so far |
| Dedup.UniqueKeepsOrder | asura_adapter.go:410-418 | the kept elements are in the order of their first occurrences |
| Dedup.UniqueOfDistinct | asura_adapter.go:410-418 | an input without duplicates is returned unchanged |
| Comick.FilterPage | comick_adapter.go:135-140 | keeps exactly the entries with startID == 0 or ID >= startID, in page order |
| Comick.GetChapterList | comick_adapter.go:206-265 | requests page URLs in order up to the walk's last page, at most 103 of them; returns the English chapters of every decoded page among them, in order |
| Comick.ExtractHashFromPattern | comick_adapter.go:359-378 | "" or an 8-character alphanumeric string; a found hash directly follows the first occurrence of the pattern (or, when the pattern is absent, of its backslash-free form) and is ended by one of / " ' \ |
| Comick.HashAfter | comick_adapter.go:367-376 | "" or an 8-character alphanumeric string that directly follows the first occurrence of the pattern |
| Comick.PatternThenHash | comick_adapter.go:367-376 | the pattern and the characters after it occur together at the pattern's position |
| Comick.ExtractHashRoundTrip | comick_adapter.go:359-378 | a hash written right after the first occurrence of the pattern and ended by /, ", ' or \ is the hash extracted |
| Comick.HashAfterRoundTrip | comick_adapter.go:367-376 | the same round trip for the search after a given pattern |
| Comick.HashAfterFound | comick_adapter.go:367-376 | the pattern found first at i, an alphanumeric word and then an ending character give that word |
| Comick.HashThenEnd | comick_adapter.go:369 | the first ending character after a hash is the one right after it |
| Comick.GetImageHash | comick_adapter.go:327-356 | a fetch or read error is returned; otherwise the plain pattern is tried before the escaped pattern and the first hash found wins, else "hash not found for chapter N"; every hash returned is 8 alphanumeric characters |
| Comick.UnescapedIsPlain | comick_adapter.go:344-350 | removing the backslashes of the escaped pattern gives the plain pattern |
| Comick.HostUnescaped | comick_adapter.go:350 | the CDN host name has no backslash |
| Comick.SlashUnescaped | comick_adapter.go:350 | an escaped slash loses its backslash |
| Comick.ChapterSeparatorUnescaped | comick_adapter.go:350 | the escaped chapter separator becomes "/0_" |
| Comick.LanguageSeparatorUnescaped | comick_adapter.go:350 | the escaped language segment becomes "/en/" |
| Comick.EscapeRemoved | comick_adapter.go:363 | removing a character from that character followed by text without it leaves the text |
| Comick.RemoveFromFive | comick_adapter.go:363 | backslash removal works piece by piece on a five-piece pattern |
| Comick.FallbackIsUnescaped | comick_adapter.go:360-365 | when the pattern does not occur, extraction gives what it gives for the backslash-free pattern |
| Comick.EscapedRetryNeedsEscapes | comick_adapter.go:344-353 | the escaped strategy finds a hash only where the plain one failed and the page really contains the escaped pattern |
| Comick.ChapterPageUrl | comick_adapter.go:328 | the chapter page URL <base>/comic/<slug>/<hid>-chapter-<chap>-en (its property in Comick.ChapterPageUrlsDistinct) |
| Comick.ChapterPageUrlsDistinct | comick_adapter.go:328 | each chapter of a comic has its own page URL |
| Comick.ImageUrls | comick_adapter.go:305-307 | the image URLs 0 .. n-1, one per index |
| Comick.ImageUrlsAt | comick_adapter.go:306-307 | entry i is the URL of image i |
| Comick.ImageUrlsStep | comick_adapter.go:305-307 | each image requested is the one after the previous |
| Comick.ImagesTried | comick_adapter.go:305-320 | the image loop tries at most 200 indices |
| Comick.ImagesReach | comick_adapter.go:305-320 | how far the loop may go before three failures in a row stop it, at most 200 |
| Comick.ImageProbed | comick_adapter.go:312-319 | a failed image adds one to the counter and stops the loop when it reaches 3; a success resets it |
| Comick.ImagesRunOut | comick_adapter.go:305 | a loop that gets past image 199 has tried all 200 images |
| Comick.DownloadImages | comick_adapter.go:304-321 | requests exactly the image URLs 0 .. n-1, where n is where three consecutive failures or the cap of 200 stop the loop |
| Comick.DownloadChapter | comick_adapter.go:290-324 | a hash error or a directory error is returned before any image is requested; otherwise the image loop runs and the chapter succeeds even when no image downloads |
| Comick.CoverExtension | comick_adapter.go:391-396 | ".jpg" exactly when the URL contains ".jpg", else ".png" exactly when it contains ".png", else ".webp" |
| Comick.GetAPIHeaders | comick_adapter.go:403-410 | the same map as the HeaderManager's API profile |
| Comick.GetPageHeaders | comick_adapter.go:412-419 | the common headers with the four page values written over them |
| Comick.GetImageHeaders | comick_adapter.go:421-429 | the common headers with the five image values written over them |
| Comick.PageRoleNames | comick_adapter.go:414-417 | the names the page getter writes |
| Comick.PageAcceptDiffers | comick_adapter.go:414 | the adapter's page Accept value differs from the HeaderManager's page profile |
| Comick.PageHeadersLackUpgrade | comick_adapter.go:412-419 | the adapter's page headers lack Upgrade-Insecure-Requests, which the page profile has |
| Comick.ImageHeadersWithinProfile | comick_adapter.go:421-429 | the adapter's image headers are the HeaderManager's image set without Sec-Fetch-Storage-Access, Accept-Encoding and Priority |
| Asura.SlugTitle | asura_adapter.go:151-152 | the title has the slug words' length and no dash |
| Asura.SlugSeries | asura_adapter.go:148-162 | a series exactly when the last '-' is neither the first nor the last character and the part after it is alphanumeric and at least 8 long; that part is the HID and the title comes from the part before it |
| Asura.SplitAtDash | asura_adapter.go:149-153 | a slug is its words, the last dash and a dash-free HID |
| Asura.SeriesOf | asura_adapter.go:147-163 | at most one series per slug |
| Asura.SeriesOfAppend | asura_adapter.go:138-166 | one more slug adds its series when it is well formed, and nothing otherwise |
| Asura.SeriesOfSound | asura_adapter.go:147-163 | every series kept comes from a well-formed slug of the input |
| Asura.SeriesOfComplete | asura_adapter.go:147-163 | every well-formed slug of the input gives a series that is kept |
| Asura.ParseSeriesFromHTML | asura_adapter.go:127-170 | the series of the distinct slugs, in link order, skipping malformed ones |
| Asura.ParseStep | asura_adapter.go:138-166 | a slug already seen adds nothing; a new one adds its series, if any |
| Asura.OrderExtend | asura_adapter.go:143-146 | one more slug keeps the order of the series already there |
| Asura.OrderAppend | asura_adapter.go:143-161 | a new slug's series goes after all the series already there |
| Asura.SeriesInFirstLinkOrder | asura_adapter.go:129-161 | the series are in the order of their slugs' first links |
| Asura.SeriesDistinct | asura_adapter.go:129-146 | no slug is emitted twice |
| Asura.Find | asura_adapter.go:236-256 | the index of the first element that is accepted, or the length |
| Asura.ExtractCoverURL | asura_adapter.go:231-260 | the first primary match without "-optimized", "-thumbnail", "-small" or "/conversions/"; otherwise the first fallback match outside "/conversions/"; otherwise "" |
| Asura.ExtractFromPagesJSON | asura_adapter.go:375-401 | no URLs when the array is missing or does not decode; otherwise exactly the non-empty page URLs |
| Asura.PageUrls | asura_adapter.go:393-398 | the non-empty URLs of the pages, no more of them than pages |
| Asura.PageUrlsSingle | asura_adapter.go:394-396 | one page contributes its URL exactly when the URL is non-empty |
| Asura.PageUrlsAppend | asura_adapter.go:393-398 | the URLs of two consecutive runs of pages are those of the first followed by those of the second, so array order is kept |
| Asura.ExtractDirectImageURLs | asura_adapter.go:404-421 | the matches with duplicates removed, in first-occurrence order |
| Asura.ExtractImageURLs | asura_adapter.go:355-372 | the JSON page list when it yields a URL, otherwise the de-duplicated direct matches |
| Asura.ImageURLsFromPage | asura_adapter.go:355-372 | every URL comes from the page; with no JSON URLs every direct match is kept exactly once |
| Asura.Min | asura_adapter.go:424-429 | the smaller of the two numbers |
| Asura.DownloadChapter | asura_adapter.go:316-352 | a transport or read error is returned; a 404 gives "404 for chapter N"; no images gives "no images found for chapter N"; a directory error is returned; when every image fails, "no images downloaded"; success exactly when the page lists images, the directory is made and one image downloads |
| Asura.ChapterDir | asura_adapter.go:343-345 | the chapter directory downloads/<title>/chapter_<n+1>, numbered from 1 (its properties in Asura.ChapterDirsDistinct) |
| Asura.Is404 | asura_adapter.go:281 | an error counts as a 404 when its text contains "404" (its values on the chapter errors in Asura.Is404Messages) |
| Asura.ChapterDirsDistinct | asura_adapter.go:343-345 | different chapters are saved in different directories, and chapter 0 in "chapter_1" |
| Asura.Is404Messages | asura_adapter.go:280-281 | the error of a missing chapter page counts toward the 404 limit, and "no images downloaded" does not |
| Asura.NotFoundRun | asura_adapter.go:280-290 | the 404 counter after k chapters, at most k |
| Asura.ChaptersTried | asura_adapter.go:270-300 | at most 501 chapters are tried |
| Asura.ChaptersReach | asura_adapter.go:270-300 | how far the loop may go before the 404 counter stops it, at most 501 |
| Asura.ChapterCounted | asura_adapter.go:280-290 | an error mentioning 404 adds to the counter; a success resets it and adds to the completed count; another error changes neither |
| Asura.ChapterProbed | asura_adapter.go:270-300 | the chapter after which the counter reaches 3 is the last one tried |
| Asura.ChaptersRunOut | asura_adapter.go:296-300 | a loop that gets past chapter 500 has tried 501 chapters |
| Asura.ChapterUrls | asura_adapter.go:318 | the chapter URLs 0 .. n-1 |
| Asura.ChapterUrlsStep | asura_adapter.go:265-294 | each chapter requested is the one after the previous |
| Asura.ChapterUrlsAt | asura_adapter.go:318 | entry k is the URL of chapter k |
| Asura.DownloadChapters | asura_adapter.go:263-313 | requests chapters 0, 1, 2, … until three 404s in a row or chapter 500; counts the successes; always returns nil |
| Asura.OtherErrorsDoNotReset | asura_adapter.go:280-287 | a 404, another error and then two 404s stop the loop after four chapters |
| Asura.TransportErrorDoesNotCount | asura_adapter.go:281 | an error text without "404" does not count |
| Asura.NotFoundPageCounts | asura_adapter.go:326-328 | a 404 of the chapter page counts towards the stop |
| Asura.ChapterNumber404Counts | asura_adapter.go:339-341 | chapter 404 without images counts as a 404 too, because the test matches the number in the message |
| Asura.GetPageHeaders | asura_adapter.go:489-499 | the common headers with the page values written over them |
| Asura.GetImageHeaders | asura_adapter.go:501-510 | the common headers with the image values written over them |
| Asura.ImageHeadersWithoutReferer | asura_adapter.go:489-510 | page requests name the site as referrer, image requests carry no referrer and Sec-Fetch-Site "none" |
| Scraper.FilterPage | scraper.go:114-119 | keeps exactly the entries with startID == 0 or ID >= startID, in page order |
| Scraper.GetChapterListPaginated | scraper.go:190-264 | the same walk as the Comick adapter: pages in order up to the last one, at most 103 requests, the English chapters of every decoded page |
| Scraper.DownloadChapterImagesSequential | scraper.go:346-387 | requests image URLs 0 .. n-1 until three consecutive failures or 200; the count is the number of images that downloaded; an error "no images downloaded for chapter N" exactly when the count is 0 |
| Scraper.CountingImageLoop | scraper.go:353-379 | the loop requests the same URLs as the Comick image loop and counts exactly the successful downloads |
| Scraper.ImagesDownloaded | scraper.go:374-376 | at most as many images downloaded as tried |
| Scraper.ImagesDownloadedStep | scraper.go:362-376 | a successful image adds one to the count and a failed one nothing |
| Scraper.NothingDownloadedMeansAllFailed | scraper.go:381-383 | the count is 0 exactly when every image tried failed |
| Scraper.FiveDownloadsThenThreeFailures | scraper.go:353-379 | successes at 0-4 and failures at 5, 6, 7 stop after image 7 with 5 downloads |
| Scraper.ValidateHash | scraper.go:599-610 | a hash is good exactly when the GET of image 0 of the chapter under that hash answers 200 |
| Scraper.TestUrlIsFirstImage | scraper.go:600 | the validation URL is the first image URL of the chapter |
| Scraper.FirstValid | scraper.go:588-595 | the first candidate that is 8 alphanumeric characters and validates, or "" exactly when none does |
| Scraper.FirstValidIsFirst | scraper.go:588-595 | the candidate returned is the first accepted one |
| Scraper.TrimEach | scraper.go:563-564 | one trimmed word per word |
| Scraper.FindHashInContent | scraper.go:557-572 | "" or a validated, hash-shaped word of the content |
| Scraper.TrimWordClean | scraper.go:564 | a word without separators has no quote to trim |
| Scraper.TrimEachClean | scraper.go:558-564 | trimming quotes never changes a word, because quotes already separate words |
| Scraper.ContentWordsAreFields | scraper.go:558-564 | the words examined are exactly the fields of the content |
| Scraper.FieldsAround | scraper.go:558-561 | a word standing alone between two separators is a field of its own |
| Scraper.HashNoSep | scraper.go:565 | a hash-shaped word has no separator |
| Scraper.FindHashBetweenSeparators | scraper.go:557-572 | a validated hash standing alone between separators, with no earlier word accepted, is found |
| Scraper.HidCandidates | scraper.go:576-586 | the HID and its lower-case form; when the HID has at least 8 characters, then its first 8, its last 8 and the first 8 of its lower-case form |
| Scraper.GuessHashFromHid | scraper.go:575-596 | the first hash-shaped candidate that validates, or "" exactly when none does |
| Scraper.ShortHidNoGuess | scraper.go:582-589 | an HID shorter than 8 characters never yields a hash |
| Scraper.HidItselfFirst | scraper.go:576-591 | an 8-character alphanumeric HID that validates is itself the hash |
| Scraper.LongHidPrefixFirst | scraper.go:576-591 | for a longer HID whose first 8 characters validate, those are the hash |
| Scraper.DirectHash | scraper.go:476-489 | "" or a hash-shaped word that directly follows the first occurrence of the pattern and is ended by '/' |
| Scraper.DirectHashRoundTrip | scraper.go:476-489 | a hash written right after the first occurrence of the pattern and ended by '/' is the hash found |
| Scraper.HashThenSlash | scraper.go:482 | the first '/' after a hash is the one right after it |
| Scraper.DirectHashFound | scraper.go:479-486 | the pattern found first at i and a '/' 8 characters later give those 8 characters |
| Scraper.EscapedHashAfter | scraper.go:514-523 | "" or a hash-shaped word |
| Scraper.EscapedHashLocated | scraper.go:514-523 | a found hash sits between the first escaped "/en/" and an escaped slash |
| Scraper.CutAfterMarker | scraper.go:516-518 | after the marker a found hash is followed by an escaped slash at position 9 |
| Scraper.EscapedHashRoundTrip | scraper.go:514-523 | a hash written after the first escaped "/en/" and ended by an escaped slash is the hash found |
| Scraper.ExtractFromEscapedPattern | scraper.go:507-526 | "" or a hash-shaped word, found after the first occurrence of the backslash-free pattern, or of the pattern itself when that is absent |
| Scraper.ExtractHashFromHtml | scraper.go:475-504 | "" or a hash-shaped word; the direct strategy first, then the two escaped patterns in order |
| Scraper.ExtractHashFromHtmlRoundTrip | scraper.go:475-489 | a page carrying the CDN URL of the chapter with the hash yields that hash |
| Scraper.ScriptHash | scraper.go:544-549 | a script yields a hash only when it mentions the slug or "comicknew", and then the one its content search finds |
| Scraper.ScriptsHash | scraper.go:544-551 | "" or a validated, hash-shaped word |
| Scraper.ScriptsHashFirst | scraper.go:544-553 | "" exactly when no visited script yields a hash; otherwise the hash of the first visited script that yields one |
| Scraper.GetChapterImageHashAdvanced | scraper.go:436-472 | a fetch or read error is returned; otherwise direct patterns, then scripts, then HID guesses, and the first hash found wins, else "image hash not found for chapter N"; every hash returned is 8 alphanumeric characters |
| Scraper.LaterStrategiesValidated | scraper.go:459-469 | a hash from the scripts or from the HID has been validated |
| Scraper.DownloadChapter | scraper.go:326-343 | a hash error gives "failed to get image hash: …" and a directory error is returned, both before any image; otherwise the URLs the sequential image loop requests and the number it downloads; success exactly when one image downloads, and the error otherwise is "no images downloaded for chapter N" |
| Scraper.CoverExtension | scraper.go:312-317 | ".jpg" exactly when the URL contains ".jpg" or ".jpeg", else ".png" when it contains ".png", else ".webp" |
| Scraper.CoverExtensionsAgree | scraper.go:312-317 | the two Comick scrapers choose differently exactly for URLs that mention ".jpeg" and not ".jpg" |
| Scraper.JpegCover | scraper.go:312-317 | "c.jpeg" is saved as ".jpg" by the scraper and as ".webp" by the adapter |
| Text.IndexOf | utils.go:107 | the position of the first occurrence, or -1 exactly when there is none |
| Text.IndexAny | comick_adapter.go:369 | the position of the first character from the set, or -1 exactly when there is none |
| Text.LastIndexOf | asura_adapter.go:149 | the position of the last occurrence of the character, or -1 when there is none |
| Text.TrimPrefix | scraper.go:518 | the text after the prefix when the text starts with it, else the text unchanged |
| Text.FieldsFunc | scraper.go:558-561 | every field is non-empty and contains no separator |
| Text.ToLower | scraper.go:578 | the same length, each character lowered |
| Text.Title | asura_adapter.go:152 | the same length; the first character and every character after a separator are upper-cased, every other one is kept |
| Text.NatToString | asura_adapter.go:327 | at least one digit, all of them decimal; a number below ten is its single digit |
| Text.NatToStringInjective | asura_adapter.go:318 | different numbers are written differently |
| Text.FieldsOfWord | scraper.go:558-561 | a non-empty word without separators is its own single field |
| Text.FieldsSplit | scraper.go:558-561 | the fields of a text split at a separator are the fields of the two sides |
| Text.TrimClean | scraper.go:564 | trimming a word without any character of the cut set leaves it unchanged |
| Text.RemoveCharAppend | comick_adapter.go:363 | removing a character distributes over concatenation |

## Left out

- Concurrency is left out. This covers goroutine fan-out, mutex aggregation and the worker pools: `getAllManhwas`/`getAllManhwasParallel` page fan-out, `downloadManhwasParallel`, `downloadChaptersParallel`, `downloadSeriesParallel`, `downloadChapterImagesFromURLs` and the top-level orchestration. Only the per-unit filter and counting logic is modelled. The English-only filter and the `startID` filter are the per-page parts of those stages.
- Asura.DownloadChapter: the concurrent image downloads are one input, whether the download of the i-th URL fails. Only "at least one succeeded" matters, since the rest is parallel scheduling.
- fetcher.go, interfaces.go, types.go, workerpool.go and main.go are not part of this model. The transport is replaced by outcome functions, and command-line handling is glue.
- The file system and the clock are inputs:
  - the outcomes of `os.Create`, `io.Copy` and `os.Remove` are inputs, one triple per attempt, and the destination's state is a value (missing, partial or complete); a failed `os.Remove` leaves the partial file, since its error is ignored;
  - `EnsureDir` is a directory-error input;
  - file paths and `filepath.Join` are not modelled, apart from the 1-based Asura chapter directory number;
  - sleeps are a ghost total in `DownloadFile`, and the 50 ms and 100 ms rate-limiting pauses between requests are left out.
- Regular-expression matching and JSON decoding are inputs:
  - the Asura slugs, cover matches and optimized-image matches are given as match lists;
  - the "pages" array is given already decoded (`None` when it is missing or does not decode);
  - a chapter-list or catalog page is given as fetch failure, decode failure, or decoded records.
- Scraper.ScriptsHash: the `<script>` offset scan of `extractHashFromScripts` (scraper.go:530-552) is not modelled. It mixes relative and absolute indices, panics on a page that begins with "<script" and can revisit the same script forever. The model takes the list of scripts the scan visits as an input and models only the per-script test.
- Strings are sequences of characters, where Go indexes bytes. The length tests of the source (`len(hash) == 8`, `len(word) == 8`) sit behind checks that every character is an ASCII letter or digit, so for the strings they accept the character count equals the byte count and the results coincide. Offsets into non-ASCII text are not byte offsets in the model.
- Text.ToLower and Text.Title handle ASCII only. The source calls Go's Unicode `strings.ToLower` and `strings.Title`, and Unicode case tables are not modelled.
- Headers are computed by the getters but not attached to requests, because the transport is an input. Logging is not modelled.
- Go error values are modelled as strings, or as a `DownloadError` datatype for `DownloadFile`. The exact text of wrapped Go errors such as "HTTP 404" or "failed after N attempts: …" is kept structurally, not character by character.
- downloadCover of each adapter is modelled only through its extension choice. The download itself is `DownloadFile`.
- Comick.DownloadImages does not report which image files exist afterwards; it states only the sequence of URLs requested.

The source's behaviour differs from a plain reading of the system's design in these places, and the model follows the code:

- The 100-page cap of the chapter-list walks is checked only after a decoded page, so failed pages can push the walk up to 103 requests.
- The Asura chapter loop tries chapters 0 to 500, which is 501 chapters.
- The Asura chapter loop counts any error whose text contains "404", including the no-images error of chapter 404. Other errors neither count nor reset.
- Only the script and HID strategies of the hash search validate their candidate with a request. The direct and escaped pattern strategies, and the adapter's `getImageHash`, return a hash unvalidated.
- `DownloadFile` does not create missing parent directories; its callers do.
