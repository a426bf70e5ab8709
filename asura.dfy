/** asura_adapter.go: the AsuraComic site adapter. The series list parsed from the
    catalog links, the cover choice, the chapter probe loop, a chapter download, the
    image-URL extraction and the adapter's header sets. Regular-expression matching and
    JSON decoding are left to the caller: their results come in as sequences. */
module Asura {
  import opened Wrappers
  import opened Text
  import Utils
  import opened Dedup
  import opened Enumeration

  const BaseUrl: string := "https://asuracomic.net"

  /** A series; its slug has the form "title-hid". */
  datatype AsuraSeries = AsuraSeries(slug: string, title: string, coverUrl: string, hid: string)

  /** One entry of the "pages" array of a chapter page. */
  datatype AsuraPage = AsuraPage(order: int, url: string)

  // ---------------------------------------------------------------------------
  // parseSeriesFromHTML
  // ---------------------------------------------------------------------------

  /** The title of a slug's words: dashes become spaces, then the words are
      lower-cased and capitalised. No dash is left. */
  function SlugTitle(words: string): (t: string)
    ensures |t| == |words| && '-' !in t
  {
    var spaced := ReplaceChar(words, '-', ' ');
    var t := Title(ToLower(spaced));
    forall i | 0 <= i < |t| ensures t[i] != '-' {
      var low := ToLower(spaced);
      assert spaced[i] != '-';
      assert low[i] != '-';
      if i == 0 {
        assert t[0] == UpperChar(low[0]);
      } else {
        assert t[i] == if TitleSeparator(low[i - 1]) then UpperChar(low[i]) else low[i];
      }
    }
    t
  }

  /** The series a catalog link stands for: the slug is split at its last '-'; the part
      before it becomes the title; the part after it is the HID and must be alphanumeric
      and at least 8 characters long. */
  function SlugSeries(slug: string): (r: Option<AsuraSeries>)
    ensures var d := LastIndexOf(slug, '-');
      r.Some? <==> 0 < d < |slug| - 1 && Utils.IsAlphaNumeric(slug[d + 1..]) && |slug| - (d + 1) >= 8
    ensures r.Some? ==> |r.value.hid| < |slug|
    ensures r.Some? ==>
      var words := slug[..|slug| - |r.value.hid| - 1];
      && r.value.slug == slug && r.value.coverUrl == ""
      && |r.value.hid| >= 8 && Utils.IsAlphaNumeric(r.value.hid) && '-' !in r.value.hid
      && slug == words + "-" + r.value.hid
      && r.value.title == SlugTitle(words)
  {
    var d := LastIndexOf(slug, '-');
    if 0 < d < |slug| - 1 then
      var hid := slug[d + 1..];
      if Utils.IsAlphaNumeric(hid) && |hid| >= 8 then
        SplitAtDash(slug, d);
        Some(AsuraSeries(slug, SlugTitle(slug[..d]), "", hid))
      else None
    else None
  }

  /** A slug split at its last dash. */
  lemma SplitAtDash(slug: string, d: nat)
    requires d < |slug| && slug[d] == '-' && forall j :: d < j < |slug| ==> slug[j] != '-'
    ensures slug == slug[..d] + "-" + slug[d + 1..]
    ensures '-' !in slug[d + 1..]
  {
    var hid := slug[d + 1..];
    forall k | 0 <= k < |hid| ensures hid[k] != '-' {
      assert hid[k] == slug[d + 1 + k];
    }
  }

  /** The series of a list of distinct slugs, in order, skipping the malformed ones. */
  function SeriesOf(slugs: seq<string>): (r: seq<AsuraSeries>)
    ensures |r| <= |slugs|
  {
    if |slugs| == 0 then []
    else
      var p, y := slugs[..|slugs| - 1], slugs[|slugs| - 1];
      assert slugs == p + [y];
      SeriesOf(p) + (if SlugSeries(y).Some? then [SlugSeries(y).value] else [])
  }

  /** SeriesOf on a sequence that has grown by one slug. */
  lemma SeriesOfAppend(u: seq<string>, y: string)
    ensures SeriesOf(u + [y]) == SeriesOf(u) + (if SlugSeries(y).Some? then [SlugSeries(y).value] else [])
  {
    assert (u + [y])[..|u|] == u;
  }

  /** Every series SeriesOf keeps comes from a well-formed slug of the input ... */
  lemma {:induction false} SeriesOfSound(slugs: seq<string>)
    ensures forall s :: s in SeriesOf(slugs) ==> s.slug in slugs && SlugSeries(s.slug) == Some(s)
  {
    if |slugs| > 0 {
      var p, y := slugs[..|slugs| - 1], slugs[|slugs| - 1];
      assert slugs == p + [y];
      SeriesOfSound(p);
    }
  }

  /** ... and every well-formed slug of the input gives a series SeriesOf keeps. */
  lemma {:induction false} SeriesOfComplete(slugs: seq<string>)
    ensures forall x :: x in slugs && SlugSeries(x).Some? ==> SlugSeries(x).value in SeriesOf(slugs)
  {
    if |slugs| > 0 {
      var p, y := slugs[..|slugs| - 1], slugs[|slugs| - 1];
      assert slugs == p + [y];
      SeriesOfComplete(p);
    }
  }

  /** parseSeriesFromHTML over the slugs captured from the catalog's series links, in
      page order: each new slug is marked seen and, when well formed, becomes a series. */
  method ParseSeriesFromHTML(slugs: seq<string>) returns (series: seq<AsuraSeries>)
    ensures series == SeriesOf(Unique(slugs))
  {
    series := [];
    var seen: set<string> := {};
    for i := 0 to |slugs|
      invariant forall x :: x in seen <==> x in slugs[..i]
      invariant series == SeriesOf(Unique(slugs[..i]))
    {
      var fullSlug := slugs[i];
      ParseStep(slugs, i);
      SeenStep(slugs, i, seen);
      if fullSlug in seen {
        continue;
      }
      seen := seen + {fullSlug};
      var parsed := SlugSeries(fullSlug);
      if parsed.Some? {
        series := series + [parsed.value];
      }
    }
    assert slugs[..|slugs|] == slugs;
  }

  /** What one more link adds to the parsed series: nothing when its slug was seen,
      otherwise its series when the slug is well formed. */
  lemma ParseStep(slugs: seq<string>, i: nat)
    requires i < |slugs|
    ensures slugs[i] in slugs[..i] ==> SeriesOf(Unique(slugs[..i + 1])) == SeriesOf(Unique(slugs[..i]))
    ensures slugs[i] !in slugs[..i] ==>
      SeriesOf(Unique(slugs[..i + 1])) ==
      SeriesOf(Unique(slugs[..i])) + (if SlugSeries(slugs[i]).Some? then [SlugSeries(slugs[i]).value] else [])
  {
    UniqueStep(slugs, i);
    SeriesOfAppend(Unique(slugs[..i]), slugs[i]);
  }

  /** The series in `r` come from slugs of `s`, in the order of the slugs' first
      occurrences in `s`. */
  predicate InFirstOccurrenceOrder(r: seq<AsuraSeries>, s: seq<string>) {
    && (forall i :: 0 <= i < |r| ==> r[i].slug in s)
    && (forall i, j :: 0 <= i < j < |r| ==> FirstIndex(s, r[i].slug) < FirstIndex(s, r[j].slug))
  }

  /** Appending a slug keeps the order of the series already there. */
  lemma OrderExtend(r: seq<AsuraSeries>, p: seq<string>, y: string)
    requires InFirstOccurrenceOrder(r, p)
    ensures InFirstOccurrenceOrder(r, p + [y])
  {
    forall i | 0 <= i < |r| ensures FirstIndex(p + [y], r[i].slug) == FirstIndex(p, r[i].slug) {
      FirstIndexExtend(p, y, r[i].slug);
    }
  }

  /** A new slug's series goes after all the series already there. */
  lemma OrderAppend(r: seq<AsuraSeries>, p: seq<string>, y: string, x: AsuraSeries)
    requires InFirstOccurrenceOrder(r, p) && y !in p && x.slug == y
    ensures InFirstOccurrenceOrder(r + [x], p + [y])
  {
    OrderExtend(r, p, y);
    assert FirstIndex(p + [y], y) == |p|;
  }

  /** parseSeriesFromHTML names each slug at most once, in the order of its first link. */
  lemma {:induction false} SeriesInFirstLinkOrder(slugs: seq<string>)
    ensures InFirstOccurrenceOrder(SeriesOf(Unique(slugs)), slugs)
  {
    if |slugs| > 0 {
      var p, y := slugs[..|slugs| - 1], slugs[|slugs| - 1];
      assert slugs == p + [y];
      SeriesInFirstLinkOrder(p);
      var u := Unique(p);
      if y in u {
        OrderExtend(SeriesOf(u), p, y);
      } else {
        assert Unique(slugs) == u + [y];
        SeriesOfAppend(u, y);
        if SlugSeries(y).Some? {
          OrderAppend(SeriesOf(u), p, y, SlugSeries(y).value);
        } else {
          OrderExtend(SeriesOf(u), p, y);
        }
      }
    }
  }

  /** Distinct first indexes mean distinct slugs: no series is emitted twice. */
  lemma SeriesDistinct(slugs: seq<string>)
    ensures var r := SeriesOf(Unique(slugs));
      forall i, j :: 0 <= i < j < |r| ==> r[i].slug != r[j].slug
  {
    SeriesInFirstLinkOrder(slugs);
  }

  // ---------------------------------------------------------------------------
  // extractCoverURL
  // ---------------------------------------------------------------------------

  /** An original cover: no optimized, thumbnail, small or conversion variant. */
  predicate OriginalCover(url: string) {
    !Contains(url, "-optimized") && !Contains(url, "-thumbnail") && !Contains(url, "-small") &&
    !Contains(url, "/conversions/")
  }

  /** Any media URL outside the conversions folder. */
  predicate FallbackCover(url: string) {
    !Contains(url, "/conversions/")
  }

  /** The index of the first element of `s` that satisfies `keep`, or |s|. */
  function Find<T>(keep: T -> bool, s: seq<T>): (i: nat)
    ensures i <= |s|
    ensures i < |s| ==> keep(s[i])
    ensures forall j :: 0 <= j < i ==> !keep(s[j])
  {
    if |s| == 0 then 0 else if keep(s[0]) then 0 else 1 + Find(keep, s[1..])
  }

  /** extractCoverURL over the matches of its two media patterns (`primary` with any
      file name, `fallback` with a file name without '/'): the first original cover, else
      the first fallback match outside the conversions folder, else "". */
  function ExtractCoverURL(primary: seq<string>, fallback: seq<string>): (r: string)
    ensures forall i ::
      (0 <= i < |primary| && OriginalCover(primary[i]) && forall j :: 0 <= j < i ==> !OriginalCover(primary[j]))
      ==> r == primary[i]
    ensures (forall u :: u in primary ==> !OriginalCover(u)) ==>
      forall i ::
        (0 <= i < |fallback| && FallbackCover(fallback[i]) && forall j :: 0 <= j < i ==> !FallbackCover(fallback[j]))
        ==> r == fallback[i]
    ensures ((forall u :: u in primary ==> !OriginalCover(u)) && (forall u :: u in fallback ==> !FallbackCover(u)))
      ==> r == ""
    ensures r == "" || FallbackCover(r)
  {
    var i := Find(OriginalCover, primary);
    if i < |primary| then primary[i]
    else
      var j := Find(FallbackCover, fallback);
      if j < |fallback| then fallback[j] else ""
  }

  // ---------------------------------------------------------------------------
  // extractImageURLs, extractFromPagesJSON, extractDirectImageURLs, min
  // ---------------------------------------------------------------------------

  /** extractFromPagesJSON over the decoded "pages" array (None when the array is
      missing or does not decode): the non-empty URLs in array order. */
  function ExtractFromPagesJSON(pages: Option<seq<AsuraPage>>): (r: seq<string>)
    ensures pages.None? ==> r == []
    ensures pages.Some? ==> |r| <= |pages.value|
    ensures pages.Some? ==> forall u :: u in r <==> u != "" && exists i :: 0 <= i < |pages.value| && pages.value[i].url == u
  {
    if pages.None? then [] else PageUrls(pages.value)
  }

  /** The non-empty URLs of `ps`, in order. */
  function PageUrls(ps: seq<AsuraPage>): (r: seq<string>)
    ensures |r| <= |ps|
    ensures forall u :: u in r <==> u != "" && exists i :: 0 <= i < |ps| && ps[i].url == u
  {
    if |ps| == 0 then []
    else
      var p, q := ps[..|ps| - 1], ps[|ps| - 1];
      assert ps == p + [q];
      PageUrls(p) + (if q.url != "" then [q.url] else [])
  }

  /** One page contributes its URL exactly when the URL is non-empty. */
  lemma PageUrlsSingle(p: AsuraPage)
    ensures PageUrls([p]) == if p.url != "" then [p.url] else []
  {
    assert [p][..0] == [];
  }

  /** The URLs of two consecutive runs of pages are those of the first run followed by
      those of the second: array order is kept. */
  lemma {:induction false} PageUrlsAppend(a: seq<AsuraPage>, b: seq<AsuraPage>)
    ensures PageUrls(a + b) == PageUrls(a) + PageUrls(b)
  {
    if |b| == 0 {
      assert a + b == a;
    } else {
      var b', q := b[..|b| - 1], b[|b| - 1];
      assert b == b' + [q];
      assert a + b == (a + b') + [q];
      assert (a + b)[..|a + b| - 1] == a + b';
      PageUrlsAppend(a, b');
    }
  }

  /** extractDirectImageURLs over the optimized-image matches of the page, in page
      order: every match not seen before is kept. */
  method ExtractDirectImageURLs(matches: seq<string>) returns (urls: seq<string>)
    ensures urls == Unique(matches)
  {
    urls := [];
    var seen: set<string> := {};
    for i := 0 to |matches|
      invariant forall x :: x in seen <==> x in matches[..i]
      invariant urls == Unique(matches[..i])
    {
      var url := matches[i];
      UniqueStep(matches, i);
      SeenStep(matches, i, seen);
      if url !in seen {
        seen := seen + {url};
        urls := urls + [url];
      }
    }
    assert matches[..|matches|] == matches;
  }

  /** extractImageURLs: the JSON page list when it yields any URL, otherwise the
      de-duplicated direct matches. */
  function ExtractImageURLs(pages: Option<seq<AsuraPage>>, direct: seq<string>): (r: seq<string>)
    ensures |ExtractFromPagesJSON(pages)| > 0 ==> r == ExtractFromPagesJSON(pages)
    ensures |ExtractFromPagesJSON(pages)| == 0 ==> r == Unique(direct)
  {
    var urls := ExtractFromPagesJSON(pages);
    if |urls| > 0 then urls else Unique(direct)
  }

  /** No image is lost or repeated: every URL extracted comes from the page, and the
      direct fallback lists each of its matches exactly once. */
  lemma ImageURLsFromPage(pages: Option<seq<AsuraPage>>, direct: seq<string>)
    ensures forall u :: u in ExtractImageURLs(pages, direct) ==> u in ExtractFromPagesJSON(pages) || u in direct
    ensures |ExtractFromPagesJSON(pages)| == 0 ==>
      && (forall u :: u in ExtractImageURLs(pages, direct) <==> u in direct)
      && (forall i, j :: 0 <= i < j < |ExtractImageURLs(pages, direct)| ==>
            ExtractImageURLs(pages, direct)[i] != ExtractImageURLs(pages, direct)[j])
  {
  }

  /** min. */
  function Min(a: int, b: int): (r: int)
    ensures r <= a && r <= b
    ensures r == a || r == b
  {
    if a < b then a else b
  }

  // ---------------------------------------------------------------------------
  // downloadChapter
  // ---------------------------------------------------------------------------

  /** What the fetch of a chapter page meets: a transport error, a 404, a failed body
      read, or a body whose "pages" array decodes to `pages` and whose optimized-image
      matches are `direct`. Other statuses are read like a 200. */
  datatype ChapterPage =
    | Unreachable(message: string)
    | NotFound
    | Unreadable(message: string)
    | Page(pages: Option<seq<AsuraPage>>, direct: seq<string>)

  /** The chapter page URL; chapters are numbered from 0. */
  function ChapterUrl(slug: string, chapterNum: nat): string {
    BaseUrl + "/series/" + slug + "/chapter/" + NatToString(chapterNum)
  }

  /** The directory a chapter is saved in; it is numbered from 1. */
  function ChapterDir(title: string, chapterNum: nat): string {
    "downloads/" + title + "/chapter_" + NatToString(chapterNum + 1)
  }

  /** Different chapters of a series are saved in different directories, the first
      one in "chapter_1". */
  lemma ChapterDirsDistinct(title: string, n: nat, m: nat)
    ensures ChapterDir(title, n) == ChapterDir(title, m) ==> n == m
    ensures ChapterDir(title, 0) == "downloads/" + title + "/chapter_1"
  {
    var p := "downloads/" + title + "/chapter_";
    if ChapterDir(title, n) == ChapterDir(title, m) {
      assert NatToString(n + 1) == ChapterDir(title, n)[|p|..];
      assert NatToString(m + 1) == ChapterDir(title, m)[|p|..];
      NatToStringInjective(n + 1, m + 1);
    }
  }

  /** downloadChapter. `ensureDir(d)` is the outcome of creating directory `d`;
      `imageFailed(i)` says whether the download of the i-th URL fails (the images are
      fetched concurrently; only the number of successes matters). */
  function DownloadChapter(series: AsuraSeries, chapterNum: nat, page: ChapterPage,
                           ensureDir: string -> Option<string>, imageFailed: nat -> bool): (err: Option<string>)
    ensures page.Unreachable? ==> err == Some(page.message)
    ensures page.NotFound? ==> err == Some("404 for chapter " + NatToString(chapterNum))
    ensures page.Unreadable? ==> err == Some(page.message)
    ensures page.Page? && |ExtractImageURLs(page.pages, page.direct)| == 0 ==>
      err == Some("no images found for chapter " + NatToString(chapterNum))
    ensures (page.Page? && |ExtractImageURLs(page.pages, page.direct)| > 0 &&
             ensureDir(ChapterDir(series.title, chapterNum)).Some?)
      ==> err == ensureDir(ChapterDir(series.title, chapterNum))
    // success exactly when the page lists images, its directory is made and one image arrives
    ensures err.None? <==>
      && page.Page?
      && |ExtractImageURLs(page.pages, page.direct)| > 0
      && ensureDir(ChapterDir(series.title, chapterNum)).None?
      && exists i :: 0 <= i < |ExtractImageURLs(page.pages, page.direct)| && !imageFailed(i)
    // a chapter whose every image fails reports that nothing was downloaded
    ensures (page.Page? && |ExtractImageURLs(page.pages, page.direct)| > 0 &&
             ensureDir(ChapterDir(series.title, chapterNum)).None? &&
             forall i :: 0 <= i < |ExtractImageURLs(page.pages, page.direct)| ==> imageFailed(i))
      ==> err == Some("no images downloaded")
  {
    match page
    case Unreachable(m) => Some(m)
    case NotFound => Some("404 for chapter " + NatToString(chapterNum))
    case Unreadable(m) => Some(m)
    case Page(pages, direct) =>
      var urls := ExtractImageURLs(pages, direct);
      if |urls| == 0 then Some("no images found for chapter " + NatToString(chapterNum))
      else
        var dirErr := ensureDir(ChapterDir(series.title, chapterNum));
        if dirErr.Some? then dirErr
        else
          NoSuccessMeansAllFailed(imageFailed, |urls|);
          if Successes(imageFailed, |urls|) == 0 then
          Some("no images downloaded")
        else
          None
  }

  // ---------------------------------------------------------------------------
  // downloadChapters
  // ---------------------------------------------------------------------------

  /** The text test downloadChapters applies to an error. */
  predicate Is404(message: string) {
    Contains(message, "404")
  }

  /** A missing chapter page counts toward the 404 limit; a chapter whose images all
      fail does not. */
  lemma Is404Messages(chapterNum: nat)
    ensures Is404("404 for chapter " + NatToString(chapterNum))
    ensures !Is404("no images downloaded")
  {
    assert OccursAt("404 for chapter " + NatToString(chapterNum), "404", 0);
    FirstCharAbsent("no images downloaded", "404");
  }

  /** consecutive404s after chapters 0 .. k-1 with errors `errs`: an error mentioning
      "404" adds one, a success resets it, any other error leaves it alone. */
  function NotFoundRun(errs: nat -> Option<string>, k: nat): (r: nat)
    ensures r <= k
  {
    if k == 0 then 0
    else
      var c := NotFoundRun(errs, k - 1);
      match errs(k - 1)
      case None => 0
      case Some(e) => if Is404(e) then c + 1 else c
  }

  /** The last chapter the loop downloads is 500. */
  const ChapterCap: nat := 500

  /** The loop stops after chapter k when the 404 counter has reached the limit. */
  function NotFoundStop(errs: nat -> Option<string>): nat -> bool {
    (k: nat) => NotFoundRun(errs, k + 1) >= FailureLimit
  }

  /** Which chapters fail. */
  function ChapterFailed(errs: nat -> Option<string>): nat -> bool {
    (k: nat) => errs(k).Some?
  }

  /** The number of chapters downloadChapters tries. */
  function ChaptersTried(errs: nat -> Option<string>): (n: nat)
    ensures n <= ChapterCap + 1
  {
    Probes(NotFoundStop(errs), ChapterCap + 1)
  }

  /** How far the loop may go before the 404 counter stops it. */
  function ChaptersReach(errs: nat -> Option<string>): (k: nat)
    ensures k <= ChapterCap + 1
  {
    FirstStop(NotFoundStop(errs), ChapterCap + 1)
  }

  /** What chapter k does to the 404 counter and to the success count. */
  lemma ChapterCounted(errs: nat -> Option<string>, k: nat)
    ensures NotFoundRun(errs, k + 1) ==
      if errs(k).None? then 0 else if Is404(errs(k).value) then NotFoundRun(errs, k) + 1 else NotFoundRun(errs, k)
    ensures Successes(ChapterFailed(errs), k + 1) ==
      Successes(ChapterFailed(errs), k) + (if errs(k).None? then 1 else 0)
  {
  }

  /** The loop stops after chapter k exactly when the counter has reached the limit. */
  lemma ChapterProbed(errs: nat -> Option<string>, k: nat)
    requires k <= ChapterCap && k <= ChaptersReach(errs)
    ensures NotFoundRun(errs, k + 1) >= FailureLimit ==> ChaptersTried(errs) == k + 1
    ensures NotFoundRun(errs, k + 1) < FailureLimit ==> k + 1 <= ChaptersReach(errs)
  {
    var stop := NotFoundStop(errs);
    assert stop(k) <==> NotFoundRun(errs, k + 1) >= FailureLimit;
    if stop(k) {
      ProbesEndHere(stop, ChapterCap + 1, k);
    } else {
      ProbesGoOn(stop, ChapterCap + 1, k);
    }
  }

  /** A loop that gets past chapter 500 has tried 501 chapters. */
  lemma ChaptersRunOut(errs: nat -> Option<string>)
    requires ChapterCap + 1 <= ChaptersReach(errs)
    ensures ChaptersTried(errs) == ChapterCap + 1
  {
    ProbesRunOut(NotFoundStop(errs), ChapterCap + 1);
  }

  /** The chapter page URLs 0 .. n-1. */
  function ChapterUrls(slug: string, n: nat): (r: seq<string>)
    ensures |r| == n
  {
    if n == 0 then [] else ChapterUrls(slug, n - 1) + [ChapterUrl(slug, n - 1)]
  }

  /** The list of URLs grows by the URL of the next chapter. */
  lemma ChapterUrlsStep(slug: string, n: nat)
    ensures ChapterUrls(slug, n + 1) == ChapterUrls(slug, n) + [ChapterUrl(slug, n)]
  {
  }

  /** Entry k of the list is the URL of chapter k. */
  lemma {:induction false} ChapterUrlsAt(slug: string, n: nat, k: nat)
    requires k < n
    ensures ChapterUrls(slug, n)[k] == ChapterUrl(slug, k)
  {
    if k < n - 1 {
      ChapterUrlsAt(slug, n - 1, k);
    }
  }

  /** downloadChapters: chapters 0, 1, 2, ... until three 404s in a row or chapter 500.
      `errs(k)` is the error downloadChapter returns for chapter k. */
  method DownloadChapters(series: AsuraSeries, errs: nat -> Option<string>)
    returns (err: Option<string>, requested: seq<string>, completed: nat)
    ensures requested == ChapterUrls(series.slug, ChaptersTried(errs))
    ensures completed == Successes(ChapterFailed(errs), ChaptersTried(errs))
    ensures err == None
  {
    var consecutive404s: nat := 0;
    var chapterNum: nat := 0;
    completed := 0;
    requested := [];
    while true
      invariant chapterNum <= ChapterCap
      invariant consecutive404s == NotFoundRun(errs, chapterNum)
      invariant consecutive404s < FailureLimit ==> chapterNum <= ChaptersReach(errs)
      invariant consecutive404s >= FailureLimit ==> ChaptersTried(errs) == chapterNum
      invariant completed == Successes(ChapterFailed(errs), chapterNum)
      invariant requested == ChapterUrls(series.slug, chapterNum)
      decreases ChapterCap + 1 - chapterNum, FailureLimit - consecutive404s
    {
      if consecutive404s >= FailureLimit {
        break;
      }
      ChapterUrlsStep(series.slug, chapterNum);
      requested := requested + [ChapterUrl(series.slug, chapterNum)];
      var e := errs(chapterNum);
      ChapterCounted(errs, chapterNum);
      ChapterProbed(errs, chapterNum);
      if e.Some? {
        if Is404(e.value) {
          consecutive404s := consecutive404s + 1;
        }
      } else {
        consecutive404s := 0;
        completed := completed + 1;
      }
      chapterNum := chapterNum + 1;
      if chapterNum > ChapterCap {
        if consecutive404s < FailureLimit {
          ChaptersRunOut(errs);
        }
        break;
      }
    }
    err := None;
  }

  /** Errors that do not mention 404 neither count nor reset: a 404, another error and
      two more 404s end the loop after four chapters. */
  lemma OtherErrorsDoNotReset(errs: nat -> Option<string>)
    requires errs(0).Some? && Is404(errs(0).value)
    requires errs(1).Some? && !Is404(errs(1).value)
    requires errs(2).Some? && Is404(errs(2).value)
    requires errs(3).Some? && Is404(errs(3).value)
    ensures ChaptersTried(errs) == 4
  {
    ChapterCounted(errs, 0);
    ChapterCounted(errs, 1);
    ChapterCounted(errs, 2);
    ChapterCounted(errs, 3);
    ChapterProbed(errs, 0);
    ChapterProbed(errs, 1);
    ChapterProbed(errs, 2);
    ChapterProbed(errs, 3);
  }

  /** A transport error text without a '4' never counts as a 404. */
  lemma TransportErrorDoesNotCount()
    ensures !Is404("connection refused")
  {
    FirstCharAbsent("connection refused", "404");
  }

  /** A 404 of the chapter page always counts towards the stop. */
  lemma NotFoundPageCounts(series: AsuraSeries, chapterNum: nat, ensureDir: string -> Option<string>,
                           imageFailed: nat -> bool)
    ensures Is404(DownloadChapter(series, chapterNum, NotFound, ensureDir, imageFailed).value)
  {
    OccurrenceContains("404 for chapter " + NatToString(chapterNum), "404", 0);
  }

  /** Chapter 404 without images also counts as a 404, because the substring test sees
      the chapter number in "no images found for chapter 404". */
  lemma ChapterNumber404Counts(series: AsuraSeries, ensureDir: string -> Option<string>,
                               imageFailed: nat -> bool)
    ensures Is404(DownloadChapter(series, 404, Page(None, []), ensureDir, imageFailed).value)
  {
    assert NatToString(404) == "404" by {
      assert NatToString(4) == "4";
      assert NatToString(40) == "40";
    }
    var m := "no images found for chapter " + NatToString(404);
    assert m[28..31] == "404";
    OccurrenceContains(m, "404", 28);
  }

  // ---------------------------------------------------------------------------
  // The adapter's header sets
  // ---------------------------------------------------------------------------

  /** The Accept value of all the adapter's requests. */
  const DocumentAccept: string := "text/html,application/xhtml+xml,application/xml;q=0.9,image/avif,image/webp,image/apng,*/*;q=0.8"

  /** The role values getPageHeaders writes over the common headers. */
  function PageRole(): map<string, string> {
    map[
      "Accept" := DocumentAccept,
      "Sec-Fetch-Site" := "same-origin",
      "Sec-Fetch-Mode" := "navigate",
      "Sec-Fetch-User" := "?1",
      "Sec-Fetch-Dest" := "document",
      "Referer" := BaseUrl + "/",
      "Upgrade-Insecure-Requests" := "1"
    ]
  }

  /** The role values getImageHeaders writes over the common headers. */
  function ImageRole(): map<string, string> {
    map[
      "Accept" := DocumentAccept,
      "Sec-Fetch-Site" := "none",
      "Sec-Fetch-Mode" := "navigate",
      "Sec-Fetch-User" := "?1",
      "Sec-Fetch-Dest" := "document",
      "Upgrade-Insecure-Requests" := "1"
    ]
  }

  /** getPageHeaders: the common headers with the page values written in place. */
  method GetPageHeaders() returns (h: map<string, string>)
    ensures h == Utils.CommonHeaders() + PageRole()
  {
    h := Utils.CommonHeaders();
    h := h["Accept" := DocumentAccept];
    h := h["Sec-Fetch-Site" := "same-origin"];
    h := h["Sec-Fetch-Mode" := "navigate"];
    h := h["Sec-Fetch-User" := "?1"];
    h := h["Sec-Fetch-Dest" := "document"];
    h := h["Referer" := BaseUrl + "/"];
    h := h["Upgrade-Insecure-Requests" := "1"];
  }

  /** getImageHeaders: the common headers with the image values written in place. */
  method GetImageHeaders() returns (h: map<string, string>)
    ensures h == Utils.CommonHeaders() + ImageRole()
  {
    h := Utils.CommonHeaders();
    h := h["Accept" := DocumentAccept];
    h := h["Sec-Fetch-Site" := "none"];
    h := h["Sec-Fetch-Mode" := "navigate"];
    h := h["Sec-Fetch-User" := "?1"];
    h := h["Sec-Fetch-Dest" := "document"];
    h := h["Upgrade-Insecure-Requests" := "1"];
  }

  /** Page requests name the site as referrer; image requests carry no referrer and
      say they come from nowhere. */
  lemma ImageHeadersWithoutReferer()
    ensures "Referer" in PageRole() && PageRole()["Referer"] == "https://asuracomic.net/"
    ensures "Referer" !in ImageRole()
    ensures ImageRole()["Sec-Fetch-Site"] == "none"
  {
  }
}
