/** comick_adapter.go: the Comick site adapter. Its catalog filter, its paginated
    chapter list, the image probe loop of a chapter download, the image-hash extraction
    from a chapter page, the cover extension and its own header sets. */
module Comick {
  import opened Wrappers
  import opened Text
  import Utils
  import Headers
  import opened Enumeration

  const BaseUrl: string := "https://comick.live"
  const CdnUrl: string := "https://cdn1.comicknew.pictures"

  /** A catalog entry of the search API. */
  datatype ComickManhwa = ComickManhwa(id: int, hid: string, slug: string, title: string, thumbnail: string)

  /** An entry of a chapter-list page. */
  datatype ComickChapter = ComickChapter(id: int, hid: string, chap: string, title: string, lang: string)

  // ---------------------------------------------------------------------------
  // getAllManhwas: the per-page catalog filter
  // ---------------------------------------------------------------------------

  /** The entries getAllManhwas keeps: all of them when startID is 0, otherwise those
      whose ID is at least startID. */
  function FromId(startId: int): ComickManhwa -> bool {
    (m: ComickManhwa) => startId == 0 || m.id >= startId
  }

  /** The filter loop run on each decoded catalog page. */
  method FilterPage(data: seq<ComickManhwa>, startId: int) returns (pageResults: seq<ComickManhwa>)
    ensures pageResults == Filter(FromId(startId), data)
    ensures forall m :: m in pageResults <==> m in data && (startId == 0 || m.id >= startId)
  {
    pageResults := AppendKept([], FromId(startId), data);
  }

  // ---------------------------------------------------------------------------
  // getChapterList
  // ---------------------------------------------------------------------------

  /** The chapters the adapter downloads. */
  predicate IsEnglish(c: ComickChapter) {
    c.lang == "en"
  }

  /** getChapterList over the pages the API returns: the English chapters of every
      decoded page, in order, and the URLs it requests, page 0 first. It never fails. */
  method GetChapterList(pages: nat -> PageOutcome<ComickChapter>, slug: string)
    returns (chapters: seq<ComickChapter>, requested: seq<string>)
    ensures requested == ChapterListUrls(BaseUrl, slug, LastPage(pages) + 1)
    ensures |requested| <= PageCap + FailureLimit
    ensures chapters == Collected(pages, IsEnglish, LastPage(pages) + 1)
    ensures forall c :: c in chapters ==> c.lang == "en"
  {
    chapters, requested := ChapterWalk(pages, IsEnglish, BaseUrl, slug);
    WalkBounded(pages);
    CollectedKept(pages, IsEnglish, LastPage(pages) + 1);
  }

  // ---------------------------------------------------------------------------
  // getImageHash and extractHashFromPattern
  // ---------------------------------------------------------------------------

  /** The characters that end a hash in a CDN URL. */
  const HashEnd: string := "/\"'\\"

  /** The pattern extractHashFromPattern searches for: `pattern` when it occurs, otherwise
      its backslash-free form. */
  function ChosenPattern(content: string, pattern: string): string {
    if IndexOf(content, pattern) == -1 then RemoveChar(pattern, '\\') else pattern
  }

  /** extractHashFromPattern: the hash after the first occurrence of the chosen pattern. */
  function ExtractHashFromPattern(content: string, pattern: string): (r: string)
    ensures r == "" || (|r| == 8 && Utils.IsAlphaNumeric(r))
    ensures r != "" ==>
      var p := ChosenPattern(content, pattern);
      var i := IndexOf(content, p);
      && i >= 0
      && OccursAt(content, p + r, i)
      && i + |p| + 8 < |content| && content[i + |p| + 8] in HashEnd
  {
    HashAfter(content, ChosenPattern(content, pattern))
  }

  /** The text between the first occurrence of `p` and the next hash-ending character,
      when it is an 8-character alphanumeric hash; otherwise "". */
  function HashAfter(content: string, p: string): (r: string)
    ensures r == "" || (|r| == 8 && Utils.IsAlphaNumeric(r))
    ensures r != "" ==>
      var i := IndexOf(content, p);
      && i >= 0
      && OccursAt(content, p + r, i)
      && i + |p| + 8 < |content| && content[i + |p| + 8] in HashEnd
  {
    var start := IndexOf(content, p);
    if start == -1 then ""
    else
      var from := start + |p|;
      var end := IndexAny(content[from..], HashEnd);
      if end == -1 then ""
      else
        var hash := content[from..from + end];
        if |hash| == 8 && Utils.IsAlphaNumeric(hash) then
          PatternThenHash(content, p, start, end);
          hash
        else ""
  }

  /** The pattern at `i` followed by the `e` characters after it. */
  lemma PatternThenHash(content: string, p: string, i: nat, e: nat)
    requires OccursAt(content, p, i) && i + |p| + e <= |content|
    ensures OccursAt(content, p + content[i + |p|..i + |p| + e], i)
  {
    assert content[i..i + |p| + e] == content[i..i + |p|] + content[i + |p|..i + |p| + e];
  }

  /** A hash written right after the first occurrence of the pattern, and ended by a
      hash-ending character, is the hash extracted. */
  lemma ExtractHashRoundTrip(prefix: string, pattern: string, hash: string, t: char, suffix: string)
    requires |hash| == 8 && Utils.IsAlphaNumeric(hash) && t in HashEnd
    requires IndexOf(prefix + pattern + hash + [t] + suffix, pattern) == |prefix|
    ensures ExtractHashFromPattern(prefix + pattern + hash + [t] + suffix, pattern) == hash
  {
    var content := prefix + pattern + hash + [t] + suffix;
    assert ChosenPattern(content, pattern) == pattern;
    HashAfterRoundTrip(prefix, pattern, hash, t, suffix);
  }

  /** The same round trip for the search after a given pattern. */
  lemma HashAfterRoundTrip(prefix: string, pattern: string, hash: string, t: char, suffix: string)
    requires |hash| == 8 && Utils.IsAlphaNumeric(hash) && t in HashEnd
    requires IndexOf(prefix + pattern + hash + [t] + suffix, pattern) == |prefix|
    ensures HashAfter(prefix + pattern + hash + [t] + suffix, pattern) == hash
  {
    var head, tail := prefix + pattern, [t] + suffix;
    var content := head + (hash + tail);
    assert prefix + pattern + hash + [t] + suffix == content;
    assert hash + [t] + suffix == hash + tail;
    DropPrefix(head, hash + tail);
    TakePrefix(hash, tail);
    HashThenEnd(hash, t, suffix);
    HashAfterFound(content, pattern, |prefix|);
  }

  /** HashAfter when the pattern is first found at `i`, a hash-ending character comes
      8 characters after it, and the 8 characters between are alphanumeric. */
  lemma HashAfterFound(content: string, p: string, i: nat)
    requires IndexOf(content, p) == i && i + |p| <= |content|
    requires IndexAny(content[i + |p|..], HashEnd) == 8
    requires Utils.IsAlphaNumeric(content[i + |p|..][..8])
    ensures HashAfter(content, p) == content[i + |p|..][..8]
  {
    assert content[i + |p|..][..8] == content[i + |p|..i + |p| + 8];
  }

  /** The first hash-ending character after an alphanumeric hash is the one right after it. */
  lemma HashThenEnd(hash: string, t: char, suffix: string)
    requires |hash| == 8 && Utils.IsAlphaNumeric(hash) && t in HashEnd
    ensures IndexAny(hash + [t] + suffix, HashEnd) == 8
  {
    var s := hash + [t] + suffix;
    assert s[8] == t;
    forall j | 0 <= j < 8 ensures s[j] !in HashEnd {
      assert s[j] == hash[j] && Utils.AlnumChar(hash[j]);
    }
  }

  /** The page getImageHash reads for a chapter. */
  datatype PageFetch = FetchError(message: string) | ReadError(message: string) | Body(html: string)

  function ChapterPageUrl(slug: string, hid: string, chap: string): string {
    BaseUrl + "/comic/" + slug + "/" + hid + "-chapter-" + chap + "-en"
  }

  /** Each chapter of a comic has its own page URL. */
  lemma ChapterPageUrlsDistinct(slug: string, hid: string, c1: string, c2: string)
    ensures ChapterPageUrl(slug, hid, c1) == ChapterPageUrl(slug, hid, c2) ==> c1 == c2
  {
    var p := BaseUrl + "/comic/" + slug + "/" + hid + "-chapter-";
    if ChapterPageUrl(slug, hid, c1) == ChapterPageUrl(slug, hid, c2) {
      assert c1 == ChapterPageUrl(slug, hid, c1)[|p|..|p| + |c1|];
      assert c2 == ChapterPageUrl(slug, hid, c2)[|p|..|p| + |c2|];
    }
  }

  /** The image host that both patterns start with. */
  const Host: string := "cdn1.comicknew.pictures"

  function PlainPattern(slug: string, chap: string): string {
    Host + "/" + slug + "/0_" + chap + "/en/"
  }

  /** The same prefix as it appears inside JSON with escaped slashes. */
  function EscapedPattern(slug: string, chap: string): string {
    Host + "\\/" + slug + "\\/0_" + chap + "\\/en\\/"
  }

  /** getImageHash: fetch the chapter page and try the plain pattern, then the escaped
      one; the first hash found wins. */
  function GetImageHash(fetch: string -> PageFetch, slug: string, hid: string, chap: string): (r: Result<string, string>)
    ensures r.Ok? ==> |r.value| == 8 && Utils.IsAlphaNumeric(r.value)
    ensures var page := fetch(ChapterPageUrl(slug, hid, chap));
      && (!page.Body? ==> r == Err(page.message))
      && (page.Body? ==>
            var plain := ExtractHashFromPattern(page.html, PlainPattern(slug, chap));
            var escaped := ExtractHashFromPattern(page.html, EscapedPattern(slug, chap));
            && (plain != "" ==> r == Ok(plain))
            && (plain == "" && escaped != "" ==> r == Ok(escaped))
            && (plain == "" && escaped == "" ==> r == Err("hash not found for chapter " + chap)))
  {
    match fetch(ChapterPageUrl(slug, hid, chap))
    case FetchError(m) => Err(m)
    case ReadError(m) => Err(m)
    case Body(html) =>
      var plain := ExtractHashFromPattern(html, PlainPattern(slug, chap));
      if plain != "" then Ok(plain)
      else
        var escaped := ExtractHashFromPattern(html, EscapedPattern(slug, chap));
        if escaped != "" then Ok(escaped)
        else Err("hash not found for chapter " + chap)
  }

  /** Removing the backslashes of the escaped pattern gives the plain pattern. */
  lemma UnescapedIsPlain(slug: string, chap: string)
    requires '\\' !in slug && '\\' !in chap
    ensures RemoveChar(EscapedPattern(slug, chap), '\\') == PlainPattern(slug, chap)
  {
    HostUnescaped();
    SlashUnescaped();
    ChapterSeparatorUnescaped();
    LanguageSeparatorUnescaped();
    RemoveFromFive(Host, "\\/", slug, "\\/0_", chap, "\\/en\\/", '\\', "/", "/0_", "/en/");
  }

  /** The CDN host name has no backslash. */
  lemma HostUnescaped()
    ensures '\\' !in Host
  {
  }

  /** The escaped separators lose their backslashes: "\\/" becomes "/", ... */
  lemma SlashUnescaped()
    ensures RemoveChar("\\/", '\\') == "/"
  {
    EscapeRemoved('\\', "/");
  }

  /** ... "\\/0_" becomes "/0_" ... */
  lemma ChapterSeparatorUnescaped()
    ensures RemoveChar("\\/0_", '\\') == "/0_"
  {
    EscapeRemoved('\\', "/0_");
  }

  /** ... and "\\/en\\/" becomes "/en/". */
  lemma LanguageSeparatorUnescaped()
    ensures RemoveChar("\\/en\\/", '\\') == "/en/"
  {
    EscapeRemoved('\\', "/en");
    SlashUnescaped();
    assert "\\/en\\/" == "\\/en" + "\\/";
    RemoveCharAppend("\\/en", "\\/", '\\');
  }

  /** Removing `c` from `c` followed by text without `c` leaves that text. */
  lemma EscapeRemoved(c: char, t: string)
    requires c !in t
    ensures RemoveChar([c] + t, c) == t
  {
    assert ([c] + t)[1..] == t;
  }

  /** RemoveChar over a pattern of five pieces, three of them separators whose
      stripped forms are known. */
  lemma RemoveFromFive(a: string, s1: string, b: string, s2: string, c: string, s3: string, x: char,
                       t1: string, t2: string, t3: string)
    requires x !in a && x !in b && x !in c
    requires RemoveChar(s1, x) == t1 && RemoveChar(s2, x) == t2 && RemoveChar(s3, x) == t3
    ensures RemoveChar(a + s1 + b + s2 + c + s3, x) == a + t1 + b + t2 + c + t3
  {
    RemoveCharAppend(a + s1 + b + s2 + c, s3, x);
    RemoveCharAppend(a + s1 + b + s2, c, x);
    RemoveCharAppend(a + s1 + b, s2, x);
    RemoveCharAppend(a + s1, b, x);
    RemoveCharAppend(a, s1, x);
  }

  /** When `pattern` does not occur, extractHashFromPattern gives what it gives for the
      backslash-free pattern. */
  lemma FallbackIsUnescaped(content: string, pattern: string)
    requires IndexOf(content, pattern) == -1
    ensures ExtractHashFromPattern(content, pattern) == ExtractHashFromPattern(content, RemoveChar(pattern, '\\'))
  {
    var plain := RemoveChar(pattern, '\\');
    assert ChosenPattern(content, pattern) == plain;
    assert ChosenPattern(content, plain) == plain;
  }

  /** So the second strategy of getImageHash finds a hash only where the page has the
      escaped form: its backslash-free fallback repeats the first strategy. */
  lemma EscapedRetryNeedsEscapes(html: string, slug: string, chap: string)
    requires '\\' !in slug && '\\' !in chap
    requires ExtractHashFromPattern(html, PlainPattern(slug, chap)) == ""
    requires ExtractHashFromPattern(html, EscapedPattern(slug, chap)) != ""
    ensures Contains(html, EscapedPattern(slug, chap))
  {
    if IndexOf(html, EscapedPattern(slug, chap)) == -1 {
      UnescapedIsPlain(slug, chap);
      FallbackIsUnescaped(html, EscapedPattern(slug, chap));
    }
  }

  // ---------------------------------------------------------------------------
  // downloadChapter: the image probe loop
  // ---------------------------------------------------------------------------

  /** The loop tries image indices below this. */
  const MaxImages: nat := 200

  function ImageUrl(slug: string, chap: string, hash: string, i: nat): string {
    CdnUrl + "/" + slug + "/0_" + chap + "/en/" + hash + "/" + NatToString(i) + ".webp"
  }

  /** The image URLs 0 .. n-1 in download order. */
  function ImageUrls(slug: string, chap: string, hash: string, n: nat): (r: seq<string>)
    ensures |r| == n
  {
    if n == 0 then [] else ImageUrls(slug, chap, hash, n - 1) + [ImageUrl(slug, chap, hash, n - 1)]
  }

  /** Entry i of the list is the URL of image i. */
  lemma {:induction false} ImageUrlsAt(slug: string, chap: string, hash: string, n: nat, i: nat)
    requires i < n
    ensures ImageUrls(slug, chap, hash, n)[i] == ImageUrl(slug, chap, hash, i)
  {
    if i < n - 1 {
      ImageUrlsAt(slug, chap, hash, n - 1, i);
    }
  }

  /** The number of images the loop tries. */
  function ImagesTried(images: nat -> nat -> Utils.Attempt, maxRetries: int): (n: nat)
    ensures n <= MaxImages
  {
    Tried(Utils.DownloadFailures(images, maxRetries), MaxImages)
  }

  /** How far the image loop may go before three failures in a row stop it. */
  function ImagesReach(images: nat -> nat -> Utils.Attempt, maxRetries: int): (k: nat)
    ensures k <= MaxImages
  {
    Reach(Utils.DownloadFailures(images, maxRetries), MaxImages)
  }

  /** Image i adds one to the failure counter or resets it; the loop stops after it
      exactly when the counter reaches the limit. */
  lemma ImageProbed(images: nat -> nat -> Utils.Attempt, maxRetries: int, i: nat)
    requires i < MaxImages && i <= ImagesReach(images, maxRetries)
    ensures var failed := Utils.DownloadFailures(images, maxRetries);
      Streak(failed, i + 1) == if failed(i) then Streak(failed, i) + 1 else 0
    ensures var failed := Utils.DownloadFailures(images, maxRetries);
      Streak(failed, i + 1) >= FailureLimit ==> ImagesTried(images, maxRetries) == i + 1
    ensures var failed := Utils.DownloadFailures(images, maxRetries);
      Streak(failed, i + 1) < FailureLimit ==> i + 1 <= ImagesReach(images, maxRetries)
  {
    var failed := Utils.DownloadFailures(images, maxRetries);
    if failed(i) {
      ProbeFailed(failed, MaxImages, i);
    } else {
      ProbeSucceeded(failed, MaxImages, i);
    }
  }

  /** A loop that gets past image 199 has tried all 200. */
  lemma ImagesRunOut(images: nat -> nat -> Utils.Attempt, maxRetries: int)
    requires MaxImages <= ImagesReach(images, maxRetries)
    ensures ImagesTried(images, maxRetries) == MaxImages
  {
    ProbesExhausted(Utils.DownloadFailures(images, maxRetries), MaxImages);
  }

  /** The list of URLs grows by the URL of the next image. */
  lemma ImageUrlsStep(slug: string, chap: string, hash: string, i: nat)
    ensures ImageUrls(slug, chap, hash, i + 1) == ImageUrls(slug, chap, hash, i) + [ImageUrl(slug, chap, hash, i)]
  {
  }

  /** The image loop of downloadChapter: download images 0, 1, 2, ... until three in a
      row fail or 200 were tried; a success resets the count. `images(i)` is what the
      retrying downloader meets for image i; `requested` lists the URLs downloaded. */
  method DownloadImages(slug: string, chap: string, hash: string, images: nat -> nat -> Utils.Attempt,
                        maxRetries: int, retryDelay: int)
    returns (requested: seq<string>)
    ensures requested == ImageUrls(slug, chap, hash, ImagesTried(images, maxRetries))
  {
    requested := [];
    ghost var failed := Utils.DownloadFailures(images, maxRetries);
    var consecutive404s: nat := 0;
    var i: nat := 0;
    while i < MaxImages
      invariant i <= MaxImages
      invariant consecutive404s == Streak(failed, i) && consecutive404s < FailureLimit
      invariant i <= ImagesReach(images, maxRetries)
      invariant requested == ImageUrls(slug, chap, hash, i)
    {
      ImageUrlsStep(slug, chap, hash, i);
      requested := requested + [ImageUrl(slug, chap, hash, i)];
      var imageFailed := Utils.DownloadEach(images, maxRetries, retryDelay, i);
      ImageProbed(images, maxRetries, i);
      if imageFailed {
        consecutive404s := consecutive404s + 1;
        if consecutive404s >= FailureLimit {
          break;
        }
      } else {
        consecutive404s := 0;
      }
      i := i + 1;
    }
    if consecutive404s < FailureLimit {
      ImagesRunOut(images, maxRetries);
    }
  }

  /** downloadChapter: find the hash, create the directory, then run the image loop.
      Failing images never make the chapter fail. */
  method DownloadChapter(fetch: string -> PageFetch, slug: string, chapter: ComickChapter,
                         dirError: Option<string>, images: nat -> nat -> Utils.Attempt,
                         maxRetries: int, retryDelay: int)
    returns (err: Option<string>, requested: seq<string>)
    ensures var h := GetImageHash(fetch, slug, chapter.hid, chapter.chap);
      h.Err? ==> err == Some(h.error) && requested == []
    ensures var h := GetImageHash(fetch, slug, chapter.hid, chapter.chap);
      h.Ok? && dirError.Some? ==> err == dirError && requested == []
    ensures var h := GetImageHash(fetch, slug, chapter.hid, chapter.chap);
      h.Ok? && dirError.None? ==>
        err == None && requested == ImageUrls(slug, chapter.chap, h.value, ImagesTried(images, maxRetries))
  {
    var hashResult := GetImageHash(fetch, slug, chapter.hid, chapter.chap);
    if hashResult.Err? {
      return Some(hashResult.error), [];
    }
    if dirError.Some? {
      return dirError, [];
    }
    requested := DownloadImages(slug, chapter.chap, hashResult.value, images, maxRetries, retryDelay);
    err := None;
  }

  // ---------------------------------------------------------------------------
  // downloadCover: the extension choice
  // ---------------------------------------------------------------------------

  /** The cover file extension: ".jpg" when the URL mentions it, else ".png" when the URL
      mentions that, else ".webp". */
  function CoverExtension(coverUrl: string): (ext: string)
    ensures ext == ".jpg" <==> Contains(coverUrl, ".jpg")
    ensures ext == ".png" <==> !Contains(coverUrl, ".jpg") && Contains(coverUrl, ".png")
    ensures ext == ".webp" <==> !Contains(coverUrl, ".jpg") && !Contains(coverUrl, ".png")
  {
    if Contains(coverUrl, ".jpg") then ".jpg"
    else if Contains(coverUrl, ".png") then ".png"
    else ".webp"
  }

  // ---------------------------------------------------------------------------
  // The adapter's own header sets
  // ---------------------------------------------------------------------------

  /** The Accept value of the adapter's page requests. */
  const PageAccept: string := "text/html,application/xhtml+xml,application/xml;q=0.9,*/*;q=0.8"

  /** The role values getPageHeaders writes over the common headers. */
  function PageRole(): Headers.Headers {
    map[
      "Accept" := PageAccept,
      "Sec-Fetch-Site" := "same-origin",
      "Sec-Fetch-Mode" := "navigate",
      "Sec-Fetch-Dest" := "document"
    ]
  }

  /** The role values getImageHeaders writes over the common headers. */
  function ImageRole(): Headers.Headers {
    map[
      "Accept" := Headers.ImageAccept,
      "Sec-Fetch-Site" := "cross-site",
      "Sec-Fetch-Mode" := "no-cors",
      "Sec-Fetch-Dest" := "image",
      "Referer" := "https://comick.live/"
    ]
  }

  /** getAPIHeaders: the common headers with the API values written in place. The result
      is the HeaderManager's API profile. */
  method GetAPIHeaders() returns (h: Headers.Headers)
    ensures h == Headers.ApiProfile()
  {
    h := Utils.CommonHeaders();
    h := h["Accept" := "*/*"];
    h := h["Sec-Fetch-Site" := "same-origin"];
    h := h["Sec-Fetch-Mode" := "cors"];
    h := h["Sec-Fetch-Dest" := "empty"];
  }

  /** getPageHeaders: the common headers with the page values written in place. */
  method GetPageHeaders() returns (h: Headers.Headers)
    ensures h == Utils.CommonHeaders() + PageRole()
  {
    h := Utils.CommonHeaders();
    h := h["Accept" := PageAccept];
    h := h["Sec-Fetch-Site" := "same-origin"];
    h := h["Sec-Fetch-Mode" := "navigate"];
    h := h["Sec-Fetch-Dest" := "document"];
  }

  /** getImageHeaders: the common headers with the image values written in place. */
  method GetImageHeaders() returns (h: Headers.Headers)
    ensures h == Utils.CommonHeaders() + ImageRole()
  {
    h := Utils.CommonHeaders();
    h := h["Accept" := Headers.ImageAccept];
    h := h["Sec-Fetch-Site" := "cross-site"];
    h := h["Sec-Fetch-Mode" := "no-cors"];
    h := h["Sec-Fetch-Dest" := "image"];
    h := h["Referer" := "https://comick.live/"];
  }

  /** The names of the adapter's page role set. */
  lemma PageRoleNames()
    ensures PageRole().Keys == {"Accept", "Sec-Fetch-Site", "Sec-Fetch-Mode", "Sec-Fetch-Dest"}
  {
  }

  /** The adapter's page headers are not the HeaderManager's page profile: the Accept
      value is shorter ... */
  lemma PageAcceptDiffers()
    ensures "Accept" in Utils.CommonHeaders() + PageRole() && "Accept" in Headers.PageProfile()
    ensures (Utils.CommonHeaders() + PageRole())["Accept"] != Headers.PageProfile()["Accept"]
  {
    assert (Utils.CommonHeaders() + PageRole())["Accept"] == PageAccept;
    assert Headers.PageProfile()["Accept"] == Headers.PageAccept;
    assert |PageAccept| < |Headers.PageAccept|;
  }

  /** ... and Upgrade-Insecure-Requests is missing. */
  lemma PageHeadersLackUpgrade()
    ensures "Upgrade-Insecure-Requests" !in Utils.CommonHeaders() + PageRole()
    ensures "Upgrade-Insecure-Requests" in Headers.PageProfile()
  {
    Headers.CommonNames();
    PageRoleNames();
    assert (Utils.CommonHeaders() + PageRole()).Keys == Utils.CommonHeaders().Keys + PageRole().Keys;
  }

  /** The adapter's image headers are part of the HeaderManager's image profile, which
      adds Sec-Fetch-Storage-Access, Accept-Encoding and Priority. */
  lemma ImageHeadersWithinProfile()
    ensures forall k :: k in ImageRole() ==> k in Headers.ImageRole() && ImageRole()[k] == Headers.ImageRole()[k]
    ensures Headers.ImageRole().Keys - ImageRole().Keys == {"Sec-Fetch-Storage-Access", "Accept-Encoding", "Priority"}
  {
  }
}
