/** scraper.go: the older single-site scraper for Comick. Its catalog filter, its
    paginated chapter list, the sequential image loop that counts downloads, the
    strategies that find a chapter's image hash and the cover extension. Its image
    download with retries is the same policy as Utils.DownloadFile, which models it. */
module Scraper {
  import opened Wrappers
  import opened Text
  import Utils
  import Comick
  import opened Enumeration

  /** The site the scraper reads chapter lists and chapter pages from. */
  const BaseUrl: string := "https://comick.live"

  /** A catalog entry, as the scraper reads it. */
  datatype ManhwaBrief = ManhwaBrief(id: int, slug: string, title: string, defaultThumbnail: string)

  /** A chapter-list entry, as the scraper reads it. */
  datatype ChapterBrief = ChapterBrief(hid: string, chap: string, lang: string)

  // ---------------------------------------------------------------------------
  // getAllManhwasParallel: the per-page catalog filter
  // ---------------------------------------------------------------------------

  /** The entries kept from each catalog page: all of them when startID is 0,
      otherwise those whose ID is at least startID. */
  function FromId(startId: int): ManhwaBrief -> bool {
    (m: ManhwaBrief) => startId == 0 || m.id >= startId
  }

  /** The filter loop run on each decoded catalog page. */
  method FilterPage(data: seq<ManhwaBrief>, startId: int) returns (pageResults: seq<ManhwaBrief>)
    ensures pageResults == Filter(FromId(startId), data)
    ensures forall m :: m in pageResults <==> m in data && (startId == 0 || m.id >= startId)
  {
    pageResults := AppendKept([], FromId(startId), data);
  }

  // ---------------------------------------------------------------------------
  // getChapterListPaginated
  // ---------------------------------------------------------------------------

  predicate IsEnglish(c: ChapterBrief) {
    c.lang == "en"
  }

  /** getChapterListPaginated over the pages the API returns: the English chapters of
      every decoded page, in order, and the URLs it requests, page 0 first. It never
      fails. */
  method GetChapterListPaginated(pages: nat -> PageOutcome<ChapterBrief>, slug: string)
    returns (chapters: seq<ChapterBrief>, requested: seq<string>)
    ensures requested == ChapterListUrls(BaseUrl, slug, LastPage(pages) + 1)
    ensures |requested| <= PageCap + FailureLimit
    ensures chapters == Collected(pages, IsEnglish, LastPage(pages) + 1)
    ensures forall c :: c in chapters ==> c.lang == "en"
  {
    chapters, requested := ChapterWalk(pages, IsEnglish, BaseUrl, slug);
    WalkBounded(pages);
    CollectedKept(pages, IsEnglish, LastPage(pages) + 1);
  }

  // ---------------------------------------------------------------------------
  // downloadChapterImagesSequential
  // ---------------------------------------------------------------------------

  /** downloadChapterImagesSequential: run the image loop, then report a chapter
      without any downloaded image as an error. */
  method DownloadChapterImagesSequential(slug: string, chapter: string, hash: string,
                                         images: nat -> nat -> Utils.Attempt, maxRetries: int, retryDelay: int)
    returns (err: Option<string>, downloadedCount: nat, requested: seq<string>)
    ensures requested == Comick.ImageUrls(slug, chapter, hash, Comick.ImagesTried(images, maxRetries))
    ensures downloadedCount == ImagesDownloaded(images, maxRetries, Comick.ImagesTried(images, maxRetries))
    ensures err == None <==> downloadedCount > 0
    ensures err.Some? ==> err.value == "no images downloaded for chapter " + chapter
  {
    downloadedCount, requested := CountingImageLoop(slug, chapter, hash, images, maxRetries, retryDelay);
    if downloadedCount == 0 {
      err := Some("no images downloaded for chapter " + chapter);
    } else {
      err := None;
    }
  }

  /** The loop of downloadChapterImagesSequential: download images 0, 1, 2, ... until
      three in a row fail or 200 were tried, counting the downloads. `images(i)` is what
      the retrying downloader meets for image i. */
  method CountingImageLoop(slug: string, chapter: string, hash: string,
                           images: nat -> nat -> Utils.Attempt, maxRetries: int, retryDelay: int)
    returns (downloadedCount: nat, requested: seq<string>)
    ensures requested == Comick.ImageUrls(slug, chapter, hash, Comick.ImagesTried(images, maxRetries))
    ensures downloadedCount == ImagesDownloaded(images, maxRetries, Comick.ImagesTried(images, maxRetries))
  {
    requested := [];
    ghost var failed := Utils.DownloadFailures(images, maxRetries);
    var consecutive404s: nat := 0;
    downloadedCount := 0;
    var i: nat := 0;
    while i < Comick.MaxImages
      invariant i <= Comick.MaxImages
      invariant consecutive404s == Streak(failed, i) && consecutive404s < FailureLimit
      invariant i <= Comick.ImagesReach(images, maxRetries)
      invariant downloadedCount == ImagesDownloaded(images, maxRetries, i)
      invariant requested == Comick.ImageUrls(slug, chapter, hash, i)
    {
      Comick.ImageUrlsStep(slug, chapter, hash, i);
      requested := requested + [Comick.ImageUrl(slug, chapter, hash, i)];
      var imageFailed := Utils.DownloadEach(images, maxRetries, retryDelay, i);
      Comick.ImageProbed(images, maxRetries, i);
      ImagesDownloadedStep(images, maxRetries, i, imageFailed);
      if imageFailed {
        consecutive404s := consecutive404s + 1;
        if consecutive404s >= FailureLimit {
          break;
        }
      } else {
        consecutive404s := 0;
        downloadedCount := downloadedCount + 1;
      }
      i := i + 1;
    }
    if consecutive404s < FailureLimit {
      Comick.ImagesRunOut(images, maxRetries);
    }
  }

  /** The number of images among 0 .. n-1 that download. */
  function ImagesDownloaded(images: nat -> nat -> Utils.Attempt, maxRetries: int, n: nat): (k: nat)
    ensures k <= n
  {
    Successes(Utils.DownloadFailures(images, maxRetries), n)
  }

  /** Image i adds one to the count when it downloads. */
  lemma ImagesDownloadedStep(images: nat -> nat -> Utils.Attempt, maxRetries: int, i: nat, failed: bool)
    requires failed == Utils.DownloadFailures(images, maxRetries)(i)
    ensures ImagesDownloaded(images, maxRetries, i + 1) == ImagesDownloaded(images, maxRetries, i) + if failed then 0 else 1
  {
  }

  /** No image is counted exactly when every image tried failed. */
  lemma NothingDownloadedMeansAllFailed(images: nat -> nat -> Utils.Attempt, maxRetries: int)
    ensures ImagesDownloaded(images, maxRetries, Comick.ImagesTried(images, maxRetries)) == 0 <==>
              forall j :: 0 <= j < Comick.ImagesTried(images, maxRetries) ==> !Utils.Downloads(images(j), maxRetries)
  {
    var failed := Utils.DownloadFailures(images, maxRetries);
    var n := Comick.ImagesTried(images, maxRetries);
    NoSuccessMeansAllFailed(failed, n);
    forall j | 0 <= j < n ensures failed(j) <==> !Utils.Downloads(images(j), maxRetries) {
    }
  }

  /** Images 0-4 downloaded and 5, 6, 7 failing: the loop stops after image 7 with five
      downloads. */
  lemma FiveDownloadsThenThreeFailures(images: nat -> nat -> Utils.Attempt, maxRetries: int)
    requires forall j :: 0 <= j < 5 ==> Utils.Downloads(images(j), maxRetries)
    requires forall j :: 5 <= j < 8 ==> !Utils.Downloads(images(j), maxRetries)
    ensures Comick.ImagesTried(images, maxRetries) == 8
    ensures ImagesDownloaded(images, maxRetries, 8) == 5
  {
    var failed := Utils.DownloadFailures(images, maxRetries);
    var cap := Comick.MaxImages;
    assert !failed(0) && !failed(1) && !failed(2) && !failed(3) && !failed(4);
    assert failed(5) && failed(6) && failed(7);
    ProbeSucceeded(failed, cap, 0);
    ProbeSucceeded(failed, cap, 1);
    ProbeSucceeded(failed, cap, 2);
    ProbeSucceeded(failed, cap, 3);
    ProbeSucceeded(failed, cap, 4);
    ProbeFailed(failed, cap, 5);
    ProbeFailed(failed, cap, 6);
    ProbeFailed(failed, cap, 7);
  }

  // ---------------------------------------------------------------------------
  // validateHash, findHashInContent and guessHashFromHID
  // ---------------------------------------------------------------------------

  /** The URL validateHash requests: image 0 of the chapter under that hash. */
  function TestUrl(slug: string, chapter: string, hash: string): string {
    Comick.CdnUrl + "/" + slug + "/0_" + chapter + "/en/" + hash + "/0.webp"
  }

  /** It is the first URL the image loop downloads. */
  lemma TestUrlIsFirstImage(slug: string, chapter: string, hash: string)
    ensures TestUrl(slug, chapter, hash) == Comick.ImageUrls(slug, chapter, hash, 1)[0]
  {
    Comick.ImageUrlsAt(slug, chapter, hash, 1, 0);
    assert NatToString(0) == "0";
  }

  /** validateHash: the hash is good when the test URL answers 200. `probe(url)` is
      what a GET of `url` meets. */
  function ValidateHash(probe: string -> Utils.Fetch, slug: string, chapter: string, hash: string): (ok: bool)
    ensures ok <==> probe(Comick.ImageUrl(slug, chapter, hash, 0)) == Utils.Response(200)
  {
    TestUrlIsFirstImage(slug, chapter, hash);
    Comick.ImageUrlsAt(slug, chapter, hash, 1, 0);
    probe(TestUrl(slug, chapter, hash)) == Utils.Response(200)
  }

  function Validator(probe: string -> Utils.Fetch, slug: string, chapter: string): string -> bool {
    (hash: string) => ValidateHash(probe, slug, chapter, hash)
  }

  /** A word worth validating: 8 characters, all ASCII letters or digits. */
  predicate HashShaped(w: string) {
    |w| == 8 && Utils.IsAlphaNumeric(w)
  }

  predicate Accepted(w: string, valid: string -> bool) {
    HashShaped(w) && valid(w)
  }

  /** The first candidate that is hash-shaped and validates, or "" when none does. */
  function FirstValid(cands: seq<string>, valid: string -> bool): (r: string)
    ensures r == "" || (r in cands && Accepted(r, valid))
    ensures r == "" <==> forall i :: 0 <= i < |cands| ==> !Accepted(cands[i], valid)
  {
    if |cands| == 0 then ""
    else if Accepted(cands[0], valid) then cands[0]
    else FirstValid(cands[1..], valid)
  }

  /** The candidate FirstValid returns is the first accepted one. */
  lemma {:induction false} FirstValidIsFirst(cands: seq<string>, valid: string -> bool, i: nat)
    requires i < |cands| && Accepted(cands[i], valid)
    requires forall j :: 0 <= j < i ==> !Accepted(cands[j], valid)
    ensures FirstValid(cands, valid) == cands[i]
  {
    if i > 0 {
      assert !Accepted(cands[0], valid);
      assert cands[1..][i - 1] == cands[i];
      FirstValidIsFirst(cands[1..], valid, i - 1);
    }
  }

  /** The characters findHashInContent splits a script at. */
  predicate WordSeparator(c: char) {
    c == '"' || c == '\'' || c == ',' || c == ':' || c == '{' || c == '}' ||
    c == '[' || c == ']' || c == ' ' || c == '\n' || c == '\t' || c == '/' || c == '\\'
  }

  /** The quotes trimmed from each word. */
  const Quotes: string := "\"'"

  /** Each word trimmed of surrounding quotes. */
  function TrimEach(words: seq<string>, cut: string): (r: seq<string>)
    ensures |r| == |words|
  {
    if |words| == 0 then [] else [Trim(words[0], cut)] + TrimEach(words[1..], cut)
  }

  /** The words findHashInContent examines, in order. */
  function ContentWords(content: string): seq<string> {
    TrimEach(FieldsFunc(content, WordSeparator), Quotes)
  }

  /** findHashInContent: the first word of `content` that is hash-shaped and validates. */
  function FindHashInContent(probe: string -> Utils.Fetch, content: string, slug: string, chapter: string): (r: string)
    ensures r == "" || (HashShaped(r) && ValidateHash(probe, slug, chapter, r))
  {
    FirstValid(ContentWords(content), Validator(probe, slug, chapter))
  }

  /** A word without separators has no quote to trim. */
  lemma TrimWordClean(w: string)
    requires NoSep(w, WordSeparator)
    ensures Trim(w, Quotes) == w
  {
    forall j | 0 <= j < |w| ensures w[j] !in Quotes {
      assert !WordSeparator(w[j]);
    }
    TrimClean(w, Quotes);
  }

  /** The quote trimming never changes a word: quotes already separate words. */
  lemma {:induction false} TrimEachClean(words: seq<string>)
    requires forall k :: 0 <= k < |words| ==> NoSep(words[k], WordSeparator)
    ensures TrimEach(words, Quotes) == words
  {
    if |words| > 0 {
      var rest := words[1..];
      TrimWordClean(words[0]);
      assert forall k :: 0 <= k < |rest| ==> NoSep(rest[k], WordSeparator) by {
        forall k | 0 <= k < |rest| ensures NoSep(rest[k], WordSeparator) {
          assert rest[k] == words[k + 1];
        }
      }
      TrimEachClean(rest);
      HeadTail(words);
    }
  }

  /** So the words examined are exactly the fields of the content. */
  lemma ContentWordsAreFields(content: string)
    ensures ContentWords(content) == FieldsFunc(content, WordSeparator)
  {
    TrimEachClean(FieldsFunc(content, WordSeparator));
  }

  /** A word standing alone between two separators is a field of its own. */
  lemma FieldsAround(before: string, c: char, w: string, d: char, after: string, sep: char -> bool)
    requires sep(c) && sep(d) && w != [] && NoSep(w, sep)
    ensures FieldsFunc(before + [c] + w + [d] + after, sep) == FieldsFunc(before, sep) + [w] + FieldsFunc(after, sep)
  {
    assert before + [c] + w + [d] + after == before + [c] + (w + [d] + after);
    FieldsSplit(before, c, w + [d] + after, sep);
    FieldsSplit(w, d, after, sep);
    FieldsOfWord(w, sep);
  }

  /** A hash-shaped word has no separator. */
  lemma HashNoSep(hash: string)
    requires HashShaped(hash)
    ensures hash != [] && NoSep(hash, WordSeparator)
  {
    forall i | 0 <= i < |hash| ensures !WordSeparator(hash[i]) { assert Utils.AlnumChar(hash[i]); }
  }

  /** A hash standing alone between separators, with no earlier word accepted, is found. */
  lemma FindHashBetweenSeparators(probe: string -> Utils.Fetch, before: string, c: char, hash: string,
                                  d: char, after: string, slug: string, chapter: string)
    requires WordSeparator(c) && WordSeparator(d)
    requires HashShaped(hash) && ValidateHash(probe, slug, chapter, hash)
    requires FindHashInContent(probe, before, slug, chapter) == ""
    ensures FindHashInContent(probe, before + [c] + hash + [d] + after, slug, chapter) == hash
  {
    var valid := Validator(probe, slug, chapter);
    var content := before + [c] + hash + [d] + after;
    HashNoSep(hash);
    FieldsAround(before, c, hash, d, after, WordSeparator);
    ContentWordsAreFields(before);
    ContentWordsAreFields(content);
    var ws := FieldsFunc(before, WordSeparator);
    var all := ws + [hash] + FieldsFunc(after, WordSeparator);
    assert ContentWords(content) == all;
    assert forall k :: 0 <= k < |ws| ==> !Accepted(ws[k], valid);
    assert forall k :: 0 <= k < |ws| ==> all[k] == ws[k];
    assert all[|ws|] == hash;
    FirstValidIsFirst(all, valid, |ws|);
  }

  /** The candidates guessHashFromHID tries, in order: the HID and its lower-case form,
      then, for an HID of at least 8 characters, its first 8, its last 8 and the first 8
      of its lower-case form. */
  function HidCandidates(hid: string): (r: seq<string>)
    ensures |hid| < 8 ==> r == [hid, ToLower(hid)]
    ensures |hid| >= 8 ==> r == [hid, ToLower(hid), hid[..8], hid[|hid| - 8..], ToLower(hid)[..8]]
  {
    var variations := [hid, ToLower(hid)];
    if |hid| >= 8 then variations + [hid[..8], hid[|hid| - 8..], ToLower(hid)[..8]] else variations
  }

  /** guessHashFromHID: the first candidate that is hash-shaped and validates. */
  function GuessHashFromHid(probe: string -> Utils.Fetch, slug: string, hid: string, chapter: string): (r: string)
    ensures r == "" || (r in HidCandidates(hid) && HashShaped(r) && ValidateHash(probe, slug, chapter, r))
    ensures r == "" <==> forall i :: 0 <= i < |HidCandidates(hid)| ==>
                           !(HashShaped(HidCandidates(hid)[i]) && ValidateHash(probe, slug, chapter, HidCandidates(hid)[i]))
  {
    FirstValid(HidCandidates(hid), Validator(probe, slug, chapter))
  }

  /** An HID shorter than 8 characters never yields a hash. */
  lemma ShortHidNoGuess(probe: string -> Utils.Fetch, slug: string, hid: string, chapter: string)
    requires |hid| < 8
    ensures GuessHashFromHid(probe, slug, hid, chapter) == ""
  {
    var c := HidCandidates(hid);
    assert |c[0]| < 8 && |c[1]| < 8;
  }

  /** An 8-character alphanumeric HID that validates is itself the hash. */
  lemma HidItselfFirst(probe: string -> Utils.Fetch, slug: string, hid: string, chapter: string)
    requires HashShaped(hid) && ValidateHash(probe, slug, chapter, hid)
    ensures GuessHashFromHid(probe, slug, hid, chapter) == hid
  {
    assert HidCandidates(hid)[0] == hid;
    FirstValidIsFirst(HidCandidates(hid), Validator(probe, slug, chapter), 0);
  }

  /** For a longer HID whose first 8 characters validate, those are the hash: the whole
      HID and its lower-case form are too long to be tried. */
  lemma LongHidPrefixFirst(probe: string -> Utils.Fetch, slug: string, hid: string, chapter: string)
    requires |hid| > 8 && HashShaped(hid[..8]) && ValidateHash(probe, slug, chapter, hid[..8])
    ensures GuessHashFromHid(probe, slug, hid, chapter) == hid[..8]
  {
    var c := HidCandidates(hid);
    assert c[2] == hid[..8];
    assert |c[0]| > 8 && |c[1]| > 8;
    FirstValidIsFirst(c, Validator(probe, slug, chapter), 2);
  }

  // ---------------------------------------------------------------------------
  // extractHashFromHTML and extractFromEscapedPattern
  // ---------------------------------------------------------------------------

  /** The direct strategy of extractHashFromHTML: the text between the first occurrence
      of `p` and the next '/', when it is hash-shaped; otherwise "". Later occurrences of
      `p` are never looked at. */
  function DirectHash(html: string, p: string): (r: string)
    ensures r == "" || HashShaped(r)
    ensures r != "" ==>
      var i := IndexOf(html, p);
      && i >= 0
      && OccursAt(html, p + r, i)
      && i + |p| + 8 < |html| && html[i + |p| + 8] == '/'
  {
    var start := IndexOf(html, p);
    if start == -1 then ""
    else
      var from := start + |p|;
      var end := IndexOf(html[from..], "/");
      if end == -1 then ""
      else
        var hash := html[from..from + end];
        if HashShaped(hash) then
          Comick.PatternThenHash(html, p, start, end);
          assert html[from..][end..end + 1] == "/";
          hash
        else ""
  }

  /** A hash written right after the first occurrence of the pattern and ended by '/'
      is what the direct strategy extracts. */
  lemma DirectHashRoundTrip(prefix: string, p: string, hash: string, suffix: string)
    requires HashShaped(hash)
    requires IndexOf(prefix + p + hash + "/" + suffix, p) == |prefix|
    ensures DirectHash(prefix + p + hash + "/" + suffix, p) == hash
  {
    var head, tail := prefix + p, "/" + suffix;
    var html := head + (hash + tail);
    assert prefix + p + hash + "/" + suffix == html;
    assert hash + "/" + suffix == hash + tail;
    DropPrefix(head, hash + tail);
    TakePrefix(hash, tail);
    HashThenSlash(hash, suffix);
    DirectHashFound(html, p, |prefix|);
  }

  /** The first '/' after a hash-shaped word is the one right after it. */
  lemma HashThenSlash(hash: string, suffix: string)
    requires HashShaped(hash)
    ensures IndexOf(hash + "/" + suffix, "/") == 8
  {
    forall j | 0 <= j < |hash| ensures hash[j] != '/' { assert Utils.AlnumChar(hash[j]); }
    IndexAfterPrefix(hash, "/", suffix);
  }

  /** DirectHash when the pattern is first found at `i`, a '/' comes 8 characters after
      it, and the 8 characters between are hash-shaped. */
  lemma DirectHashFound(html: string, p: string, i: nat)
    requires IndexOf(html, p) == i && i + |p| <= |html|
    requires IndexOf(html[i + |p|..], "/") == 8
    requires HashShaped(html[i + |p|..][..8])
    ensures DirectHash(html, p) == html[i + |p|..][..8]
  {
    assert html[i + |p|..][..8] == html[i + |p|..i + |p| + 8];
  }

  /** The marker of the language segment inside JSON with escaped slashes. */
  const EnMarker: string := "\\/en\\/"

  /** An escaped slash. */
  const EscapedSlash: string := "\\/"

  /** The second half of extractFromEscapedPattern: after the first escaped "/en/" of
      `remaining`, the text up to the next escaped slash, with its leading '/' cut off,
      when it is hash-shaped. The cut starts one character early, inside the marker,
      and TrimPrefix takes that '/' back off. */
  function EscapedHashAfter(remaining: string): (r: string)
    ensures r == "" || HashShaped(r)
  {
    var idx := IndexOf(remaining, EnMarker);
    if idx == -1 then ""
    else
      var afterEn := remaining[idx + 5..];
      var slashIdx := IndexOf(afterEn, EscapedSlash);
      if slashIdx == -1 then ""
      else
        var hash := TrimPrefix(afterEn[..slashIdx], "/");
        if HashShaped(hash) then hash else ""
  }

  /** A found hash sits between the first escaped "/en/" and an escaped slash. */
  lemma EscapedHashLocated(remaining: string)
    requires EscapedHashAfter(remaining) != ""
    ensures OccursAt(remaining, EnMarker + EscapedHashAfter(remaining) + EscapedSlash, IndexOf(remaining, EnMarker))
  {
    var idx := IndexOf(remaining, EnMarker);
    var afterEn := remaining[idx + 5..];
    var hash := EscapedHashAfter(remaining);
    assert afterEn[0] == '/' by {
      assert remaining[idx..idx + 6][5] == '/';
    }
    CutAfterMarker(afterEn, IndexOf(afterEn, EscapedSlash), hash);
    SliceOfSuffix(remaining, idx + 5, 1, 9);
    SliceOfSuffix(remaining, idx + 5, 9, 11);
    SliceSplit(remaining, idx, idx + 6, idx + 14);
    SliceSplit(remaining, idx, idx + 14, idx + 16);
  }

  /** The text after the marker's last character: '/', then the 8-character hash, then
      the escaped slash. */
  lemma CutAfterMarker(afterEn: string, slashIdx: int, hash: string)
    requires |afterEn| > 0 && afterEn[0] == '/'
    requires slashIdx >= 0 && OccursAt(afterEn, EscapedSlash, slashIdx)
    requires hash == TrimPrefix(afterEn[..slashIdx], "/") && |hash| == 8
    ensures slashIdx == 9 && afterEn[1..9] == hash && afterEn[9..11] == EscapedSlash
  {
    assert afterEn[slashIdx..slashIdx + 2][0] == afterEn[slashIdx];
    var cut := afterEn[..slashIdx];
    assert cut[..1] == "/";
    assert cut == "/" + hash;
  }

  /** A hash written right after the first escaped "/en/" and ended by an escaped slash
      is what the second half extracts. */
  lemma EscapedHashRoundTrip(prefix: string, hash: string, suffix: string)
    requires HashShaped(hash)
    requires IndexOf(prefix + EnMarker + hash + EscapedSlash + suffix, EnMarker) == |prefix|
    ensures EscapedHashAfter(prefix + EnMarker + hash + EscapedSlash + suffix) == hash
  {
    var remaining := prefix + EnMarker + hash + EscapedSlash + suffix;
    var afterEn := "/" + hash + EscapedSlash + suffix;
    assert remaining[|prefix| + 5..] == afterEn by {
      assert remaining == (prefix + "\\/en\\") + afterEn;
      DropPrefix(prefix + "\\/en\\", afterEn);
    }
    assert forall j :: 0 <= j < |"/" + hash| ==> ("/" + hash)[j] != '\\' by {
      forall j | 0 <= j < |"/" + hash| ensures ("/" + hash)[j] != '\\' {
        if j > 0 { assert ("/" + hash)[j] == hash[j - 1] && Utils.AlnumChar(hash[j - 1]); }
      }
    }
    IndexAfterPrefix("/" + hash, EscapedSlash, suffix);
    assert afterEn == ("/" + hash) + EscapedSlash + suffix;
    assert afterEn[..9] == "/" + hash;
    assert TrimPrefix("/" + hash, "/") == hash;
  }

  /** extractFromEscapedPattern: find the backslash-free form of `pattern`, or else
      `pattern` itself, then take the hash after the next escaped "/en/". */
  function ExtractFromEscapedPattern(content: string, pattern: string): (r: string)
    ensures r == "" || HashShaped(r)
    ensures r != "" ==>
      var plain := IndexOf(content, RemoveChar(pattern, '\\'));
      var start := if plain != -1 then plain else IndexOf(content, pattern);
      start >= 0 && r == EscapedHashAfter(content[start..])
  {
    var plain := IndexOf(content, RemoveChar(pattern, '\\'));
    var start := if plain != -1 then plain else IndexOf(content, pattern);
    if start == -1 then "" else EscapedHashAfter(content[start..])
  }

  /** The pattern of the direct strategy. */
  function DirectPattern(slug: string, chapter: string): string {
    Comick.PlainPattern(slug, chapter)
  }

  /** The two escaped patterns, tried in this order. */
  function EscapedPatterns(slug: string, chapter: string): seq<string> {
    [Comick.EscapedPattern(slug, chapter), EscapedSlash + Comick.EscapedPattern(slug, chapter)]
  }

  /** extractHashFromHTML: the direct strategy, then each escaped pattern; the first
      hash found wins. */
  function ExtractHashFromHtml(html: string, slug: string, chapter: string): (r: string)
    ensures r == "" || HashShaped(r)
    ensures var direct := DirectHash(html, DirectPattern(slug, chapter));
      var e0 := ExtractFromEscapedPattern(html, EscapedPatterns(slug, chapter)[0]);
      var e1 := ExtractFromEscapedPattern(html, EscapedPatterns(slug, chapter)[1]);
      && (direct != "" ==> r == direct)
      && (direct == "" && e0 != "" ==> r == e0)
      && (direct == "" && e0 == "" ==> r == e1)
  {
    var direct := DirectHash(html, DirectPattern(slug, chapter));
    if direct != "" then direct
    else
      var patterns := EscapedPatterns(slug, chapter);
      var e0 := ExtractFromEscapedPattern(html, patterns[0]);
      if e0 != "" then e0 else ExtractFromEscapedPattern(html, patterns[1])
  }

  /** A page carrying the CDN URL of the chapter with the hash is read by the direct
      strategy. */
  lemma ExtractHashFromHtmlRoundTrip(prefix: string, slug: string, chapter: string, hash: string, suffix: string)
    requires HashShaped(hash)
    requires IndexOf(prefix + DirectPattern(slug, chapter) + hash + "/" + suffix, DirectPattern(slug, chapter)) == |prefix|
    ensures ExtractHashFromHtml(prefix + DirectPattern(slug, chapter) + hash + "/" + suffix, slug, chapter) == hash
  {
    DirectHashRoundTrip(prefix, DirectPattern(slug, chapter), hash, suffix);
  }

  // ---------------------------------------------------------------------------
  // extractHashFromScripts (the per-script part) and getChapterImageHashAdvanced
  // ---------------------------------------------------------------------------

  /** The test extractHashFromScripts applies to one script: only a script mentioning
      the slug or "comicknew" is searched for a hash. */
  function ScriptHash(probe: string -> Utils.Fetch, script: string, slug: string, chapter: string): (r: string)
    ensures r != "" ==> (Contains(script, slug) || Contains(script, "comicknew")) &&
                        r == FindHashInContent(probe, script, slug, chapter)
    ensures (Contains(script, slug) || Contains(script, "comicknew")) ==> r == FindHashInContent(probe, script, slug, chapter)
  {
    if Contains(script, slug) || Contains(script, "comicknew") then FindHashInContent(probe, script, slug, chapter) else ""
  }

  /** The per-script part of extractHashFromScripts: over the scripts the scan visits,
      the first hash found in a script that mentions the slug or "comicknew". */
  function ScriptsHash(probe: string -> Utils.Fetch, scripts: seq<string>, slug: string, chapter: string): (r: string)
    ensures r == "" || (HashShaped(r) && ValidateHash(probe, slug, chapter, r))
  {
    if |scripts| == 0 then ""
    else
      var h := ScriptHash(probe, scripts[0], slug, chapter);
      if h != "" then h else ScriptsHash(probe, scripts[1..], slug, chapter)
  }

  /** The script search finds nothing exactly when no visited script yields a hash, and
      otherwise returns the hash of the first script that yields one. */
  lemma {:induction false} ScriptsHashFirst(probe: string -> Utils.Fetch, scripts: seq<string>, slug: string, chapter: string)
    ensures ScriptsHash(probe, scripts, slug, chapter) == "" <==>
              forall i :: 0 <= i < |scripts| ==> ScriptHash(probe, scripts[i], slug, chapter) == ""
    ensures ScriptsHash(probe, scripts, slug, chapter) != "" ==>
              exists i :: 0 <= i < |scripts| &&
                ScriptsHash(probe, scripts, slug, chapter) == ScriptHash(probe, scripts[i], slug, chapter) &&
                forall j :: 0 <= j < i ==> ScriptHash(probe, scripts[j], slug, chapter) == ""
  {
    if |scripts| > 0 {
      var rest := scripts[1..];
      ScriptsHashFirst(probe, rest, slug, chapter);
      assert forall i :: 0 < i < |scripts| ==> scripts[i] == rest[i - 1];
      if ScriptHash(probe, scripts[0], slug, chapter) == "" && ScriptsHash(probe, rest, slug, chapter) != "" {
        var k :| 0 <= k < |rest| &&
                 ScriptsHash(probe, rest, slug, chapter) == ScriptHash(probe, rest[k], slug, chapter) &&
                 forall j :: 0 <= j < k ==> ScriptHash(probe, rest[j], slug, chapter) == "";
        assert scripts[k + 1] == rest[k];
        assert forall j :: 0 < j < k + 1 ==> scripts[j] == rest[j - 1];
      }
    }
  }

  /** The hash search for a chapter: `fetch` answers the chapter page, `scripts(html)`
      lists the scripts the script scan visits on that page, and `probe` answers the
      validation requests. The strategies run in order and the first hash found wins. */
  function GetChapterImageHashAdvanced(fetch: string -> Comick.PageFetch, scripts: string -> seq<string>,
                                       probe: string -> Utils.Fetch, slug: string, hid: string, chapter: string)
    : (r: Result<string, string>)
    ensures r.Ok? ==> HashShaped(r.value)
    ensures var page := fetch(Comick.ChapterPageUrl(slug, hid, chapter));
      && (!page.Body? ==> r == Err(page.message))
      && (page.Body? ==>
            var direct := ExtractHashFromHtml(page.html, slug, chapter);
            var script := ScriptsHash(probe, scripts(page.html), slug, chapter);
            var guess := GuessHashFromHid(probe, slug, hid, chapter);
            && (direct != "" ==> r == Ok(direct))
            && (direct == "" && script != "" ==> r == Ok(script))
            && (direct == "" && script == "" && guess != "" ==> r == Ok(guess))
            && (direct == "" && script == "" && guess == "" ==> r == Err("image hash not found for chapter " + chapter)))
  {
    match fetch(Comick.ChapterPageUrl(slug, hid, chapter))
    case FetchError(m) => Err(m)
    case ReadError(m) => Err(m)
    case Body(html) =>
      var direct := ExtractHashFromHtml(html, slug, chapter);
      if direct != "" then Ok(direct)
      else
        var script := ScriptsHash(probe, scripts(html), slug, chapter);
        if script != "" then Ok(script)
        else
          var guess := GuessHashFromHid(probe, slug, hid, chapter);
          if guess != "" then Ok(guess)
          else Err("image hash not found for chapter " + chapter)
  }

  /** A hash taken from a script, or guessed from the HID, has been validated. */
  lemma LaterStrategiesValidated(fetch: string -> Comick.PageFetch, scripts: string -> seq<string>,
                                 probe: string -> Utils.Fetch, slug: string, hid: string, chapter: string)
    requires fetch(Comick.ChapterPageUrl(slug, hid, chapter)).Body?
    requires ExtractHashFromHtml(fetch(Comick.ChapterPageUrl(slug, hid, chapter)).html, slug, chapter) == ""
    requires GetChapterImageHashAdvanced(fetch, scripts, probe, slug, hid, chapter).Ok?
    ensures ValidateHash(probe, slug, chapter, GetChapterImageHashAdvanced(fetch, scripts, probe, slug, hid, chapter).value)
  {
  }

  // ---------------------------------------------------------------------------
  // downloadChapter
  // ---------------------------------------------------------------------------

  /** downloadChapter: find the hash, create the directory, then run the sequential
      image loop, whose error becomes the chapter's. */
  method DownloadChapter(fetch: string -> Comick.PageFetch, scripts: string -> seq<string>,
                         probe: string -> Utils.Fetch, slug: string, hid: string, chapter: string,
                         dirError: Option<string>, images: nat -> nat -> Utils.Attempt,
                         maxRetries: int, retryDelay: int)
    returns (err: Option<string>, downloadedCount: nat, requested: seq<string>)
    ensures var h := GetChapterImageHashAdvanced(fetch, scripts, probe, slug, hid, chapter);
      h.Err? ==> err == Some("failed to get image hash: " + h.error) && downloadedCount == 0 && requested == []
    ensures var h := GetChapterImageHashAdvanced(fetch, scripts, probe, slug, hid, chapter);
      h.Ok? && dirError.Some? ==> err == dirError && downloadedCount == 0 && requested == []
    ensures var h := GetChapterImageHashAdvanced(fetch, scripts, probe, slug, hid, chapter);
      h.Ok? && dirError.None? ==>
        && requested == Comick.ImageUrls(slug, chapter, h.value, Comick.ImagesTried(images, maxRetries))
        && downloadedCount == ImagesDownloaded(images, maxRetries, Comick.ImagesTried(images, maxRetries))
        && (err == None <==> downloadedCount > 0)
        && (err.Some? ==> err == Some("no images downloaded for chapter " + chapter))
  {
    var hashResult := GetChapterImageHashAdvanced(fetch, scripts, probe, slug, hid, chapter);
    if hashResult.Err? {
      return Some("failed to get image hash: " + hashResult.error), 0, [];
    }
    if dirError.Some? {
      return dirError, 0, [];
    }
    err, downloadedCount, requested :=
      DownloadChapterImagesSequential(slug, chapter, hashResult.value, images, maxRetries, retryDelay);
  }

  // ---------------------------------------------------------------------------
  // downloadCover: the extension choice
  // ---------------------------------------------------------------------------

  /** The cover file extension: ".jpg" when the URL mentions ".jpg" or ".jpeg", else
      ".png" when it mentions that, else ".webp". */
  function CoverExtension(coverUrl: string): (ext: string)
    ensures ext == ".jpg" <==> Contains(coverUrl, ".jpg") || Contains(coverUrl, ".jpeg")
    ensures ext == ".png" <==> !Contains(coverUrl, ".jpg") && !Contains(coverUrl, ".jpeg") && Contains(coverUrl, ".png")
    ensures ext == ".webp" <==> !Contains(coverUrl, ".jpg") && !Contains(coverUrl, ".jpeg") && !Contains(coverUrl, ".png")
  {
    if Contains(coverUrl, ".jpg") || Contains(coverUrl, ".jpeg") then ".jpg"
    else if Contains(coverUrl, ".png") then ".png"
    else ".webp"
  }

  /** The two Comick scrapers agree on every cover URL except those that mention
      ".jpeg" but not ".jpg", which the adapter does not save as ".jpg". */
  lemma CoverExtensionsAgree(coverUrl: string)
    ensures CoverExtension(coverUrl) != Comick.CoverExtension(coverUrl) <==>
              Contains(coverUrl, ".jpeg") && !Contains(coverUrl, ".jpg")
    ensures CoverExtension(coverUrl) != Comick.CoverExtension(coverUrl) ==>
              CoverExtension(coverUrl) == ".jpg" && Comick.CoverExtension(coverUrl) != ".jpg"
  {
  }

  /** For instance "c.jpeg". */
  lemma JpegCover()
    ensures CoverExtension("c.jpeg") == ".jpg"
    ensures Comick.CoverExtension("c.jpeg") == ".webp"
  {
    var s := "c.jpeg";
    assert OccursAt(s, ".jpeg", 1);
    forall j: nat ensures !OccursAt(s, ".jpg", j) && !OccursAt(s, ".png", j) {
      if j + 4 <= |s| {
        assert s[j..j + 4][0] == s[j];
        assert s[j..j + 4][1] == s[j + 1];
        assert s[j..j + 4][2] == s[j + 2];
        assert s[j..j + 4][3] == s[j + 3];
      }
    }
  }
}
