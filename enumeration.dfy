/** The probing loops of the scrapers share one shape: probe 0, 1, 2, ... in order, keep a
    counter of consecutive failures that a success resets, and stop at the first probe
    after which a stopping condition holds, or at a cap. This module holds the shared
    specification of that shape and the paginated chapter-list walk that both Comick
    clients run. */
module Enumeration {
  import opened Text

  // ---------------------------------------------------------------------------
  // First stop, streaks and filters
  // ---------------------------------------------------------------------------

  /** The first k < n with stop(k), or n when there is none. */
  function FirstStop(stop: nat -> bool, n: nat): (k: nat)
    ensures k <= n
    ensures k < n ==> stop(k)
  {
    if n == 0 then 0
    else
      var k := FirstStop(stop, n - 1);
      if k < n - 1 then k else if stop(n - 1) then n - 1 else n
  }

  /** No probe before the first stop stops. */
  lemma {:induction false} BeforeFirstStop(stop: nat -> bool, n: nat, j: nat)
    requires j < FirstStop(stop, n)
    ensures !stop(j)
  {
    if j < FirstStop(stop, n - 1) {
      BeforeFirstStop(stop, n - 1, j);
    }
  }

  /** A stop with no earlier stop is the first stop. */
  lemma StopHere(stop: nat -> bool, n: nat, k: nat)
    requires k < n && stop(k) && k <= FirstStop(stop, n)
    ensures FirstStop(stop, n) == k
  {
    if k < FirstStop(stop, n) {
      BeforeFirstStop(stop, n, k);
    }
  }

  /** The number of probes a loop makes that breaks right after its first probe k < cap
      with stop(k), and otherwise runs all cap probes. */
  function Probes(stop: nat -> bool, cap: nat): (n: nat)
    ensures n <= cap
    ensures 0 < n < cap ==> stop(n - 1)
  {
    var k := FirstStop(stop, cap);
    if k < cap then k + 1 else cap
  }

  /** A loop that breaks at probe k, with no stop before it, made k + 1 probes. */
  lemma ProbesEndHere(stop: nat -> bool, cap: nat, k: nat)
    requires k < cap && stop(k) && k <= FirstStop(stop, cap)
    ensures Probes(stop, cap) == k + 1
  {
  }

  /** A probe that does not stop the loop leaves no stop up to the next one. */
  lemma ProbesGoOn(stop: nat -> bool, cap: nat, k: nat)
    requires k < cap && !stop(k) && k <= FirstStop(stop, cap)
    ensures k + 1 <= FirstStop(stop, cap)
  {
  }

  /** A loop that never stopped ran all cap probes. */
  lemma ProbesRunOut(stop: nat -> bool, cap: nat)
    requires cap <= FirstStop(stop, cap)
    ensures Probes(stop, cap) == cap
  {
  }

  /** The number of consecutive failures among probes 0 .. k-1 that end with probe k-1:
      the loops' consecutive-failure counter after k probes. A success resets it. */
  function Streak(failed: nat -> bool, k: nat): (r: nat)
    ensures r <= k
  {
    if k == 0 then 0 else if failed(k - 1) then Streak(failed, k - 1) + 1 else 0
  }

  /** The counter is at least m exactly when the last m probes all failed. */
  lemma {:induction false} StreakMeans(failed: nat -> bool, k: nat, m: nat)
    ensures Streak(failed, k) >= m <==> m <= k && forall j :: k - m <= j < k ==> failed(j)
  {
    if m > 0 && k > 0 {
      StreakMeans(failed, k - 1, m - 1);
      if !failed(k - 1) {
        assert !(forall j: nat :: k - m <= j < k ==> failed(j));
      }
    }
  }

  /** The failure-limit rule of every loop here: three consecutive failures end it. */
  const FailureLimit: nat := 3

  /** The probe loops break after probe k when it brings the counter to the limit. */
  function LimitReached(failed: nat -> bool): nat -> bool {
    (k: nat) => Streak(failed, k + 1) >= FailureLimit
  }

  /** Probe k adds one to the counter when it fails and resets it when it succeeds; it
      stops the loop exactly when the counter gets to the limit. */
  lemma ProbeStep(failed: nat -> bool, k: nat)
    ensures Streak(failed, k + 1) == if failed(k) then Streak(failed, k) + 1 else 0
    ensures LimitReached(failed)(k) <==> Streak(failed, k + 1) >= FailureLimit
  {
  }

  /** The limit is reached at probe k exactly when probes k-2, k-1 and k all failed. */
  lemma LimitMeansThreeInARow(failed: nat -> bool, k: nat)
    ensures LimitReached(failed)(k) <==> 2 <= k && failed(k - 2) && failed(k - 1) && failed(k)
  {
    StreakMeans(failed, k + 1, 3);
    if 2 <= k && failed(k - 2) && failed(k - 1) && failed(k) {
      assert forall j :: k + 1 - 3 <= j < k + 1 ==> failed(j);
    }
  }

  /** The number of successful probes among 0 .. n-1. */
  function Successes(failed: nat -> bool, n: nat): (r: nat)
    ensures r <= n
  {
    if n == 0 then 0 else Successes(failed, n - 1) + (if failed(n - 1) then 0 else 1)
  }

  /** How far a loop of at most `cap` probes may go before the failure limit stops it. */
  function Reach(failed: nat -> bool, cap: nat): (k: nat)
    ensures k <= cap
  {
    FirstStop(LimitReached(failed), cap)
  }

  /** The number of probes such a loop makes. */
  function Tried(failed: nat -> bool, cap: nat): (n: nat)
    ensures n <= cap
  {
    Probes(LimitReached(failed), cap)
  }

  /** A failed probe adds one to the counter and no success; the loop stops after it
      exactly when the counter reaches the limit. */
  lemma ProbeFailed(failed: nat -> bool, cap: nat, k: nat)
    requires k < cap && k <= Reach(failed, cap) && failed(k)
    ensures Streak(failed, k + 1) == Streak(failed, k) + 1
    ensures Successes(failed, k + 1) == Successes(failed, k)
    ensures Streak(failed, k + 1) >= FailureLimit ==> Tried(failed, cap) == k + 1
    ensures Streak(failed, k + 1) < FailureLimit ==> k + 1 <= Reach(failed, cap)
  {
    ProbeStep(failed, k);
    if Streak(failed, k + 1) >= FailureLimit {
      ProbesEndHere(LimitReached(failed), cap, k);
    } else {
      ProbesGoOn(LimitReached(failed), cap, k);
    }
  }

  /** A successful probe resets the counter, is counted, and never stops the loop. */
  lemma ProbeSucceeded(failed: nat -> bool, cap: nat, k: nat)
    requires k < cap && k <= Reach(failed, cap) && !failed(k)
    ensures Streak(failed, k + 1) == 0
    ensures Successes(failed, k + 1) == Successes(failed, k) + 1
    ensures k + 1 <= Reach(failed, cap)
  {
    ProbeStep(failed, k);
    ProbesGoOn(LimitReached(failed), cap, k);
  }

  /** A loop that gets to its cap has made `cap` probes. */
  lemma ProbesExhausted(failed: nat -> bool, cap: nat)
    requires cap <= Reach(failed, cap)
    ensures Tried(failed, cap) == cap
  {
    ProbesRunOut(LimitReached(failed), cap);
  }

  /** No success is counted exactly when every probe failed. */
  lemma {:induction false} NoSuccessMeansAllFailed(failed: nat -> bool, n: nat)
    ensures Successes(failed, n) == 0 <==> forall j :: 0 <= j < n ==> failed(j)
  {
    if n > 0 {
      NoSuccessMeansAllFailed(failed, n - 1);
    }
  }


  /** The elements of `s` that `keep` accepts, in their order in `s`. */
  function Filter<T(!new)>(keep: T -> bool, s: seq<T>): (r: seq<T>)
    ensures |r| <= |s|
    ensures forall x :: x in r <==> x in s && keep(x)
  {
    if |s| == 0 then []
    else Filter(keep, s[..|s| - 1]) + (if keep(s[|s| - 1]) then [s[|s| - 1]] else [])
  }

  /** Filtering a concatenation filters each part in turn: the order of the kept
      elements is the order of the input. */
  lemma {:induction false} FilterAppend<T(!new)>(keep: T -> bool, a: seq<T>, b: seq<T>)
    ensures Filter(keep, a + b) == Filter(keep, a) + Filter(keep, b)
  {
    if |b| > 0 {
      assert (a + b)[..|a + b| - 1] == a + b[..|b| - 1];
      FilterAppend(keep, a, b[..|b| - 1]);
    } else {
      assert a + b == a;
    }
  }

  // ---------------------------------------------------------------------------
  // The paginated chapter-list walk
  // ---------------------------------------------------------------------------

  /** What one request of the walk yields: a transport error or a 404 (`FetchFailed`),
      a body that is not a chapter list (`DecodeFailed`), or a decoded page. */
  datatype PageOutcome<T> = FetchFailed | DecodeFailed | Decoded(data: seq<T>)

  /** The walk's safety limit: it stops after a decoded page once the page number
      passes it. */
  const PageCap: nat := 100

  /** The pages whose request counts as a failure. */
  function FailedPages<T>(pages: nat -> PageOutcome<T>): nat -> bool {
    (k: nat) => !pages(k).Decoded?
  }

  /** The walk breaks after requesting page k: three failures in a row, an empty page,
      or a decoded page that takes the page number past the cap. */
  predicate WalkStopsAt<T>(pages: nat -> PageOutcome<T>, k: nat) {
    || LimitReached(FailedPages(pages))(k)
    || (pages(k).Decoded? && (|pages(k).data| == 0 || k + 1 > PageCap))
  }

  function WalkStop<T>(pages: nat -> PageOutcome<T>): nat -> bool {
    (k: nat) => WalkStopsAt(pages, k)
  }

  /** The last page the walk requests: the first page it stops at. */
  function LastPage<T>(pages: nat -> PageOutcome<T>): (k: nat)
    ensures k <= PageCap + FailureLimit
    ensures k < PageCap + FailureLimit ==> WalkStopsAt(pages, k)
  {
    FirstStop(WalkStop(pages), PageCap + FailureLimit)
  }

  /** The walk stops at no page before the last one. */
  lemma BeforeLastPage<T>(pages: nat -> PageOutcome<T>, j: nat)
    requires j < LastPage(pages)
    ensures !WalkStopsAt(pages, j)
  {
    BeforeFirstStop(WalkStop(pages), PageCap + FailureLimit, j);
  }

  /** The walk always stops, at page 102 at the latest: past the cap a decoded page ends
      it, and three failed pages end it too. So it makes at most 103 requests. */
  lemma WalkBounded<T>(pages: nat -> PageOutcome<T>)
    ensures LastPage(pages) <= PageCap + 2
  {
    var f := FailedPages(pages);
    if LastPage(pages) > PageCap + 2 {
      BeforeLastPage(pages, PageCap);
      BeforeLastPage(pages, PageCap + 1);
      BeforeLastPage(pages, PageCap + 2);
      LimitMeansThreeInARow(f, PageCap + 2);
    }
  }

  /** The bound is reached: 100 full pages and then three failures make 103 requests. */
  lemma WalkBoundReached(pages: nat -> PageOutcome<int>)
    requires forall k :: 0 <= k < PageCap ==> pages(k) == Decoded([0])
    requires forall k :: PageCap <= k ==> pages(k) == FetchFailed
    ensures LastPage(pages) == PageCap + 2
  {
    var f := FailedPages(pages);
    forall j | 0 <= j < PageCap + 2 ensures !WalkStopsAt(pages, j) {
      LimitMeansThreeInARow(f, j);
    }
    LimitMeansThreeInARow(f, PageCap + 2);
    StopHere(WalkStop(pages), PageCap + FailureLimit, PageCap + 2);
  }

  /** The chapters the walk keeps from pages 0 .. n-1: the accepted entries of every
      decoded page, page by page, in order. */
  function Collected<T(!new)>(pages: nat -> PageOutcome<T>, keep: T -> bool, n: nat): seq<T> {
    if n == 0 then []
    else Collected(pages, keep, n - 1) + (if pages(n - 1).Decoded? then Filter(keep, pages(n - 1).data) else [])
  }

  /** A failed page adds one to the counter and keeps no chapters. */
  lemma FailedPageStep<T(!new)>(pages: nat -> PageOutcome<T>, keep: T -> bool, page: nat)
    requires !pages(page).Decoded?
    ensures Streak(FailedPages(pages), page + 1) == Streak(FailedPages(pages), page) + 1
    ensures Collected(pages, keep, page + 1) == Collected(pages, keep, page)
    ensures WalkStopsAt(pages, page) <==> Streak(FailedPages(pages), page + 1) >= FailureLimit
  {
  }

  /** A decoded page resets the counter and keeps its accepted chapters. */
  lemma DecodedPageStep<T(!new)>(pages: nat -> PageOutcome<T>, keep: T -> bool, page: nat)
    requires pages(page).Decoded?
    ensures Streak(FailedPages(pages), page + 1) == 0
    ensures Collected(pages, keep, page + 1) == Collected(pages, keep, page) + Filter(keep, pages(page).data)
    ensures WalkStopsAt(pages, page) <==> |pages(page).data| == 0 || page + 1 > PageCap
  {
  }

  /** A page the walk stops at, with no stop before it, is the last page. */
  lemma WalkEndsHere<T>(pages: nat -> PageOutcome<T>, page: nat)
    requires page <= LastPage(pages) && page < PageCap + FailureLimit && WalkStopsAt(pages, page)
    ensures LastPage(pages) == page
  {
    StopHere(WalkStop(pages), PageCap + FailureLimit, page);
  }

  /** A page the walk does not stop at is followed by another request. */
  lemma WalkGoesOn<T>(pages: nat -> PageOutcome<T>, page: nat)
    requires page <= LastPage(pages) && page < PageCap + FailureLimit && !WalkStopsAt(pages, page)
    ensures page + 1 <= LastPage(pages)
  {
  }

  /** The URL of chapter-list page p: no query for page 0, `?page=p` after it. */
  function ChapterListUrl(baseUrl: string, slug: string, p: nat): string {
    baseUrl + "/api/comics/" + slug + "/chapter-list" + (if p == 0 then "" else "?page=" + NatToString(p))
  }

  /** Every collected entry was accepted. */
  lemma {:induction false} CollectedKept<T(!new)>(pages: nat -> PageOutcome<T>, keep: T -> bool, n: nat)
    ensures forall x :: x in Collected(pages, keep, n) ==> keep(x)
  {
    if n > 0 {
      CollectedKept(pages, keep, n - 1);
    }
  }

  /** The URLs of pages 0 .. n-1 in request order. */
  function ChapterListUrls(baseUrl: string, slug: string, n: nat): (r: seq<string>)
    ensures |r| == n
  {
    if n == 0 then [] else ChapterListUrls(baseUrl, slug, n - 1) + [ChapterListUrl(baseUrl, slug, n - 1)]
  }

  /** Entry p of the list is the URL of page p. */
  lemma {:induction false} ChapterListUrlsAt(baseUrl: string, slug: string, n: nat, p: nat)
    requires p < n
    ensures ChapterListUrls(baseUrl, slug, n)[p] == ChapterListUrl(baseUrl, slug, p)
  {
    if p < n - 1 {
      ChapterListUrlsAt(baseUrl, slug, n - 1, p);
    }
  }

  /** The list of URLs grows by the URL of the next page. */
  lemma ChapterListUrlsStep(baseUrl: string, slug: string, n: nat)
    ensures ChapterListUrls(baseUrl, slug, n + 1) == ChapterListUrls(baseUrl, slug, n) + [ChapterListUrl(baseUrl, slug, n)]
  {
  }

  /** The inner loop of the walk: append the accepted entries of one page, in order. */
  method AppendKept<T(!new)>(chapters: seq<T>, keep: T -> bool, data: seq<T>) returns (r: seq<T>)
    ensures r == chapters + Filter(keep, data)
  {
    r := chapters;
    for j := 0 to |data|
      invariant r == chapters + Filter(keep, data[..j])
    {
      assert data[..j + 1][..j] == data[..j];
      if keep(data[j]) {
        r := r + [data[j]];
      }
    }
    assert data[..|data|] == data;
  }

  /** The walk of getChapterList and getChapterListPaginated over the pages the API
      returns. `requested` is the sequence of URLs it fetches. */
  method ChapterWalk<T(!new)>(pages: nat -> PageOutcome<T>, keep: T -> bool, baseUrl: string, slug: string)
    returns (chapters: seq<T>, requested: seq<string>)
    ensures requested == ChapterListUrls(baseUrl, slug, LastPage(pages) + 1)
    ensures chapters == Collected(pages, keep, LastPage(pages) + 1)
  {
    ghost var f := FailedPages(pages);
    chapters, requested := [], [];
    var page: nat := 0;
    var failures: nat := 0;
    while true
      invariant page <= LastPage(pages) && requested == ChapterListUrls(baseUrl, slug, page)
      invariant failures == Streak(f, page) && failures < FailureLimit
      invariant page <= PageCap + failures
      invariant chapters == Collected(pages, keep, page)
      decreases PageCap + FailureLimit - page
    {
      ChapterListUrlsStep(baseUrl, slug, page);
      requested := requested + [ChapterListUrl(baseUrl, slug, page)];
      var outcome := pages(page);
      if !outcome.Decoded? {
        FailedPageStep(pages, keep, page);
        failures := failures + 1;
        if failures >= FailureLimit {
          WalkEndsHere(pages, page);
          break;
        }
      } else {
        DecodedPageStep(pages, keep, page);
        failures := 0;
        var data := outcome.data;
        chapters := AppendKept(chapters, keep, data);
        if |data| == 0 {
          WalkEndsHere(pages, page);
          break;
        }
        // page++ followed by the safety-limit test `page > 100`
        if page + 1 > PageCap {
          WalkEndsHere(pages, page);
          break;
        }
      }
      WalkGoesOn(pages, page);
      page := page + 1;
    }
  }
}
