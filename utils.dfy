/** The shared helpers of utils.go: the alphanumeric test, marker extraction,
    the common browser headers and the retrying downloader. */
module Utils {
  import opened Wrappers
  import opened Text

  // ---------------------------------------------------------------------------
  // IsAlphaNumeric and ExtractBetween
  // ---------------------------------------------------------------------------

  /** An ASCII letter or digit. */
  predicate AlnumChar(c: char) {
    'a' <= c <= 'z' || 'A' <= c <= 'Z' || '0' <= c <= '9'
  }

  /** The scan of IsAlphaNumeric: it stops at the first character that is not an
      ASCII letter or digit, and accepts a string it runs off the end of. */
  function IsAlphaNumeric(s: string): (r: bool)
    ensures r <==> forall i :: 0 <= i < |s| ==> AlnumChar(s[i])
  {
    if |s| == 0 then true
    else if !AlnumChar(s[0]) then false
    else IsAlphaNumeric(s[1..])
  }

  /** The text between the first `start` marker and the first `end` marker after it,
      or "" when either marker is missing. */
  function ExtractBetween(content: string, start: string, end: string): (r: string)
    ensures IndexOf(content, start) == -1 ==> r == ""
    ensures var i := IndexOf(content, start);
      i >= 0 ==> IndexOf(content[i + |start|..], end) == -1 ==> r == ""
    ensures var i := IndexOf(content, start);
      i >= 0 ==> IndexOf(content[i + |start|..], end) >= 0 ==>
        var rest := content[i + |start|..];
        && |r| <= |rest| && rest[..|r|] == r
        && OccursAt(rest, end, |r|)
        && (forall j :: 0 <= j < |r| ==> !OccursAt(rest, end, j))
        && OccursAt(content, start + r + end, i)
  {
    var i := IndexOf(content, start);
    if i == -1 then ""
    else
      var from := i + |start|;
      var e := IndexOf(content[from..], end);
      if e == -1 then ""
      else
        MarkersAround(content, start, end, i, e);
        var r := content[from..from + e];
        assert |r| == e;
        r
  }

  /** The start marker at `i`, the text after it, and the end marker `e` characters
      later appear in `content` as one block. */
  lemma MarkersAround(content: string, start: string, end: string, i: nat, e: nat)
    requires OccursAt(content, start, i)
    requires OccursAt(content[i + |start|..], end, e)
    ensures var from := i + |start|;
      && from + e <= |content|
      && content[from..][..e] == content[from..from + e]
      && OccursAt(content, start + content[from..from + e] + end, i)
  {
    var from := i + |start|;
    var r := content[from..from + e];
    SliceOfSuffix(content, from, e, e + |end|);
    SliceOfSuffix(content, from, 0, e);
    SliceSplit(content, i, from, from + e);
    SliceSplit(content, i, from + e, from + e + |end|);
    assert |start + r + end| == from + e + |end| - i;
  }

  /** When an end marker follows the start marker, the extracted text has no
      occurrence of the end marker inside it. */
  lemma {:induction false} ExtractBetweenHasNoEnd(content: string, start: string, end: string)
    requires end != []
    ensures !Contains(ExtractBetween(content, start, end), end)
  {
    var r := ExtractBetween(content, start, end);
    var i := IndexOf(content, start);
    if i >= 0 && IndexOf(content[i + |start|..], end) >= 0 {
      PrefixBeforeFirst(content[i + |start|..], end, |r|);
    }
  }

  /** The browser the scrapers pose as. */
  const UserAgent: string := "Mozilla/5.0 (X11; Linux x86_64) AppleWebKit/537.36 (KHTML, like Gecko) Chrome/140.0.0.0 Safari/537.36"
  const ClientHints: string := "\"Not=A?Brand\";v=\"24\", \"Chromium\";v=\"140\""

  /** GetCommonHeaders: the browser identity sent with every request. */
  function CommonHeaders(): map<string, string> {
    map[
      "User-Agent" := UserAgent,
      "Accept-Language" := "en-US,en;q=0.9",
      "Sec-Ch-Ua" := ClientHints,
      "Sec-Ch-Ua-Mobile" := "?0",
      "Sec-Ch-Ua-Platform" := "\"Linux\""
    ]
  }

  // ---------------------------------------------------------------------------
  // DownloadFile: the retry policy
  // ---------------------------------------------------------------------------

  /** What the fetcher hands back for one GET: a transport error or a response status. */
  datatype Fetch = TransportError(message: string) | Response(status: int)

  /** The outcome of os.Create or io.Copy. */
  datatype Step = Done | Failed(message: string)

  /** Everything the outside world decides about one attempt. The create and copy
      outcomes matter only when the response is 200; the remove outcome only when the
      copy failed. */
  datatype Attempt = Attempt(fetch: Fetch, create: Step, copy: Step, remove: Step)

  /** Why one attempt did not save the file (the `lastErr` of the loop). */
  datatype Cause =
    | Transport(message: string)
    | HttpStatus(status: int)
    | CreateFailed(message: string)
    | CopyFailed(message: string)

  /** The error DownloadFile returns: the 404 itself, or "failed after N attempts". */
  datatype DownloadError =
    | Terminal(cause: Cause)
    | Exhausted(attempts: int, last: Option<Cause>)

  /** What is at the destination path. */
  datatype FileState = Missing | Partial | Complete

  /** The number of attempts a MaxRetries setting allows: none when it is not positive. */
  function Budget(maxRetries: int): nat {
    if maxRetries <= 0 then 0 else maxRetries
  }

  /** A 200 response whose body was created and copied in full. */
  predicate Succeeds(a: Attempt) {
    a.fetch == Response(200) && a.create.Done? && a.copy.Done?
  }

  /** A 404 response: the one status that is never retried. */
  predicate NotFound(a: Attempt) {
    a.fetch == Response(404)
  }

  /** An attempt after which DownloadFile returns without retrying. */
  predicate Ends(a: Attempt) {
    Succeeds(a) || NotFound(a)
  }

  /** os.Create succeeded, so a file was (re)written at the destination. */
  predicate Created(a: Attempt) {
    a.fetch == Response(200) && a.create.Done?
  }

  /** Some attempt before `k` created the destination file. */
  predicate CreatedBefore(world: nat -> Attempt, k: nat) {
    exists j :: 0 <= j < k && Created(world(j))
  }

  /** What attempts 0 .. k-1 leave at the destination when none of them succeeded: an
      attempt that created the file and failed to copy removes it, or leaves the partial
      file when os.Remove fails (its error is ignored); other attempts touch nothing. */
  function LeftBehind(world: nat -> Attempt, k: nat, before: FileState): FileState {
    if k == 0 then before
    else if Created(world(k - 1)) then (if world(k - 1).remove.Failed? then Partial else Missing)
    else LeftBehind(world, k - 1, before)
  }

  /** When every removal succeeds, a failed download leaves no file it created: the
      destination is missing if some attempt created it, and untouched otherwise. */
  lemma {:induction false} RemovalsSucceed(world: nat -> Attempt, k: nat, before: FileState)
    requires forall j :: 0 <= j < k && Created(world(j)) ==> world(j).remove.Done?
    ensures LeftBehind(world, k, before) == if CreatedBefore(world, k) then Missing else before
  {
    if k > 0 && !Created(world(k - 1)) {
      RemovalsSucceed(world, k - 1, before);
      assert CreatedBefore(world, k) <==> CreatedBefore(world, k - 1);
    }
  }

  /** A failed removal leaves the partial file behind when no later attempt creates the
      file again. */
  lemma {:induction false} FailedRemovalLeavesPartial(world: nat -> Attempt, j: nat, k: nat, before: FileState)
    requires j < k && Created(world(j)) && world(j).remove.Failed?
    requires forall i :: j < i < k ==> !Created(world(i))
    ensures LeftBehind(world, k, before) == Partial
  {
    if k - 1 != j {
      FailedRemovalLeavesPartial(world, j, k - 1, before);
    }
  }

  /** The first attempt below `n` that ends the download, or `n` when there is none. */
  function FirstEnd(world: nat -> Attempt, n: nat): (k: nat)
    ensures k <= n
    ensures k < n ==> Ends(world(k))
    ensures forall j :: 0 <= j < k ==> !Ends(world(j))
  {
    if n == 0 then 0
    else
      var k := FirstEnd(world, n - 1);
      if k < n - 1 then k else if Ends(world(n - 1)) then n - 1 else n
  }

  /** An ending attempt that no earlier attempt preempts is the first end. */
  lemma EndsHere(world: nat -> Attempt, n: nat, k: nat)
    requires k < n && k <= FirstEnd(world, n) && Ends(world(k))
    ensures FirstEnd(world, n) == k
  {
  }

  /** The reason a retried attempt failed. */
  function CauseOf(a: Attempt): Cause
    requires !Ends(a)
  {
    match a.fetch
    case TransportError(m) => Transport(m)
    case Response(code) =>
      if code != 200 then HttpStatus(code)
      else if a.create.Failed? then CreateFailed(a.create.message)
      else CopyFailed(a.copy.message)
  }

  /** 1 + 2 + ... + k: the backoff units slept after k failed attempts. */
  function Triangle(k: nat): nat {
    if k == 0 then 0 else Triangle(k - 1) + k
  }

  lemma {:induction false} TriangleClosedForm(k: nat)
    ensures Triangle(k) == k * (k + 1) / 2
  {
    if k > 0 {
      TriangleClosedForm(k - 1);
      assert k * (k + 1) == (k - 1) * k + 2 * k;
    }
  }

  /** The number of attempts DownloadFile makes before it concludes. */
  function Tries(world: nat -> Attempt, maxRetries: int): (k: nat)
    ensures k <= Budget(maxRetries)
  {
    FirstEnd(world, Budget(maxRetries))
  }

  /** DownloadFile saves the file: the first attempt that ends the download succeeds. */
  predicate Downloads(world: nat -> Attempt, maxRetries: int) {
    Tries(world, maxRetries) < Budget(maxRetries) && Succeeds(world(Tries(world, maxRetries)))
  }

  /** Which of a run of downloads fail: download i meets `worlds(i)`. */
  function DownloadFailures(worlds: nat -> nat -> Attempt, maxRetries: int): nat -> bool {
    (i: nat) => !Downloads(worlds(i), maxRetries)
  }

  /** DownloadFile with the network, the file system and the clock as inputs.
      `world(k)` is what attempt k meets; `fetches` counts GET requests and
      `slept` sums the backoff sleeps. */
  method DownloadFile(world: nat -> Attempt, maxRetries: int, retryDelay: int, before: FileState)
    returns (err: Option<DownloadError>, after: FileState, ghost fetches: nat, ghost slept: int)
    // at most MaxRetries requests; none at all when MaxRetries <= 0
    ensures var n, k := Budget(maxRetries), Tries(world, maxRetries);
      fetches == if k < n then k + 1 else n
    // every failed attempt k sleeps RetryDelay * (k + 1); the ending attempt does not sleep
    ensures var k := Tries(world, maxRetries);
      slept == retryDelay * (k * (k + 1) / 2)
    // success exactly at the first attempt with 200, create and copy all succeeding
    ensures err == None <==> Downloads(world, maxRetries)
    // a 404 is returned at once
    ensures var n, k := Budget(maxRetries), Tries(world, maxRetries);
      k < n && !Succeeds(world(k)) ==> err == Some(Terminal(HttpStatus(404)))
    // exhaustion reports the attempt count and the last attempt's error
    ensures var n, k := Budget(maxRetries), Tries(world, maxRetries);
      k == n ==> err == Some(Exhausted(maxRetries, if n == 0 then None else Some(CauseOf(world(n - 1)))))
    // a complete copy stays on disk; otherwise what the failed attempts leave behind
    ensures after == if err == None then Complete else LeftBehind(world, Tries(world, maxRetries), before)
  {
    ghost var n := Budget(maxRetries);
    var attempt: nat := 0;
    var lastErr: Option<Cause> := None;
    after, fetches, slept := before, 0, 0;
    while attempt < maxRetries
      invariant attempt <= n && attempt <= FirstEnd(world, n)
      invariant fetches == attempt
      invariant slept == retryDelay * Triangle(attempt)
      invariant lastErr == if attempt == 0 then None else Some(CauseOf(world(attempt - 1)))
      invariant after == LeftBehind(world, attempt, before)
    {
      var a := world(attempt);
      fetches := fetches + 1;
      if a.fetch.TransportError? {
        lastErr := Some(Transport(a.fetch.message));
      } else if a.fetch.status != 200 {
        lastErr := Some(HttpStatus(a.fetch.status));
        if a.fetch.status == 404 {
          EndsHere(world, n, attempt);
          TriangleClosedForm(attempt);
          err := Some(Terminal(lastErr.value));
          return;
        }
      } else if a.create.Failed? {
        lastErr := Some(CreateFailed(a.create.message));
      } else {
        after := Partial;
        if a.copy.Failed? {
          lastErr := Some(CopyFailed(a.copy.message));
          after := if a.remove.Failed? then Partial else Missing;  // os.Remove of the partial file
        } else {
          after := Complete;
          EndsHere(world, n, attempt);
          TriangleClosedForm(attempt);
          err := None;
          return;
        }
      }
      slept := slept + retryDelay * (attempt + 1);
      attempt := attempt + 1;
    }
    TriangleClosedForm(attempt);
    err := Some(Exhausted(maxRetries, lastErr));
  }

  /** Download i of a run: DownloadFile on what that download meets, reporting
      whether it returned an error. */
  method DownloadEach(worlds: nat -> nat -> Attempt, maxRetries: int, retryDelay: int, i: nat)
    returns (failed: bool)
    ensures failed == DownloadFailures(worlds, maxRetries)(i)
  {
    var err, _, _, _ := DownloadFile(worlds(i), maxRetries, retryDelay, Missing);
    failed := err.Some?;
  }

  /** A 404 on the first attempt: one request, no sleep, the 404 returned. */
  lemma NotFoundAtOnce(world: nat -> Attempt, maxRetries: int)
    requires maxRetries >= 1 && NotFound(world(0))
    ensures Tries(world, maxRetries) == 0
    ensures !Downloads(world, maxRetries)
  {
  }

  /** Two transient failures and then a success under a cap of three attempts:
      three requests and RetryDelay * (1 + 2) of sleep. */
  lemma SuccessOnThirdAttempt(world: nat -> Attempt)
    requires !Ends(world(0)) && !Ends(world(1)) && Succeeds(world(2))
    ensures Tries(world, 3) == 2
    ensures Downloads(world, 3)
  {
  }
}
