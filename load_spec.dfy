/** What one run of `load_to_minio` does, as functions of its inputs: the
    URLs, the bucket resolved before the loop, and the answers the network
    and the store give to every attempt. */
module LoadSpec {
  import opened Storage
  import Keys

  /** `for attempt in range(3)` */
  const MaxAttempts: nat := 3

  /** `time.sleep(2)` after every failed attempt: the same delay every time. */
  const RetryDelay: nat := 2

  /** How the body of one `try` ends. `Fetched`: the GET returned a
      non-error status with this content and `load_bytes` returned.
      `RequestFailed`: the GET or `raise_for_status` raised a
      `RequestException`, which is caught. `Uncaught`: the GET or `load_bytes`
      raised an exception that is not a `RequestException`; nothing catches
      it, so the call is recorded, nothing is printed, slept or written, and
      the task ends. */
  datatype Outcome = Fetched(content: Bytes) | RequestFailed | Uncaught

  /** The answer to attempt `a` (counted from 0) for the URL at index `i`. */
  type Network = (nat, nat) -> Outcome

  /** One `requests.get` call: attempt `attempt` for the URL at index `item`. */
  datatype Request = Request(item: nat, attempt: nat)

  /** The lines the loader prints, by kind. */
  datatype Event =
    | AttemptFailed(url: string, attempt: nat)  // "Attempt {attempt+1}: Failed to fetch {url}", numbered from 1
    | Uploaded(key: string, bucket: string)     // "Uploaded {file_name} to {bucket_name}"
    | GaveUp(url: string)                       // "Failed to fetch {url} after 3 attempts"
  {
    predicate IsOutcome() { Uploaded? || GaveUp? }
  }

  /** Everything a run can change: the printed events, the sleeps (their
      durations in seconds), the download calls, the store, and whether an
      uncaught exception ended the task. */
  datatype RunState = RunState(
    log: seq<Event>,
    sleeps: seq<nat>,
    requests: seq<Request>,
    objects: map<ObjectId, Bytes>,
    crashed: bool)

  /** The attempt at which the retry loop for URL `i` leaves its try block
      other than by a request error, or `MaxAttempts` when all three
      attempts fail that way. */
  function StopAttempt(net: Network, i: nat): (k: nat)
    ensures k <= MaxAttempts
    ensures forall b :: 0 <= b < k ==> net(i, b).RequestFailed?
    ensures k < MaxAttempts ==> !net(i, k).RequestFailed?
  {
    if !net(i, 0).RequestFailed? then 0
    else if !net(i, 1).RequestFailed? then 1
    else if !net(i, 2).RequestFailed? then 2
    else 3
  }

  /** How many download calls the loop makes for URL `i`. */
  function Tries(net: Network, i: nat): nat {
    var k := StopAttempt(net, i);
    if k < MaxAttempts then k + 1 else MaxAttempts
  }

  /** URL `i` is uploaded: some attempt got through the GET and the upload. */
  predicate Succeeds(net: Network, i: nat) {
    var k := StopAttempt(net, i);
    k < MaxAttempts && net(i, k).Fetched?
  }

  /** URL `i` is given up: every attempt raised a request error. */
  predicate Exhausted(net: Network, i: nat) {
    StopAttempt(net, i) == MaxAttempts
  }

  /** The GET or the upload for URL `i` raised an exception other than a
      `RequestException`, which the loop does not catch. */
  predicate Crashes(net: Network, i: nat) {
    var k := StopAttempt(net, i);
    k < MaxAttempts && net(i, k).Uncaught?
  }

  /** The warnings for the first `n` failed attempts at `url`. */
  function Warnings(url: string, n: nat): seq<Event> {
    if n == 0 then [] else Warnings(url, n - 1) + [AttemptFailed(url, n)]
  }

  /** The sleeps after the first `n` failed attempts. */
  function Delays(n: nat): seq<nat> {
    if n == 0 then [] else Delays(n - 1) + [RetryDelay]
  }

  /** The first `n` download calls for URL `i`. */
  function Attempts(i: nat, n: nat): seq<Request> {
    if n == 0 then [] else Attempts(i, n - 1) + [Request(i, n - 1)]
  }

  /** The message that closes the handling of URL `i`: the final failure
      message when every attempt raised a request error, the upload message
      after a successful upload, and nothing when an uncaught exception
      ended the task. */
  function Closing(url: string, bucket: string, net: Network, i: nat): seq<Event> {
    var k := StopAttempt(net, i);
    if k == MaxAttempts then [GaveUp(url)]
    else if net(i, k).Fetched? then [Uploaded(Keys.FileName(url), bucket)]
    else []
  }

  /** What handling URL `url` at index `i` prints: a warning per failed
      attempt up to the stopping one, then the closing message. */
  function ItemEvents(url: string, bucket: string, net: Network, i: nat): seq<Event> {
    Warnings(url, StopAttempt(net, i)) + Closing(url, bucket, net, i)
  }

  /** The sleeps of URL `i`: one after every failed attempt. */
  function ItemDelays(net: Network, i: nat): seq<nat> {
    Delays(StopAttempt(net, i))
  }

  /** The download calls made for URL `i`. */
  function ItemCalls(net: Network, i: nat): seq<Request> {
    Attempts(i, Tries(net, i))
  }

  /** The store after URL `i`: its content under the URL's key in the
      bucket when it was uploaded, and unchanged otherwise. */
  function Stored(objects: map<ObjectId, Bytes>, url: string, bucket: string, net: Network, i: nat): map<ObjectId, Bytes> {
    if Succeeds(net, i) then objects[ObjectId(bucket, Keys.FileName(url)) := net(i, StopAttempt(net, i)).content]
    else objects
  }

  /** The effect of the inner retry loop and its `else` for the URL at
      index `i`, started while the task is running. */
  function Item(s: RunState, url: string, bucket: string, net: Network, i: nat): RunState {
    RunState(
      s.log + ItemEvents(url, bucket, net, i),
      s.sleeps + ItemDelays(net, i),
      s.requests + ItemCalls(net, i),
      Stored(s.objects, url, bucket, net, i),
      Crashes(net, i))
  }

  // The outer loop. `Events`, `AllDelays`, `AllCalls` and `StoredUpTo`
  // describe the first `m` URLs handled one after the other, in input order;
  // `Handled` says how many URLs the loop reaches before an uncaught
  // exception ends the task.

  /** The GET or the upload of one of the first `n` URLs has raised an
      uncaught exception. */
  predicate Halted(net: Network, n: nat) {
    if n == 0 then false else Halted(net, n - 1) || Crashes(net, n - 1)
  }

  /** How many of the first `n` URLs the outer loop handles: all of them,
      or those up to and including the one whose uncaught exception ended
      the task. */
  function Handled(net: Network, n: nat): (m: nat)
    ensures m <= n
  {
    if n == 0 then 0 else if Halted(net, n - 1) then Handled(net, n - 1) else n
  }

  /** The events printed for the first `m` URLs. */
  function Events(urls: seq<string>, bucket: string, net: Network, m: nat): seq<Event>
    requires m <= |urls|
  {
    if m == 0 then [] else Events(urls, bucket, net, m - 1) + ItemEvents(urls[m - 1], bucket, net, m - 1)
  }

  /** The sleeps for the first `m` URLs. */
  function AllDelays(net: Network, m: nat): seq<nat> {
    if m == 0 then [] else AllDelays(net, m - 1) + ItemDelays(net, m - 1)
  }

  /** The download calls for the first `m` URLs. */
  function AllCalls(net: Network, m: nat): seq<Request> {
    if m == 0 then [] else AllCalls(net, m - 1) + ItemCalls(net, m - 1)
  }

  /** The store after the first `m` URLs. */
  function StoredUpTo(objects: map<ObjectId, Bytes>, urls: seq<string>, bucket: string, net: Network, m: nat): map<ObjectId, Bytes>
    requires m <= |urls|
  {
    if m == 0 then objects else Stored(StoredUpTo(objects, urls, bucket, net, m - 1), urls[m - 1], bucket, net, m - 1)
  }

  /** The state after the outer loop has gone through the first `n` URLs,
      starting from `s0` with the task running. */
  function Run(s0: RunState, urls: seq<string>, bucket: string, net: Network, n: nat): RunState
    requires !s0.crashed && n <= |urls|
  {
    var m := Handled(net, n);
    RunState(
      s0.log + Events(urls, bucket, net, m),
      s0.sleeps + AllDelays(net, m),
      s0.requests + AllCalls(net, m),
      StoredUpTo(s0.objects, urls, bucket, net, m),
      Halted(net, n))
  }

  /** While the task runs, handling one more URL is `Item`, whether or not
      that URL crashes the task. */
  lemma RunStep(s0: RunState, urls: seq<string>, bucket: string, net: Network, n: nat)
    requires !s0.crashed && 0 < n <= |urls|
    requires !Halted(net, n - 1)
    ensures Run(s0, urls, bucket, net, n) == Item(Run(s0, urls, bucket, net, n - 1), urls[n - 1], bucket, net, n - 1)
  {
    var m := n - 1;
    assert Handled(net, n) == n;
    assert Handled(net, m) == m by {
      if m > 0 {
        assert !Halted(net, m - 1);
      }
    }
    var url := urls[m];
    assert s0.log + Events(urls, bucket, net, n) == (s0.log + Events(urls, bucket, net, m)) + ItemEvents(url, bucket, net, m);
    assert s0.sleeps + AllDelays(net, n) == (s0.sleeps + AllDelays(net, m)) + ItemDelays(net, m);
    assert s0.requests + AllCalls(net, n) == (s0.requests + AllCalls(net, m)) + ItemCalls(net, m);
  }

  /** Once the task has crashed it stays crashed and the loop handles no
      more URLs. */
  lemma {:induction false} HaltedStays(net: Network, m: nat, n: nat)
    requires m <= n && Halted(net, m)
    ensures Halted(net, n) && Handled(net, n) == Handled(net, m)
    decreases n
  {
    if n > m {
      HaltedStays(net, m, n - 1);
    }
  }

  /** After the task has crashed, handling more URLs changes nothing. */
  lemma RunStopsAfterCrash(s0: RunState, urls: seq<string>, bucket: string, net: Network, m: nat, n: nat)
    requires !s0.crashed && m <= n <= |urls|
    requires Halted(net, m)
    ensures Run(s0, urls, bucket, net, n) == Run(s0, urls, bucket, net, m)
  {
    HaltedStays(net, m, n);
  }

  /** Handling URL `i` while the task runs leads to the state after `i + 1`
      URLs; when it crashes the task, that state is also the final one. */
  lemma ItemAdvances(s0: RunState, urls: seq<string>, bucket: string, net: Network, i: nat, t: RunState)
    requires !s0.crashed && i < |urls| && !Run(s0, urls, bucket, net, i).crashed
    requires t == Item(Run(s0, urls, bucket, net, i), urls[i], bucket, net, i)
    ensures t == Run(s0, urls, bucket, net, i + 1)
    ensures t.crashed ==> t == Run(s0, urls, bucket, net, |urls|)
  {
    RunStep(s0, urls, bucket, net, i + 1);
    if t.crashed {
      RunStopsAfterCrash(s0, urls, bucket, net, i + 1, |urls|);
    }
  }
}
