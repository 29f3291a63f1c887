/** Properties of `load_to_minio`, proved about the functions of `LoadSpec`
    that its loops are verified against. */
module LoadFacts {
  import opened Storage
  import opened LoadSpec
  import Keys

  // ---------------------------------------------------------------------
  // Counting what a run leaves behind

  /** The number of "Attempt ... Failed" warnings in a log. */
  function CountWarnings(log: seq<Event>): nat
    decreases |log|
  {
    if |log| == 0 then 0
    else CountWarnings(log[..|log| - 1]) + (if log[|log| - 1].AttemptFailed? then 1 else 0)
  }

  /** The final message of each URL, in the order printed: an upload or a
      give-up. */
  function Outcomes(log: seq<Event>): seq<Event>
    decreases |log|
  {
    if |log| == 0 then []
    else Outcomes(log[..|log| - 1]) + (if log[|log| - 1].IsOutcome() then [log[|log| - 1]] else [])
  }

  /** The number of download calls that raised a request error. */
  function FailedRequests(requests: seq<Request>, net: Network): nat
    decreases |requests|
  {
    if |requests| == 0 then 0
    else
      var last := requests[|requests| - 1];
      FailedRequests(requests[..|requests| - 1], net) + (if net(last.item, last.attempt).RequestFailed? then 1 else 0)
  }

  /** The failed attempts of the first `m` URLs. */
  function FailedUpTo(net: Network, m: nat): nat {
    if m == 0 then 0 else FailedUpTo(net, m - 1) + StopAttempt(net, m - 1)
  }

  lemma {:induction false} CountWarningsAppend(a: seq<Event>, b: seq<Event>)
    ensures CountWarnings(a + b) == CountWarnings(a) + CountWarnings(b)
    decreases |b|
  {
    if b != [] {
      assert (a + b)[..|a + b| - 1] == a + b[..|b| - 1];
      CountWarningsAppend(a, b[..|b| - 1]);
    } else {
      assert a + b == a;
    }
  }

  lemma {:induction false} OutcomesAppend(a: seq<Event>, b: seq<Event>)
    ensures Outcomes(a + b) == Outcomes(a) + Outcomes(b)
    decreases |b|
  {
    if b != [] {
      assert (a + b)[..|a + b| - 1] == a + b[..|b| - 1];
      OutcomesAppend(a, b[..|b| - 1]);
    } else {
      assert a + b == a;
    }
  }

  lemma {:induction false} FailedRequestsAppend(a: seq<Request>, b: seq<Request>, net: Network)
    ensures FailedRequests(a + b, net) == FailedRequests(a, net) + FailedRequests(b, net)
    decreases |b|
  {
    if b != [] {
      assert (a + b)[..|a + b| - 1] == a + b[..|b| - 1];
      FailedRequestsAppend(a, b[..|b| - 1], net);
    } else {
      assert a + b == a;
    }
  }

  // ---------------------------------------------------------------------
  // The blocks one URL contributes

  /** The warnings for `n` failed attempts are numbered 1 to `n`, in order,
      and contain nothing but warnings. */
  lemma {:induction false} WarningsAt(url: string, n: nat)
    ensures |Warnings(url, n)| == n
    ensures forall j :: 0 <= j < n ==> Warnings(url, n)[j] == AttemptFailed(url, j + 1)
    ensures CountWarnings(Warnings(url, n)) == n
    ensures Outcomes(Warnings(url, n)) == []
  {
    if n > 0 {
      WarningsAt(url, n - 1);
      assert Warnings(url, n)[..n - 1] == Warnings(url, n - 1);
    }
  }

  /** Every sleep after a failed attempt lasts the same `RetryDelay`. */
  lemma {:induction false} DelaysAt(n: nat)
    ensures |Delays(n)| == n
    ensures forall j :: 0 <= j < n ==> Delays(n)[j] == RetryDelay
  {
    if n > 0 {
      DelaysAt(n - 1);
    }
  }

  /** The first `n` download calls for URL `i` are attempts 0 to `n - 1`, in order. */
  lemma {:induction false} AttemptsAt(i: nat, n: nat)
    ensures |Attempts(i, n)| == n
    ensures forall b :: 0 <= b < n ==> Attempts(i, n)[b] == Request(i, b)
  {
    if n > 0 {
      AttemptsAt(i, n - 1);
    }
  }

  /** When the first `n` attempts for URL `i` all raised request errors,
      each of those calls counts as failed. */
  lemma {:induction false} FailedAttempts(net: Network, i: nat, n: nat)
    requires forall b :: 0 <= b < n ==> net(i, b).RequestFailed?
    ensures FailedRequests(Attempts(i, n), net) == n
  {
    if n > 0 {
      FailedAttempts(net, i, n - 1);
      AttemptsAt(i, n);
      assert Attempts(i, n)[..n - 1] == Attempts(i, n - 1);
    }
  }

  // ---------------------------------------------------------------------
  // One URL

  /** Each URL ends in exactly one way: uploaded, given up (every attempt
      raised a request error), or the task crashed on it: its GET or its
      upload raised an exception other than a `RequestException`. */
  lemma ItemClassification(net: Network, i: nat)
    ensures Exhausted(net, i) <==> forall a :: 0 <= a < MaxAttempts ==> net(i, a).RequestFailed?
    ensures Succeeds(net, i) || Exhausted(net, i) || Crashes(net, i)
    ensures !(Succeeds(net, i) && Exhausted(net, i))
    ensures !(Succeeds(net, i) && Crashes(net, i))
    ensures !(Exhausted(net, i) && Crashes(net, i))
  {
  }

  /** For one URL, one to three download calls are made, attempts 0, 1, ...
      in order; every call but the last raised a request error, and the
      calls stop early only at an attempt that did not. */
  lemma ItemAttempts(net: Network, i: nat)
    ensures 1 <= Tries(net, i) <= MaxAttempts
    ensures |ItemCalls(net, i)| == Tries(net, i)
    ensures forall b :: 0 <= b < Tries(net, i) ==> ItemCalls(net, i)[b] == Request(i, b)
    ensures forall b :: 0 <= b < Tries(net, i) - 1 ==> net(i, b).RequestFailed?
    ensures Tries(net, i) < MaxAttempts ==> !net(i, Tries(net, i) - 1).RequestFailed?
  {
    AttemptsAt(i, Tries(net, i));
  }

  /** The message that ends the handling of URL `url` (index `i`) when the
      task does not crash on it. */
  function Terminal(url: string, bucket: string, net: Network, i: nat): Event {
    if Succeeds(net, i) then Uploaded(Keys.FileName(url), bucket) else GaveUp(url)
  }

  /** The terminal message of URL `i`, if the task does not crash on it. */
  function ItemTerminals(url: string, bucket: string, net: Network, i: nat): seq<Event> {
    if Crashes(net, i) then [] else [Terminal(url, bucket, net, i)]
  }

  /** The closing message of a URL is no warning; it is the URL's terminal
      message unless the task crashed, and a give-up exactly when all
      three attempts raised request errors. */
  lemma ClosingFacts(url: string, bucket: string, net: Network, i: nat)
    ensures CountWarnings(Closing(url, bucket, net, i)) == 0
    ensures Outcomes(Closing(url, bucket, net, i)) == ItemTerminals(url, bucket, net, i)
    ensures GaveUp(url) in Closing(url, bucket, net, i) <==> forall a :: 0 <= a < MaxAttempts ==> net(i, a).RequestFailed?
  {
    var closing := Closing(url, bucket, net, i);
    ItemClassification(net, i);
    if |closing| == 1 {
      assert closing[..0] == [];
    }
  }

  /** One URL prints one warning per failed attempt, numbered from 1, before
      anything else; a URL uploaded on attempt k (counted from 1) prints
      exactly k - 1 warnings and then its upload message, and nothing more. */
  lemma ItemWarnings(url: string, bucket: string, net: Network, i: nat)
    ensures StopAttempt(net, i) <= |ItemEvents(url, bucket, net, i)|
    ensures CountWarnings(ItemEvents(url, bucket, net, i)) == StopAttempt(net, i)
    ensures forall j :: 0 <= j < StopAttempt(net, i) ==> ItemEvents(url, bucket, net, i)[j] == AttemptFailed(url, j + 1)
    ensures Succeeds(net, i) ==>
      && |ItemEvents(url, bucket, net, i)| == StopAttempt(net, i) + 1
      && ItemEvents(url, bucket, net, i)[StopAttempt(net, i)] == Uploaded(Keys.FileName(url), bucket)
  {
    var k := StopAttempt(net, i);
    var warnings := Warnings(url, k);
    var closing := Closing(url, bucket, net, i);
    var events := ItemEvents(url, bucket, net, i);
    assert events == warnings + closing;
    CountWarningsAppend(warnings, closing);
    WarningsAt(url, k);
    ClosingFacts(url, bucket, net, i);
    forall j | 0 <= j < k ensures events[j] == AttemptFailed(url, j + 1) {
      assert events[j] == warnings[j];
    }
    if Succeeds(net, i) {
      assert closing == [Uploaded(Keys.FileName(url), bucket)];
      assert events[k] == closing[0];
    }
  }

  /** One URL adds exactly one terminal message, its own, unless the task
      crashes on it. */
  lemma ItemOutcomes(url: string, bucket: string, net: Network, i: nat)
    ensures Outcomes(ItemEvents(url, bucket, net, i)) == ItemTerminals(url, bucket, net, i)
  {
    var k := StopAttempt(net, i);
    var warnings := Warnings(url, k);
    var closing := Closing(url, bucket, net, i);
    assert ItemEvents(url, bucket, net, i) == warnings + closing;
    WarningsAt(url, k);
    OutcomesAppend(warnings, closing);
    ClosingFacts(url, bucket, net, i);
  }

  /** The final failure message for a URL is printed if and only if all
      three of its attempts raised request errors. */
  lemma ItemGaveUp(url: string, bucket: string, net: Network, i: nat)
    ensures GaveUp(url) in ItemEvents(url, bucket, net, i) <==> forall a :: 0 <= a < MaxAttempts ==> net(i, a).RequestFailed?
  {
    var k := StopAttempt(net, i);
    var warnings := Warnings(url, k);
    var closing := Closing(url, bucket, net, i);
    assert ItemEvents(url, bucket, net, i) == warnings + closing;
    WarningsAt(url, k);
    ClosingFacts(url, bucket, net, i);
  }

  /** One URL sleeps once after every failed attempt, always for
      `RetryDelay` seconds, and at no other time. */
  lemma ItemSleeps(net: Network, i: nat)
    ensures |ItemDelays(net, i)| == StopAttempt(net, i)
    ensures forall j :: 0 <= j < |ItemDelays(net, i)| ==> ItemDelays(net, i)[j] == RetryDelay
  {
    DelaysAt(StopAttempt(net, i));
  }

  /** The download calls of one URL that raised request errors are exactly
      its failed attempts, as many as its warnings and its sleeps. */
  lemma ItemFailedRequests(net: Network, i: nat)
    ensures FailedRequests(ItemCalls(net, i), net) == StopAttempt(net, i)
  {
    var k := StopAttempt(net, i);
    FailedAttempts(net, i, k);
    if k < MaxAttempts {
      var last := [Request(i, k)];
      assert Attempts(i, k + 1) == Attempts(i, k) + last;
      FailedRequestsAppend(Attempts(i, k), last, net);
      assert last[..0] == [];
    }
  }

  /** One URL writes to the store only after a download that passed the
      status check and an upload that returned, and then only the object
      under its own key in the given bucket, with the downloaded bytes. */
  lemma ItemStore(objects: map<ObjectId, Bytes>, url: string, bucket: string, net: Network, i: nat)
    ensures Stored(objects, url, bucket, net, i) != objects ==> Succeeds(net, i)
    ensures Succeeds(net, i) ==>
      exists content ::
        net(i, StopAttempt(net, i)) == Fetched(content) &&
        Stored(objects, url, bucket, net, i) == objects[ObjectId(bucket, Keys.FileName(url)) := content]
  {
    if Succeeds(net, i) {
      var content := net(i, StopAttempt(net, i)).content;
      assert net(i, StopAttempt(net, i)) == Fetched(content);
    }
  }
}
