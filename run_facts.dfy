/** Properties of a whole run of `load_to_minio`: how far its outer loop
    gets, and what the log, the sleeps, the download calls and the store
    hold afterwards. */
module RunFacts {
  import opened Storage
  import opened LoadSpec
  import opened LoadFacts
  import Keys

  // ---------------------------------------------------------------------
  // How far the outer loop gets

  /** The task fails exactly when the GET or the upload of one of the URLs
      raises an exception other than a request error; a URL that exhausts its
      retries does not make it fail. */
  lemma {:induction false} RunCrashes(net: Network, n: nat)
    ensures Halted(net, n) <==> exists i :: 0 <= i < n && Crashes(net, i)
    decreases n
  {
    if n > 0 {
      RunCrashes(net, n - 1);
      if Crashes(net, n - 1) {
        assert exists i :: 0 <= i < n && Crashes(net, i);
      }
    }
  }

  /** The outer loop handles every URL when no uncaught exception crashes
      the task, and otherwise stops right after the first URL that crashed it:
      a URL that exhausts its retries does not stop the later ones. */
  lemma {:induction false} HandledUrls(net: Network, n: nat)
    ensures !Halted(net, n) ==> Handled(net, n) == n
    ensures Halted(net, n) ==>
      && 0 < Handled(net, n)
      && Crashes(net, Handled(net, n) - 1)
      && !Halted(net, Handled(net, n) - 1)
    decreases n
  {
    if n > 0 {
      HandledUrls(net, n - 1);
    }
  }

  // ---------------------------------------------------------------------
  // The final messages

  /** The final messages expected from the first `m` URLs, in input order:
      the terminal message of each URL that did not crash the task. */
  function Terminals(urls: seq<string>, bucket: string, net: Network, m: nat): seq<Event>
    requires m <= |urls|
  {
    if m == 0 then [] else Terminals(urls, bucket, net, m - 1) + ItemTerminals(urls[m - 1], bucket, net, m - 1)
  }

  /** Without a crash, there is one terminal message per URL, the i-th for
      the i-th URL. */
  lemma {:induction false} TerminalsAt(urls: seq<string>, bucket: string, net: Network, m: nat)
    requires m <= |urls| && !Halted(net, m)
    ensures |Terminals(urls, bucket, net, m)| == m
    ensures forall i :: 0 <= i < m ==> Terminals(urls, bucket, net, m)[i] == Terminal(urls[i], bucket, net, i)
  {
    if m > 0 {
      TerminalsAt(urls, bucket, net, m - 1);
    }
  }

  /** The final messages of the first `i + 1` URLs are those of the first
      `i` and those of URL `i`. */
  lemma EventsOutcomesSplit(urls: seq<string>, bucket: string, net: Network, i: nat)
    requires i < |urls|
    ensures Outcomes(Events(urls, bucket, net, i + 1)) ==
      Outcomes(Events(urls, bucket, net, i)) + Outcomes(ItemEvents(urls[i], bucket, net, i))
  {
    OutcomesAppend(Events(urls, bucket, net, i), ItemEvents(urls[i], bucket, net, i));
  }

  /** URL `i` adds its terminal message, unless the task crashes on it. */
  lemma OutcomesStep(urls: seq<string>, bucket: string, net: Network, i: nat)
    requires i < |urls|
    requires Outcomes(Events(urls, bucket, net, i)) == Terminals(urls, bucket, net, i)
    ensures Outcomes(Events(urls, bucket, net, i + 1)) == Terminals(urls, bucket, net, i + 1)
  {
    EventsOutcomesSplit(urls, bucket, net, i);
    ItemOutcomes(urls[i], bucket, net, i);
  }

  /** `OutcomesStep` for the last of the first `m` URLs. */
  lemma OutcomesLast(urls: seq<string>, bucket: string, net: Network, m: nat)
    requires 0 < m <= |urls|
    requires Outcomes(Events(urls, bucket, net, m - 1)) == Terminals(urls, bucket, net, m - 1)
    ensures Outcomes(Events(urls, bucket, net, m)) == Terminals(urls, bucket, net, m)
  {
    OutcomesStep(urls, bucket, net, m - 1);
  }

  /** The final messages of the first `m` URLs are their terminal messages,
      in input order. */
  lemma {:induction false} EventsOutcomes(urls: seq<string>, bucket: string, net: Network, m: nat)
    requires m <= |urls|
    ensures Outcomes(Events(urls, bucket, net, m)) == Terminals(urls, bucket, net, m)
    decreases m
  {
    if m > 0 {
      EventsOutcomes(urls, bucket, net, m - 1);
      OutcomesLast(urls, bucket, net, m);
    }
  }

  /** Every URL is handled exactly once, in input order: when a run from an
      empty log does not crash, its final messages are one per URL, in the
      order of the input, each an upload of that URL's key to the bucket
      (when it succeeded) or a give-up for that URL (when every attempt
      failed), and each URL is in exactly one of the two groups. */
  lemma RunOutcomes(s0: RunState, urls: seq<string>, bucket: string, net: Network, n: nat)
    requires !s0.crashed && s0.log == [] && n <= |urls|
    requires !Run(s0, urls, bucket, net, n).crashed
    ensures |Outcomes(Run(s0, urls, bucket, net, n).log)| == n
    ensures forall i :: 0 <= i < n ==>
      Outcomes(Run(s0, urls, bucket, net, n).log)[i] ==
        if Succeeds(net, i) then Uploaded(Keys.FileName(urls[i]), bucket) else GaveUp(urls[i])
    ensures forall i :: 0 <= i < n ==> Succeeds(net, i) != Exhausted(net, i)
  {
    HandledUrls(net, n);
    assert Run(s0, urls, bucket, net, n).log == Events(urls, bucket, net, n);
    EventsOutcomes(urls, bucket, net, n);
    TerminalsAt(urls, bucket, net, n);
    RunCrashes(net, n);
    forall i | 0 <= i < n ensures Succeeds(net, i) != Exhausted(net, i) {
      ItemClassification(net, i);
    }
  }

  // ---------------------------------------------------------------------
  // Sleeps and failed calls

  /** The first `m` URLs sleep once per failed attempt, always for
      `RetryDelay` seconds: a constant delay, with no growth from one
      attempt to the next. */
  lemma {:induction false} DelaysCount(net: Network, m: nat)
    ensures |AllDelays(net, m)| == FailedUpTo(net, m)
    ensures forall j :: 0 <= j < |AllDelays(net, m)| ==> AllDelays(net, m)[j] == RetryDelay
    decreases m
  {
    if m > 0 {
      var prev := AllDelays(net, m - 1);
      var delays := ItemDelays(net, m - 1);
      var all := AllDelays(net, m);
      DelaysCount(net, m - 1);
      ItemSleeps(net, m - 1);
      forall j | 0 <= j < |all| ensures all[j] == RetryDelay {
        if j < |prev| {
          assert all[j] == prev[j];
        } else {
          assert all[j] == delays[j - |prev|];
        }
      }
    }
  }

  /** The download calls of the first `m` URLs that raised request errors
      are exactly their failed attempts. */
  lemma {:induction false} CallsFailed(net: Network, m: nat)
    ensures FailedRequests(AllCalls(net, m), net) == FailedUpTo(net, m)
    decreases m
  {
    if m > 0 {
      CallsFailed(net, m - 1);
      FailedRequestsAppend(AllCalls(net, m - 1), ItemCalls(net, m - 1), net);
      ItemFailedRequests(net, m - 1);
    }
  }

  /** From a loader that has not slept or called out yet, a run sleeps
      exactly once per download call that raised a request error, every
      time for `RetryDelay` seconds. */
  lemma RunSleepsAccounted(s0: RunState, urls: seq<string>, bucket: string, net: Network, n: nat)
    requires !s0.crashed && s0.sleeps == [] && s0.requests == [] && n <= |urls|
    ensures |Run(s0, urls, bucket, net, n).sleeps| == FailedRequests(Run(s0, urls, bucket, net, n).requests, net)
    ensures forall j :: 0 <= j < |Run(s0, urls, bucket, net, n).sleeps| ==> Run(s0, urls, bucket, net, n).sleeps[j] == RetryDelay
  {
    var m := Handled(net, n);
    var t := Run(s0, urls, bucket, net, n);
    assert t.sleeps == AllDelays(net, m);
    assert t.requests == AllCalls(net, m);
    DelaysCount(net, m);
    CallsFailed(net, m);
  }

  // ---------------------------------------------------------------------
  // The order of the download calls

  /** Download call `r` comes before call `q`: an earlier URL, or the same
      URL and an earlier attempt. */
  predicate Before(r: Request, q: Request) {
    r.item < q.item || (r.item == q.item && r.attempt < q.attempt)
  }

  /** The calls are in strictly increasing order, all for URLs below `n`
      and all among the first `MaxAttempts` attempts. */
  predicate InOrder(requests: seq<Request>, n: nat) {
    && (forall j :: 0 <= j < |requests| ==> requests[j].item < n && requests[j].attempt < MaxAttempts)
    && (forall j1, j2 :: 0 <= j1 < j2 < |requests| ==> Before(requests[j1], requests[j2]))
  }

  /** Appending the calls for URL `i` after the calls for earlier URLs keeps
      them in order. */
  lemma AttemptsAppend(requests: seq<Request>, i: nat, m: nat)
    requires InOrder(requests, i) && m <= MaxAttempts
    ensures InOrder(requests + Attempts(i, m), i + 1)
  {
    AttemptsAt(i, m);
    var all := requests + Attempts(i, m);
    var r := |requests|;
    forall j | 0 <= j < |all| ensures all[j].item < i + 1 && all[j].attempt < MaxAttempts {
      if j >= r { assert all[j] == Attempts(i, m)[j - r]; }
    }
    forall j1, j2 | 0 <= j1 < j2 < |all| ensures Before(all[j1], all[j2]) {
      if j1 >= r {
        assert all[j1] == Attempts(i, m)[j1 - r];
        assert all[j2] == Attempts(i, m)[j2 - r];
      } else if j2 >= r {
        assert all[j2] == Attempts(i, m)[j2 - r];
      }
    }
  }

  /** The download calls of the first `m` URLs go through the URLs in input
      order, each URL's attempts in order. */
  lemma {:induction false} CallsInOrder(net: Network, m: nat)
    ensures InOrder(AllCalls(net, m), m)
    decreases m
  {
    if m > 0 {
      CallsInOrder(net, m - 1);
      ItemAttempts(net, m - 1);
      AttemptsAppend(AllCalls(net, m - 1), m - 1, Tries(net, m - 1));
    }
  }

  /** The download calls of a run go through the URLs in input order, each
      URL's attempts in order, never more than three of them for one URL
      and never a URL beyond those handled; so no call is repeated. */
  lemma RunRequests(s0: RunState, urls: seq<string>, bucket: string, net: Network, n: nat)
    requires !s0.crashed && s0.requests == [] && n <= |urls|
    ensures InOrder(Run(s0, urls, bucket, net, n).requests, Handled(net, n))
  {
    CallsInOrder(net, Handled(net, n));
  }

  // ---------------------------------------------------------------------
  // The store

  /** The objects the first `m` URLs may write: the key of every URL that
      is uploaded, in the one bucket resolved before the loop. */
  function Written(urls: seq<string>, bucket: string, net: Network, m: nat): set<ObjectId>
    requires m <= |urls|
  {
    set i | 0 <= i < m && Succeeds(net, i) :: ObjectId(bucket, Keys.FileName(urls[i]))
  }

  /** The first `m` URLs leave every object outside `Written` as it was
      (present with the same bytes, or absent), and every object in
      `Written` is present afterwards. */
  lemma {:induction false} StoredFrame(objects: map<ObjectId, Bytes>, urls: seq<string>, bucket: string, net: Network, m: nat)
    requires m <= |urls|
    ensures forall id :: id !in Written(urls, bucket, net, m) ==>
      (id in StoredUpTo(objects, urls, bucket, net, m) <==> id in objects) &&
      (id in objects ==> StoredUpTo(objects, urls, bucket, net, m)[id] == objects[id])
    ensures Written(urls, bucket, net, m) <= StoredUpTo(objects, urls, bucket, net, m).Keys
    decreases m
  {
    if m > 0 {
      var prev := StoredUpTo(objects, urls, bucket, net, m - 1);
      var after := StoredUpTo(objects, urls, bucket, net, m);
      StoredFrame(objects, urls, bucket, net, m - 1);
      ItemStore(prev, urls[m - 1], bucket, net, m - 1);
      forall id | id !in Written(urls, bucket, net, m)
        ensures (id in after <==> id in objects) && (id in objects ==> after[id] == objects[id])
      {
        assert id !in Written(urls, bucket, net, m - 1);
      }
      forall id | id in Written(urls, bucket, net, m) ensures id in after {
        var i :| 0 <= i < m && Succeeds(net, i) && id == ObjectId(bucket, Keys.FileName(urls[i]));
        if i < m - 1 {
          assert id in Written(urls, bucket, net, m - 1);
        }
      }
    }
  }

  /** A run writes only under the keys of the uploaded URLs among those it
      handled, in the one bucket, and leaves every other object as it was;
      every such key is present afterwards. */
  lemma RunStoreFrame(s0: RunState, urls: seq<string>, bucket: string, net: Network, n: nat)
    requires !s0.crashed && n <= |urls|
    ensures forall id :: id !in Written(urls, bucket, net, Handled(net, n)) ==>
      (id in Run(s0, urls, bucket, net, n).objects <==> id in s0.objects) &&
      (id in s0.objects ==> Run(s0, urls, bucket, net, n).objects[id] == s0.objects[id])
    ensures Written(urls, bucket, net, Handled(net, n)) <= Run(s0, urls, bucket, net, n).objects.Keys
  {
    StoredFrame(s0.objects, urls, bucket, net, Handled(net, n));
  }
}
