/** The `load_to_minio` task: download every URL with up to three attempts
    and upload what was downloaded. */
module Loader {
  import opened Storage
  import opened LoadSpec
  import Keys

  class Loader {
    /** The object store behind `S3Hook`. */
    const store: ObjectStore
    /** The events printed so far. */
    var log: seq<Event>
    /** The durations of the sleeps so far, in seconds. */
    var sleeps: seq<nat>
    /** The download calls made so far. */
    var requests: seq<Request>

    constructor (store: ObjectStore)
      ensures this.store == store
      ensures log == [] && sleeps == [] && requests == []
    {
      this.store := store;
      log, sleeps, requests := [], [], [];
    }

    /** The current state, with `crashed` saying whether the task has raised. */
    function Snapshot(crashed: bool): RunState
      reads this, store
    {
      RunState(log, sleeps, requests, store.objects, crashed)
    }

    /** The loop of `load_to_minio` over `data`, with `bucket` the bucket
        name resolved once before the loop. `completed` is false when an
        GET or upload raised an exception other than a request error, which ends
        the task on the spot. */
    method LoadToMinio(data: seq<string>, bucket: string, net: Network) returns (completed: bool)
      modifies this, store
      ensures Snapshot(!completed) == Run(old(Snapshot(false)), data, bucket, net, |data|)
    {
      ghost var s0 := Snapshot(false);
      for i := 0 to |data|
        invariant Snapshot(false) == Run(s0, data, bucket, net, i)
      {
        completed := LoadOne(data[i], i, bucket, net);
        ItemAdvances(s0, data, bucket, net, i, Snapshot(!completed));
        if !completed {
          return;
        }
      }
      completed := true;
    }

    /** The inner loop for the URL at index `i`: up to three attempts, a
        `break` after the first upload, and the final failure message only
        when no attempt broke out. */
    method LoadOne(url: string, i: nat, bucket: string, net: Network) returns (completed: bool)
      modifies this, store
      ensures Snapshot(!completed) == Item(old(Snapshot(false)), url, bucket, net, i)
    {
      ghost var before := Snapshot(false);
      var uploaded := false;  // the `for ... else` of the source: set where it breaks
      for attempt := 0 to MaxAttempts
        invariant !uploaded
        invariant forall b :: 0 <= b < attempt ==> net(i, b).RequestFailed?
        invariant log == before.log + Warnings(url, attempt)
        invariant sleeps == before.sleeps + Delays(attempt)
        invariant requests == before.requests + Attempts(i, attempt)
        invariant store.objects == before.objects
      {
        requests := requests + [Request(i, attempt)];
        match net(i, attempt)
        case Fetched(content) =>
          var key := Keys.FileName(url);
          store.LoadBytes(content, key, bucket);
          log := log + [Uploaded(key, bucket)];
          uploaded := true;
          assert StopAttempt(net, i) == attempt;
          break;
        case Uncaught =>
          // not a RequestException: it leaves both loops and the task
          assert StopAttempt(net, i) == attempt;
          return false;
        case RequestFailed =>
          log := log + [AttemptFailed(url, attempt + 1)];
          sleeps := sleeps + [RetryDelay];
      }
      if !uploaded {
        assert StopAttempt(net, i) == MaxAttempts;
        log := log + [GaveUp(url)];
      }
      completed := true;
    }
  }
}
