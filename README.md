# Cats ETL DAG: a verified model of its transform and load steps

The repository is a single Airflow DAG, `my_cats_etl`. It fetches ten records
from a cat image search API (`extract`). It projects them onto their image
URLs (`transform`). Then it downloads every image and uploads it into a MinIO
bucket (`load_to_minio`).

This project models the sequential logic of the DAG:

- `transform`. This is the recursive function `Transformer.Transform` on
  records, which are maps from field names to values.
- The storage key derived from a URL (`url.split('/')[-1]`). This is
  `Keys.FileName`, defined on its own by recursion from the end of the
  URL. `Keys.FileNameIsLastPiece` proves it equal to the last piece of a
  model of Python's `str.split` (`Keys.Split`), whose inverse is
  `Keys.Join`.
- The retry loop of `load_to_minio`. This is the class `Loader.Loader`.
  - It keeps the printed events (`log`), the durations of the sleeps
    (`sleeps`) and the download calls (`requests`) as fields.
  - It updates a `Storage.ObjectStore`, whose `objects` map from
    (bucket, key) to bytes stands for MinIO.
  - `LoadOne` is the inner `for attempt in range(3)` loop. The source's
    `for … else` becomes an explicit `uploaded` flag, set where the source
    breaks.
  - `LoadToMinio` is the outer loop over the URLs.
  - The network is a parameter. `net(i, a)` is how attempt `a` for the URL
    at index `i` ends. `Fetched(bytes)` means the GET passed
    `raise_for_status` and `load_bytes` returned. `RequestFailed` means a
    `RequestException` was raised and caught. `Uncaught` means
    the GET or `load_bytes` raised something else, which nothing catches,
    so the task ends.
- Both loops are verified against the functions in `LoadSpec`:
  - `Item` is the closed form of one URL's handling.
  - `Run` is the first `n` URLs in input order, stopping at an uncaught
    error.
- The lemmas in `LoadFacts` state what one URL's handling promises: at most
  three attempts, stopping at the first one that gets through; one warning
  and one 2-second sleep per failed attempt; exactly one terminal message, unless an uncaught exception crashes the task;
  and a write only under the URL's key.
- The lemmas in `RunFacts` state what a whole run promises: the task fails
  only on an exception other than a `RequestException`, raised by the GET or by `load_bytes`; the terminal messages are one per URL,
  in input order; sleeps equal failed download calls; the download calls
  go through the URLs in order; and a store frame.
- `Dag.CatsEtl` composes `transform` and `load_to_minio`, as lines 73-74 of
  the DAG do.

The bucket name is an opaque input, resolved once before the loop. The
network's answers are an input. Sleeping is recorded, not performed.

## Model

| member | source | states |
|---|---|---|
| Transformer.Transform | dags/tutorial_taskflow_api_etl.py:37-43 | succeeds exactly when every record has `url`. Then the result has the input's length and its i-th element is record i's `url` value. Otherwise the error is `KeyError('url')` and no list is returned |
| Transformer.MissingUrlFails | dags/tutorial_taskflow_api_etl.py:41 | one record without `url`, anywhere in the input, makes the whole transform fail |
| Transformer.TransformAppend | dags/tutorial_taskflow_api_etl.py:41 | the projection is element-wise: transforming a concatenation gives the concatenation of the transforms |
| Keys.Split | dags/tutorial_taskflow_api_etl.py:61 | `str.split` with a one-character separator gives at least one piece. No piece contains the separator, and joining the pieces with the separator gives back the string |
| Keys.SplitJoin | dags/tutorial_taskflow_api_etl.py:61 | splitting a join of separator-free pieces gives back the pieces, so Split and Join are inverses |
| Keys.JoinLast | dags/tutorial_taskflow_api_etl.py:61 | the join of two or more pieces is the join of all but the last, a separator, and the last piece |
| Keys.FileName | dags/tutorial_taskflow_api_etl.py:61 | the key contains no `/` and is no longer than the URL |
| Keys.FileNameFacts | dags/tutorial_taskflow_api_etl.py:61 | the URL ends with its key. The part of the URL before the key is empty or ends in `/` |
| Keys.FileNameUnique | dags/tutorial_taskflow_api_etl.py:61 | those three properties determine the key: it is the longest `/`-free suffix of the URL |
| Keys.FileNameIsLastPiece | dags/tutorial_taskflow_api_etl.py:61 | the key is the last piece of `url.split('/')` |
| Keys.NoSeparatorKeepsUrl | dags/tutorial_taskflow_api_etl.py:61 | a URL without `/` is its own key |
| Keys.TrailingSeparatorGivesEmptyKey | dags/tutorial_taskflow_api_etl.py:61 | a URL ending in `/` yields the empty key |
| Storage.ObjectStore.LoadBytes | dags/tutorial_taskflow_api_etl.py:62 | a returning upload stores the content under (bucket, key) and leaves every other object unchanged |
| LoadSpec.StopAttempt | dags/tutorial_taskflow_api_etl.py:56-65 | the attempt at which the loop leaves its try block other than by a request error, or 3. Every earlier attempt raised a request error, and the stopping attempt did not |
| LoadSpec.Item | dags/tutorial_taskflow_api_etl.py:56-69 | the closed form of one URL's handling: the warnings and sleeps of the failed attempts, the download calls made, the closing message, the store after an upload, and whether an uncaught exception ended the task. It has no contract of its own; `Loader.Loader.LoadOne` is proved equal to it and the `LoadFacts` lemmas state its properties |
| LoadSpec.Run | dags/tutorial_taskflow_api_etl.py:55-69 | the closed form of the outer loop over the first n URLs, in input order, stopping at the first URL that crashed the task. It has no contract of its own; `Loader.Loader.LoadToMinio` is proved equal to it and the `RunFacts` lemmas state its properties |
| LoadSpec.RunStep | dags/tutorial_taskflow_api_etl.py:55-69 | while the task runs, the state after n URLs is the state after n-1 URLs followed by the handling of URL n-1: the URLs are handled one after the other, in input order |
| LoadSpec.HaltedStays | dags/tutorial_taskflow_api_etl.py:55-65 | once the task has raised an exception other than a `RequestException`, raised by the GET or by `load_bytes`, it stays failed, and no later URL is handled |
| LoadSpec.RunStopsAfterCrash | dags/tutorial_taskflow_api_etl.py:55-65 | after an exception other than a `RequestException`, raised by the GET or by `load_bytes`, no further URL changes anything |
| LoadSpec.ItemAdvances | dags/tutorial_taskflow_api_etl.py:55-69 | handling the next URL while the task runs gives the state after one more URL; if that URL crashes the task, it is the final state |
| Loader.Loader.LoadOne | dags/tutorial_taskflow_api_etl.py:56-69 | the retry loop for one URL leaves the log, sleeps, download calls, store and crash flag exactly as `Item` says |
| Loader.Loader.LoadToMinio | dags/tutorial_taskflow_api_etl.py:46-69 | the whole loop leaves the state exactly as `Run` says for all URLs. `completed` is false exactly when an exception other than a `RequestException`, raised by the GET or by `load_bytes` ended it |
| LoadFacts.CountWarningsAppend | dags/tutorial_taskflow_api_etl.py:66 | the warnings of two logs one after the other are the warnings of each, added |
| LoadFacts.OutcomesAppend | dags/tutorial_taskflow_api_etl.py:63-69 | the terminal messages of two logs one after the other are those of the first followed by those of the second |
| LoadFacts.FailedRequestsAppend | dags/tutorial_taskflow_api_etl.py:58-65 | the failed download calls of two call lists one after the other are those of each, added |
| LoadFacts.WarningsAt | dags/tutorial_taskflow_api_etl.py:66 | the warnings for n failed attempts are numbered 1 to n, in order, and hold no terminal message |
| LoadFacts.DelaysAt | dags/tutorial_taskflow_api_etl.py:67 | the sleeps after n failed attempts are n sleeps of 2 seconds |
| LoadFacts.AttemptsAt | dags/tutorial_taskflow_api_etl.py:56-58 | the first n download calls for a URL are attempts 0 to n-1, in order |
| LoadFacts.ItemClassification | dags/tutorial_taskflow_api_etl.py:56-69 | each URL ends exactly one way: uploaded, given up, or crashed by an exception other than a `RequestException`, raised by the GET or by `load_bytes`. It is given up if and only if all three attempts raised request errors |
| LoadFacts.ItemAttempts | dags/tutorial_taskflow_api_etl.py:56-64 | one URL gets 1 to 3 download calls, numbered 0, 1, 2 in order. Every call but the last raised a request error, and the calls stop at the first one that did not |
| LoadFacts.ClosingFacts | dags/tutorial_taskflow_api_etl.py:63-69 | a URL's closing message is never a warning. It is the URL's terminal message unless the task crashed, and a give-up exactly when all three attempts failed |
| LoadFacts.ItemWarnings | dags/tutorial_taskflow_api_etl.py:56-66 | one URL adds one warning per failed attempt, numbered from 1. A URL uploaded on attempt k adds exactly the warnings numbered 1 to k-1, then its upload message, and nothing more |
| LoadFacts.ItemOutcomes | dags/tutorial_taskflow_api_etl.py:63-69 | one URL adds exactly one terminal message, its own, unless an exception other than a `RequestException`, raised by the GET or by `load_bytes` crashed the task |
| LoadFacts.ItemGaveUp | dags/tutorial_taskflow_api_etl.py:56-69 | the "failed after 3 attempts" message is printed for a URL if and only if all three of its attempts raised request errors |
| LoadFacts.ItemSleeps | dags/tutorial_taskflow_api_etl.py:65-67 | one URL sleeps once per failed attempt, for 2 seconds each time, and at no other time |
| LoadFacts.ItemFailedRequests | dags/tutorial_taskflow_api_etl.py:56-65 | the download calls of one URL that raised request errors are exactly its failed attempts, as many as its warnings and its sleeps |
| LoadFacts.ItemStore | dags/tutorial_taskflow_api_etl.py:58-62 | the store changes only for an uploaded URL. Then it changes only at (bucket, key of the URL), which holds the downloaded bytes |
| RunFacts.RunCrashes | dags/tutorial_taskflow_api_etl.py:55-65 | the task fails if and only if, for some URL, the GET or `load_bytes` raised an exception other than a `RequestException`. Exhausting retries never fails it |
| RunFacts.HandledUrls | dags/tutorial_taskflow_api_etl.py:55-65 | the outer loop handles every URL unless an exception other than a `RequestException`, raised by the GET or by `load_bytes` crashes the task, and then stops right after the first URL that crashed it |
| RunFacts.TerminalsAt | dags/tutorial_taskflow_api_etl.py:55-69 | without a crash, the expected terminal messages are one per URL, the i-th for the i-th URL |
| RunFacts.EventsOutcomes | dags/tutorial_taskflow_api_etl.py:55-69 | the terminal messages printed for the first m URLs are the expected ones, in input order |
| RunFacts.RunOutcomes | dags/tutorial_taskflow_api_etl.py:55-69 | when the task completes, there is one terminal message per URL, in input order. Each is "uploaded key to bucket" for a successful URL or "gave up" for an exhausted one, and each URL is in exactly one of the two groups |
| RunFacts.DelaysCount | dags/tutorial_taskflow_api_etl.py:65-67 | the first m URLs sleep once per failed attempt, always for 2 seconds |
| RunFacts.CallsFailed | dags/tutorial_taskflow_api_etl.py:56-65 | the download calls of the first m URLs that raised request errors are exactly their failed attempts |
| RunFacts.RunSleepsAccounted | dags/tutorial_taskflow_api_etl.py:55-67 | over a run, the sleeps are as many as the download calls that raised request errors, and every sleep lasts 2 seconds (no backoff growth) |
| RunFacts.AttemptsAppend | dags/tutorial_taskflow_api_etl.py:56-58 | appending the calls for the next URL after the calls for earlier URLs keeps them in order |
| RunFacts.CallsInOrder | dags/tutorial_taskflow_api_etl.py:55-58 | the download calls of the first m URLs go through the URLs in input order, each URL's attempts in order |
| RunFacts.RunRequests | dags/tutorial_taskflow_api_etl.py:55-58 | download calls go strictly in (URL index, attempt) order, with attempts below 3 and only for URLs the loop reached (none past the one that crashed the task): each URL is processed once, in input order |
| RunFacts.StoredFrame | dags/tutorial_taskflow_api_etl.py:58-62 | the first m URLs leave every object outside their uploaded keys as it was, and every uploaded key is present afterwards |
| RunFacts.RunStoreFrame | dags/tutorial_taskflow_api_etl.py:51-62 | objects other than (bucket, key of an uploaded URL) are unchanged, and all writes go to the single bucket. Every uploaded URL's object is present afterwards |
| Dag.CatsEtl | dags/tutorial_taskflow_api_etl.py:72-74 | if `transform` fails, the loader never runs and nothing changes. Otherwise the loader's state is `Run` over the transformed URLs from a fresh loader |

## Left out

- `extract` (lines 27-34) is a single HTTP GET and a JSON parse, which is pure I/O. `Dag.CatsEtl` takes its result as an input.
- The `@dag`/`@task` decorators, scheduling, and the `retries=3, retry_delay=5s` setting on `extract` (lines 13-19, 26) belong to Airflow, not to this code. The code configures retries for `extract` only, so no stage retry is modelled.
- Airflow's XCom passing between the tasks is modelled as a plain sequential composition.
- The `S3Hook` connection lookup and the JSON parse of its extra (lines 51-53) are left out. The bucket name is an input.
- `requests.get` with `timeout=5`, HTTP status semantics and `raise_for_status` are one outcome, `RequestFailed`, given by the network parameter. The message text of the exception is not modelled.
- `time.sleep(2)` is recorded as a duration in `sleeps`. No time passes.
- The printed lines are modelled as event kinds with the values they show. The `print` in `transform` (line 42) is not modelled.
- `load_bytes` on an existing key: overwriting or raising happens inside the library. A returning upload is modelled as overwriting the key. A raising one is `Uncaught`, modelled as writing nothing and ending the task, like a GET that raises something other than a `RequestException`.
- Storage.ObjectStore.LoadBytes: states only the effect of a returning call; the library's own checks are not modelled.
- Upload errors, and GET errors that are not a `RequestException`, are not retried. The code catches only `RequestException` (line 65), so such an error ends the task.
- `load_to_minio` returns nothing and keeps no report of its own. What it reports is its printed terminal messages, modelled by `LoadFacts.Outcomes`.
- A record without `url` makes `transform` raise `KeyError('url')` (line 41); the model returns that error.
- `transform` yields whatever value a record holds under `url`. The `List[str]` annotation is not enforced, so `Transformer.Transform` is generic in the value type.
- `LoadSpec.StopAttempt` lists the three attempts of `range(3)` case by case instead of recursing on the attempt number, which keeps the proofs about it small.
- RunFacts.RunSleepsAccounted: relates the sleeps of a run to its failed download calls only. The number of warnings equals the failed attempts per URL (`LoadFacts.ItemWarnings`); that count is not restated over a whole run.
- `Dag.CatsEtl` takes records whose field values are all strings, because the loader needs each `url` to be a string. The real search response also holds integer fields such as `width` and `height`, which this type cannot hold; `transform` reads only `url`, so no behaviour is lost. `Transformer.Transform` itself is generic in the value type.
