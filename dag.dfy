/** The task chain of `my_cats_etl` after `extract`: the extracted records
    go to `transform`, and its URLs to `load_to_minio`. */
module Dag {
  import opened Transformer
  import opened Storage
  import opened LoadSpec
  import Loader

  datatype RunStatus =
    | TransformFailed(error: TransformError)  // `transform` raised; the loader never ran
    | LoadFinished(completed: bool)           // the loader ran; false if it raised

  /** Runs `transform` on the extracted records and, if it returns, a fresh
      `load_to_minio` on its URLs against `store`. */
  method CatsEtl(extracted: seq<Record<string>>, bucket: string, net: Network, store: ObjectStore)
    returns (status: RunStatus, loader: Loader.Loader)
    modifies store
    ensures fresh(loader) && loader.store == store
    ensures Transform(extracted).Err? ==>
      && status == TransformFailed(KeyError(UrlField))
      && loader.Snapshot(false) == RunState([], [], [], old(store.objects), false)
    ensures Transform(extracted).Ok? ==>
      && status.LoadFinished?
      && var urls := Transform(extracted).value;
         loader.Snapshot(!status.completed) == Run(RunState([], [], [], old(store.objects), false), urls, bucket, net, |urls|)
  {
    loader := new Loader.Loader(store);
    match Transform(extracted)
    case Err(e) =>
      status := TransformFailed(e);
    case Ok(urls) =>
      var completed := loader.LoadToMinio(urls, bucket, net);
      status := LoadFinished(completed);
  }
}
