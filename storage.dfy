/** The MinIO object store as the DAG sees it through `S3Hook.load_bytes`. */
module Storage {

  newtype Byte = x: int | 0 <= x < 256

  type Bytes = seq<Byte>

  /** Where an object lives: a bucket and a key inside it. */
  datatype ObjectId = ObjectId(bucket: string, key: string)

  /** The objects of every bucket, updated in place by uploads. */
  class ObjectStore {
    var objects: map<ObjectId, Bytes>

    constructor (initial: map<ObjectId, Bytes>)
      ensures objects == initial
    {
      objects := initial;
    }

    /** `hook.load_bytes(content, key=key, bucket_name=bucket)` when it
        returns normally: the object under (bucket, key) now holds `content`
        and every other object is as it was. */
    method LoadBytes(content: Bytes, key: string, bucket: string)
      modifies this
      ensures objects == old(objects)[ObjectId(bucket, key) := content]
    {
      objects := objects[ObjectId(bucket, key) := content];
    }
  }
}
