/**
 * The object store the cleaner reads from and writes to: the buckets
 * reached through the storage service client. Only the two calls the
 * handler makes are modelled, reading an object and writing one.
 */
module Storage {
  import opened Wrappers

  type Row = seq<string>

  datatype ObjectRef = ObjectRef(bucket: string, key: string)

  /** An object's body as the handler sees it after UTF-8 decoding and CSV
      parsing: the rows it holds, or the text of the error that decoding
      or parsing raises on it. */
  datatype Body = Csv(rows: seq<Row>) | Unreadable(reason: string)

  /** The text of the client error raised when reading a key that does
      not exist. */
  const NoSuchKeyMessage := "An error occurred (NoSuchKey) when calling the GetObject operation: The specified key does not exist."

  class ObjectStore {
    var objects: map<ObjectRef, Body>

    constructor (initial: map<ObjectRef, Body>)
      ensures objects == initial
    {
      objects := initial;
    }

    /** `get_object`: the stored body, or the service's error for a
        missing key; the store is not changed. */
    method GetObject(ref: ObjectRef) returns (r: Result<Body, string>)
      ensures r.Success? <==> ref in objects
      ensures r.Success? ==> r.value == objects[ref]
      ensures r.Failure? ==> r.error == NoSuchKeyMessage
    {
      if ref in objects {
        r := Success(objects[ref]);
      } else {
        r := Failure(NoSuchKeyMessage);
      }
    }

    /** `put_object`: stores `body` under `ref`, replacing any object
        already there; every other object is left as it was. */
    method PutObject(ref: ObjectRef, body: Body)
      modifies this
      ensures objects == old(objects)[ref := body]
    {
      objects := objects[ref := body];
    }
  }
}
