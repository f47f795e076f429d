/**
 * The object store as the coordinator sees it: a bucket mapping keys to
 * bytes. Each call's backend failure is an injected flag.
 */
module ObjectStore {
  import opened Types

  class Store {
    /** The bucket's contents. */
    var objects: map<string, Bytes>

    constructor (initial: map<string, Bytes>)
      ensures objects == initial
    {
      objects := initial;
    }

    /** Writes `content` under `key`, replacing any earlier object there. */
    method Upload(key: string, content: Bytes, fails: bool) returns (r: Result<(), StoreError>)
      modifies this
      ensures fails ==> r == Failure(Unavailable) && unchanged(this)
      ensures !fails ==> r == Success(()) && objects == old(objects)[key := content]
    {
      if fails {
        return Failure(Unavailable);
      }
      objects := objects[key := content];
      r := Success(());
    }

    /** Reads back the bytes stored under `key`; a missing key is an error. */
    method Download(key: string, fails: bool) returns (r: Result<Bytes, StoreError>)
      ensures r.Success? <==> !fails && key in objects
      ensures r.Success? ==> r.value == objects[key]
      ensures fails ==> r == Failure(Unavailable)
      ensures !fails && key !in objects ==> r == Failure(NoSuchKey)
    {
      if fails {
        return Failure(Unavailable);
      }
      if key !in objects {
        return Failure(NoSuchKey);
      }
      r := Success(objects[key]);
    }

    /** Removes the object under `key`; removing an absent key is not an error. */
    method Delete(key: string, fails: bool) returns (r: Result<(), StoreError>)
      modifies this
      ensures fails ==> r == Failure(Unavailable) && unchanged(this)
      ensures !fails ==> r == Success(()) && objects == old(objects) - {key}
      ensures !fails ==> key !in objects
    {
      if fails {
        return Failure(Unavailable);
      }
      objects := objects - {key};
      r := Success(());
    }
  }
}
