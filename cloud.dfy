/**
  The managed services the handlers talk to, reduced to their state: an
  object store (a map from bucket and key to an object) and one message
  queue (a sequence of messages). The deployment settings are opaque
  constants, and the failures the services may raise are an explicit
  `Faults` value.
 */
module Cloud {
  import opened Wrappers

  newtype byte = b: int | 0 <= b < 256
  type Bytes = seq<byte>

  /** The settings each handler reads from the environment. */
  datatype Config = Config(bucketName: string, queueName: string)

  /** Where an object lives. */
  datatype ObjectRef = ObjectRef(bucket: string, key: string)

  /** A stored object: its body and, when the writer gave one, its content type. */
  datatype S3Object = S3Object(body: Bytes, contentType: Option<string>)

  /** A queue message asking for the thumbnail of one stored object. */
  datatype Message = Message(bucket: string, key: string)

  /** The service failures an invocation meets: the writes the store refuses
      (permissions, throttling, network) and whether the queue refuses sends. */
  datatype Faults = Faults(deniedPuts: set<ObjectRef>, queueDown: bool)

  /** A snapshot of both services. */
  datatype World = World(objects: map<ObjectRef, S3Object>, queue: seq<Message>)

  /** The store and the queue, as the handlers' clients see them. */
  class Services {
    var objects: map<ObjectRef, S3Object>
    var queue: seq<Message>

    function State(): World
      reads this
    {
      World(objects, queue)
    }

    constructor (w: World)
      ensures State() == w
    {
      objects := w.objects;
      queue := w.queue;
    }

    /** `get_object`: the object at `ref`, or nothing (the client raises `NoSuchKey`). */
    method GetObject(ref: ObjectRef) returns (r: Option<S3Object>)
      ensures r.Some? <==> ref in objects
      ensures r.Some? ==> r.value == objects[ref]
    {
      if ref in objects {
        r := Some(objects[ref]);
      } else {
        r := None;
      }
    }

    /** `put_object`: overwrite whatever is at `ref`, unless the store refuses. */
    method PutObject(ref: ObjectRef, obj: S3Object, faults: Faults) returns (ok: bool)
      modifies this`objects
      ensures ok <==> ref !in faults.deniedPuts
      ensures objects == if ok then old(objects)[ref := obj] else old(objects)
    {
      ok := ref !in faults.deniedPuts;
      if ok {
        objects := objects[ref := obj];
      }
    }

    /** `send_message`: append `m` to the queue, unless the queue refuses. */
    method SendMessage(m: Message, faults: Faults) returns (ok: bool)
      modifies this`queue
      ensures ok <==> !faults.queueDown
      ensures queue == if ok then old(queue) + [m] else old(queue)
    {
      ok := !faults.queueDown;
      if ok {
        queue := queue + [m];
      }
    }
  }
}
