/**
  The three handlers wired together as intended: the upload handler's queue
  message reaches the generator as a record whose body is that message, and
  the download handler reads what the generator wrote.
 */
module Pipeline {
  import opened Wrappers
  import opened Cloud
  import Upload
  import GenerateThumbnail
  import DownloadThumbnail

  /** A queue message as the generator receives it: a record whose JSON body
      carries the message's bucket and key. */
  function Deliver(m: Message): (rec: GenerateThumbnail.Record)
    ensures GenerateThumbnail.Source(rec) == Some(ObjectRef(m.bucket, m.key))
  {
    GenerateThumbnail.RecordFor(ObjectRef(m.bucket, m.key))
  }

  /** An upload request carrying every field. */
  function UploadRequest(filename: string, content: string, contentType: string): Upload.UploadEvent
  {
    Upload.UploadEvent(Some(Upload.RequestBody(Some(Upload.FileField(Some(filename), Some(content), Some(contentType))))))
  }

  /** A download request for one file name. */
  function DownloadRequest(fileName: string): DownloadThumbnail.DownloadEvent
  {
    DownloadThumbnail.DownloadEvent(Some(map["file_name" := fileName]))
  }

  /** An event holding just the delivery of `m`. */
  function SingleDelivery(m: Message): GenerateThumbnail.GenerateEvent
  {
    GenerateThumbnail.GenerateEvent(Some([Deliver(m)]))
  }

  /** The services do not fail on the writes a successful round needs. */
  predicate Cooperative(cfg: Config, filename: string, faults: Faults)
  {
    && ObjectRef(cfg.bucketName, filename) !in faults.deniedPuts
    && ObjectRef(cfg.bucketName, GenerateThumbnail.ThumbnailKey(filename)) !in faults.deniedPuts
    && !faults.queueDown
  }

  /** One delivered message is processed in one step. */
  lemma RunSingle(objects: map<ObjectRef, S3Object>, rec: GenerateThumbnail.Record, faults: Faults)
    requires GenerateThumbnail.Step(objects, rec, faults).Success?
    ensures GenerateThumbnail.Run(objects, [rec], 0, faults)
         == GenerateThumbnail.RunResult(GenerateThumbnail.Step(objects, rec, faults).value, None)
  {
    var next := GenerateThumbnail.Step(objects, rec, faults).value;
    assert GenerateThumbnail.Run(objects, [rec], 0, faults) == GenerateThumbnail.Run(next, [rec], 1, faults);
  }

  /**
    End to end: uploading an allowed file whose padded content decodes to `c`
    queues one message; handling that message and then asking for the file's
    thumbnail returns the encoding of exactly `c`.
   */
  lemma UploadGenerateDownload(w: World, cfg: Config, filename: string, content: string, contentType: string,
                               decode: string -> Option<Bytes>, b64encode: Bytes -> string, faults: Faults, c: Bytes)
    requires Upload.AllowedFile(filename)
    requires decode(Upload.CorrectBase64Padding(content)) == Some(c)
    requires Cooperative(cfg, filename, faults)
    ensures
      var up := Upload.Upload(w, UploadRequest(filename, content, contentType), cfg, decode, faults);
      && up.response.statusCode == 200
      && up.world.queue == w.queue + [Message(cfg.bucketName, filename)]
      && var gen := GenerateThumbnail.Generate(up.world.objects, SingleDelivery(Message(cfg.bucketName, filename)), faults);
      && gen.response.statusCode == 200
      && DownloadThumbnail.Download(gen.objects, cfg, DownloadRequest(filename), b64encode)
         == DownloadThumbnail.Response(200, DownloadThumbnail.ImageData(b64encode(c)))
  {
    var event := UploadRequest(filename, content, contentType);
    assert Upload.Acceptable(event, decode);
    var up := Upload.Upload(w, event, cfg, decode, faults);
    var src := ObjectRef(cfg.bucketName, filename);
    assert up.world.objects == w.objects[src := S3Object(c, Some(contentType))];
    var rec := Deliver(Message(cfg.bucketName, filename));
    RunSingle(up.world.objects, rec, faults);
    var gen := GenerateThumbnail.Generate(up.world.objects, SingleDelivery(Message(cfg.bucketName, filename)), faults);
    assert gen.objects[GenerateThumbnail.ThumbnailOf(src)].body == c;
    assert DownloadThumbnail.FileName(DownloadRequest(filename)) == Some(filename);
  }

  /** Between the upload and the generator's run the thumbnail is not there
      yet, so asking for it fails, while the original is already stored. */
  lemma ThumbnailMissingBeforeGeneration(w: World, cfg: Config, filename: string, content: string, contentType: string,
                                         decode: string -> Option<Bytes>, b64encode: Bytes -> string, faults: Faults)
    requires ObjectRef(cfg.bucketName, GenerateThumbnail.ThumbnailKey(filename)) !in w.objects
    ensures
      var up := Upload.Upload(w, UploadRequest(filename, content, contentType), cfg, decode, faults);
      && DownloadThumbnail.Download(up.world.objects, cfg, DownloadRequest(filename), b64encode)
         == DownloadThumbnail.Response(500, DownloadThumbnail.Failed(DownloadThumbnail.NoSuchKey))
      && (up.response.statusCode == 200 ==> ObjectRef(cfg.bucketName, filename) in up.world.objects)
  {
    var event := UploadRequest(filename, content, contentType);
    var up := Upload.Upload(w, event, cfg, decode, faults);
    var src := ObjectRef(cfg.bucketName, filename);
    var thumb := GenerateThumbnail.ThumbnailOf(src);
    assert up.world.objects.Keys <= w.objects.Keys + {src} by {
      if Upload.Acceptable(event, decode) {
        assert Upload.Validate(event, decode).value.filename == filename;
      }
    }
    assert DownloadThumbnail.FileName(DownloadRequest(filename)) == Some(filename);
  }

  /** A thumbnail's name passes the upload check whenever the original's
      does: the text after its last dot is the original's extension. */
  lemma ThumbnailNameUploadable(f: string)
    requires Upload.AllowedFile(f)
    ensures Upload.AllowedFile(GenerateThumbnail.ThumbnailKey(f))
  {
    GenerateThumbnail.ThumbnailKeyKeepsExtension(f);
  }

  /** An accepted upload under `name` answers 200 and stores the decoded bytes there. */
  lemma UploadStores(w: World, cfg: Config, name: string, content: string, contentType: string,
                     decode: string -> Option<Bytes>, faults: Faults, c: Bytes)
    requires Upload.AllowedFile(name)
    requires decode(Upload.CorrectBase64Padding(content)) == Some(c)
    requires ObjectRef(cfg.bucketName, name) !in faults.deniedPuts && !faults.queueDown
    ensures
      var up := Upload.Upload(w, UploadRequest(name, content, contentType), cfg, decode, faults);
      && up.response.statusCode == 200
      && ObjectRef(cfg.bucketName, name) in up.world.objects
      && up.world.objects[ObjectRef(cfg.bucketName, name)].body == c
  {
    assert Upload.Acceptable(UploadRequest(name, content, contentType), decode);
  }

  /**
    Uploads and thumbnails share one key space, and the name of a thumbnail is
    an allowed upload name. So an upload under the thumbnail name of `f` (for
    instance "img-thumbnail.png" for "img.png") replaces what downloading the
    thumbnail of `f` returns, whatever the generator wrote there before.
   */
  lemma UploadOverThumbnail(w: World, cfg: Config, f: string, content: string, contentType: string,
                            decode: string -> Option<Bytes>, b64encode: Bytes -> string, faults: Faults, c: Bytes)
    requires Upload.AllowedFile(f)
    requires decode(Upload.CorrectBase64Padding(content)) == Some(c)
    requires DownloadThumbnail.ThumbnailLocation(cfg, f) !in faults.deniedPuts && !faults.queueDown
    ensures
      var up := Upload.Upload(w, UploadRequest(GenerateThumbnail.ThumbnailKey(f), content, contentType), cfg, decode, faults);
      && up.response.statusCode == 200
      && DownloadThumbnail.Download(up.world.objects, cfg, DownloadRequest(f), b64encode)
         == DownloadThumbnail.Response(200, DownloadThumbnail.ImageData(b64encode(c)))
  {
    var name := GenerateThumbnail.ThumbnailKey(f);
    ThumbnailNameUploadable(f);
    UploadStores(w, cfg, name, content, contentType, decode, faults, c);
    assert DownloadThumbnail.FileName(DownloadRequest(f)) == Some(f);
  }

  /** The same round against live services, through the handlers' own
      methods: upload, handle the message the upload queued, download. */
  method UploadThenThumbnail(svc: Services, cfg: Config, filename: string, content: string, contentType: string,
                             decode: string -> Option<Bytes>, b64encode: Bytes -> string, faults: Faults, ghost c: Bytes)
    returns (download: DownloadThumbnail.Response)
    requires Upload.AllowedFile(filename)
    requires decode(Upload.CorrectBase64Padding(content)) == Some(c)
    requires Cooperative(cfg, filename, faults)
    modifies svc
    ensures download == DownloadThumbnail.Response(200, DownloadThumbnail.ImageData(b64encode(c)))
    ensures svc.queue == old(svc.queue) + [Message(cfg.bucketName, filename)]
    ensures svc.objects == old(svc.objects)
      [ObjectRef(cfg.bucketName, filename) := S3Object(c, Some(contentType))]
      [ObjectRef(cfg.bucketName, GenerateThumbnail.ThumbnailKey(filename)) := S3Object(c, None)]
  {
    ghost var w := svc.State();
    UploadGenerateDownload(w, cfg, filename, content, contentType, decode, b64encode, faults, c);
    var uploaded := Upload.UploadHandler(svc, UploadRequest(filename, content, contentType), cfg, decode, faults);
    assert Upload.Acceptable(UploadRequest(filename, content, contentType), decode);
    var m := svc.queue[|svc.queue| - 1];
    assert m == Message(cfg.bucketName, filename);
    ghost var stored := svc.objects;
    GenerateThumbnail.StepCopies(stored, ObjectRef(cfg.bucketName, filename), faults);
    RunSingle(stored, Deliver(m), faults);
    var generated := GenerateThumbnail.GenerateHandler(svc, SingleDelivery(m), faults);
    download := DownloadThumbnail.Download(svc.objects, cfg, DownloadRequest(filename), b64encode);
  }
}
