/**
  The thumbnail download handler (lambda/lambda_download_thumbnail.py): derive
  the thumbnail key from the requested file name and return the object stored
  there, base64-encoded. It only reads, and always from the configured bucket.
 */
module DownloadThumbnail {
  import opened Wrappers
  import opened Cloud
  import GenerateThumbnail

  /** The request's query string parameters; `None` when there are none. */
  datatype DownloadEvent = DownloadEvent(queryStringParameters: Option<map<string, string>>)

  datatype DownloadError = NoQueryParameters | MissingFileName | NoSuchKey
  datatype ResponseBody = ImageData(imageBase64: string) | Failed(error: DownloadError)
  datatype Response = Response(statusCode: int, body: ResponseBody)

  /** The `file_name` parameter, if the request has one. */
  function FileName(event: DownloadEvent): Option<string>
  {
    if event.queryStringParameters.Some? && "file_name" in event.queryStringParameters.value
    then Some(event.queryStringParameters.value["file_name"])
    else None
  }

  /** Where the thumbnail of `fileName` is read: the configured bucket, under
      the key the generator writes. */
  function ThumbnailLocation(cfg: Config, fileName: string): ObjectRef
  {
    ObjectRef(cfg.bucketName, GenerateThumbnail.ThumbnailKey(fileName))
  }

  /**
    `lambda_handler`. It answers 200 exactly when the request names a file
    whose thumbnail is stored in the configured bucket, and then returns the
    encoding of exactly those bytes; otherwise it answers 500 with an error.
   */
  function Download(objects: map<ObjectRef, S3Object>, cfg: Config, event: DownloadEvent, b64encode: Bytes -> string): (r: Response)
    ensures r.statusCode == 200 || r.statusCode == 500
    ensures r.statusCode == 200 <==> FileName(event).Some? && ThumbnailLocation(cfg, FileName(event).value) in objects
    ensures r.statusCode == 200 ==>
      r.body == ImageData(b64encode(objects[ThumbnailLocation(cfg, FileName(event).value)].body))
    ensures r.statusCode == 500 ==> r.body.Failed?
  {
    if event.queryStringParameters.None? then Response(500, Failed(NoQueryParameters))
    else if "file_name" !in event.queryStringParameters.value then Response(500, Failed(MissingFileName))
    else
      var fileName := event.queryStringParameters.value["file_name"];
      var ref := ObjectRef(cfg.bucketName, GenerateThumbnail.ThumbnailKey(fileName));
      if ref !in objects then Response(500, Failed(NoSuchKey))
      else Response(200, ImageData(b64encode(objects[ref].body)))
  }

  /** The answer depends on the store only through the one object at the
      thumbnail location in the configured bucket. */
  lemma DownloadReadsOnlyThumbnail(objects1: map<ObjectRef, S3Object>, objects2: map<ObjectRef, S3Object>,
                                   cfg: Config, fileName: string, b64encode: Bytes -> string)
    requires var ref := ThumbnailLocation(cfg, fileName);
      (ref in objects1 <==> ref in objects2) && (ref in objects1 ==> objects1[ref] == objects2[ref])
    ensures var event := DownloadEvent(Some(map["file_name" := fileName]));
      Download(objects1, cfg, event, b64encode) == Download(objects2, cfg, event, b64encode)
  {
  }

  /** No other query parameter, such as one naming a bucket, changes the answer. */
  lemma DownloadIgnoresOtherParameters(objects: map<ObjectRef, S3Object>, cfg: Config, params: map<string, string>,
                                       name: string, value: string, b64encode: Bytes -> string)
    requires name != "file_name"
    ensures Download(objects, cfg, DownloadEvent(Some(params[name := value])), b64encode)
         == Download(objects, cfg, DownloadEvent(Some(params)), b64encode)
  {
    assert FileName(DownloadEvent(Some(params[name := value]))) == FileName(DownloadEvent(Some(params)));
  }
}
