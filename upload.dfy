/**
  The upload handler (lambda/lambda_upload.py): check the file name's
  extension, repair the base64 padding, decode, store the bytes under the
  file name, then queue one thumbnail request. Any exception on the way
  becomes a 400 response; steps already taken are not undone.
 */
module Upload {
  import opened Wrappers
  import opened PyStr
  import opened Cloud

  const AllowedExtensions: set<string> := {"png", "jpg", "jpeg", "gif"}

  /** `allowed_file`: the name has a dot, and the text after its last dot,
      lower-cased, is an allowed extension. */
  predicate AllowedFile(filename: string)
  {
    '.' in filename && Lower(RSplitOnce(filename, '.')[1]) in AllowedExtensions
  }

  /** `f` ends with a dot followed by `ext` written in any mix of cases. */
  predicate EndsWithExtension(f: string, ext: string)
  {
    && |f| > |ext|
    && f[|f| - |ext| - 1] == '.'
    && forall i :: 0 <= i < |ext| ==> LowerChar(f[|f| - |ext| + i]) == ext[i]
  }

  /** A name ending in ".ext" has ext, in some case, after its last dot. */
  lemma {:induction false} EndsWithExtensionSplits(f: string, ext: string)
    requires ext in AllowedExtensions
    requires EndsWithExtension(f, ext)
    ensures '.' in f && Lower(RSplitOnce(f, '.')[1]) == ext
  {
    var p := |f| - |ext| - 1;
    // No character after position p is a dot, since each lower-cases to a letter.
    forall j | p < j < |f| ensures f[j] != '.' {
      assert LowerChar(f[j]) == ext[j - p - 1];
    }
    RSplitOnceAt(f, '.', p);
    var tail := f[p + 1..];
    assert forall k :: 0 <= k < |tail| ==> tail[k] == f[|f| - |ext| + k];
  }

  /** The converse: ext after the last dot, in some case, means the name ends in ".ext". */
  lemma {:induction false} SplitEndsWithExtension(f: string, ext: string)
    requires '.' in f && Lower(RSplitOnce(f, '.')[1]) == ext
    ensures EndsWithExtension(f, ext)
  {
    var i := RFind(f, '.');
    RSplitOnceAt(f, '.', i);
    var tail := f[i + 1..];
    assert |tail| == |ext|;
    forall k | 0 <= k < |ext| ensures LowerChar(f[|f| - |ext| + k]) == ext[k] {
      assert f[|f| - |ext| + k] == tail[k];
    }
  }

  /** A name with a dot is accepted for `ext` exactly when it ends with ".ext",
      compared without regard to case. */
  lemma EndsWithExtensionAt(f: string, ext: string)
    requires ext in AllowedExtensions
    requires '.' in f
    ensures EndsWithExtension(f, ext) <==> Lower(RSplitOnce(f, '.')[1]) == ext
  {
    if EndsWithExtension(f, ext) {
      EndsWithExtensionSplits(f, ext);
    }
    if Lower(RSplitOnce(f, '.')[1]) == ext {
      SplitEndsWithExtension(f, ext);
    }
  }

  lemma NoExtensionWithoutDot(f: string, ext: string)
    requires '.' !in f
    ensures !EndsWithExtension(f, ext)
  {
  }

  /** `allowed_file` accepts exactly the names ending in ".png", ".jpg",
      ".jpeg" or ".gif", in any case; in particular it rejects every name
      without a dot. */
  lemma AllowedFileIff(f: string)
    ensures AllowedFile(f) <==>
      EndsWithExtension(f, "png") || EndsWithExtension(f, "jpg") ||
      EndsWithExtension(f, "jpeg") || EndsWithExtension(f, "gif")
  {
    if '.' in f {
      var ext := Lower(RSplitOnce(f, '.')[1]);
      assert AllowedFile(f) <==> ext == "png" || ext == "jpg" || ext == "jpeg" || ext == "gif";
      EndsWithExtensionAt(f, "png");
      EndsWithExtensionAt(f, "jpg");
      EndsWithExtensionAt(f, "jpeg");
      EndsWithExtensionAt(f, "gif");
    } else {
      NoExtensionWithoutDot(f, "png");
      NoExtensionWithoutDot(f, "jpg");
      NoExtensionWithoutDot(f, "jpeg");
      NoExtensionWithoutDot(f, "gif");
    }
  }

  /** Case does not matter. */
  lemma AllowedFileUpperCase(f: string)
    requires f == "a.PNG"
    ensures AllowedFile(f)
  {
    assert f[2] != '.' && f[3] != '.' && f[4] != '.';
    RSplitOnceAt(f, '.', 1);
    assert Lower(f[2..]) == "png";
  }

  /** A bare extension passes. */
  lemma AllowedFileBareExtension(f: string)
    requires f == ".png"
    ensures AllowedFile(f)
  {
    assert f[1] != '.' && f[2] != '.' && f[3] != '.';
    RSplitOnceAt(f, '.', 0);
    assert Lower(f[1..]) == "png";
  }

  /** Only the text after the last dot counts, so a later suffix or a
      trailing dot is refused. */
  lemma AllowedFileRejectsLaterSuffix(f: string, g: string)
    requires f == "a.png.txt" && g == "a.png."
    ensures !AllowedFile(f) && !AllowedFile(g)
  {
    assert f[6] != '.' && f[7] != '.' && f[8] != '.';
    RSplitOnceAt(f, '.', 5);
    assert Lower(f[6..]) == "txt";
    RSplitOnceAt(g, '.', 5);
    assert Lower(g[6..]) == "";
  }

  /** `correct_base64_padding`: extend with '=' to the next multiple of four.
      The result is the shortest such extension: the input followed by 0 to 3
      '=' characters, and the input itself when its length is already a
      multiple of four. */
  function CorrectBase64Padding(encoded: string): (r: string)
    ensures |r| % 4 == 0
    ensures |encoded| <= |r| < |encoded| + 4
    ensures r[..|encoded|] == encoded
    ensures forall i :: |encoded| <= i < |r| ==> r[i] == '='
    ensures |encoded| % 4 == 0 ==> r == encoded
  {
    var padding := |encoded| % 4;
    if padding != 0 then encoded + seq(4 - padding, _ => '=') else encoded
  }

  /** Padding an already padded string changes nothing. */
  lemma CorrectBase64PaddingIdempotent(encoded: string)
    ensures CorrectBase64Padding(CorrectBase64Padding(encoded)) == CorrectBase64Padding(encoded)
  {
  }

  /** Any way of completing `encoded` with fewer than four '=' to a length
      that is a multiple of four is the padding the handler adds. */
  lemma {:induction false} CorrectBase64PaddingUnique(encoded: string, k: nat)
    requires k < 4 && (|encoded| + k) % 4 == 0
    ensures CorrectBase64Padding(encoded) == encoded + seq(k, _ => '=')
  {
    var r := CorrectBase64Padding(encoded);
    assert |r| == |encoded| + k;
    assert r == r[..|encoded|] + r[|encoded|..];
    assert r[|encoded|..] == seq(k, _ => '=');
  }

  /** The parsed request. A field the client left out is `None`; so is a
      body that is missing or is not JSON. */
  datatype FileField = FileField(filename: Option<string>, content: Option<string>, contentType: Option<string>)
  datatype RequestBody = RequestBody(file: Option<FileField>)
  datatype UploadEvent = UploadEvent(body: Option<RequestBody>)

  /** Why the handler answered 400. */
  datatype UploadError =
    | BadBody                    // `event['body']` missing or not JSON
    | NoFile                     // "No file provided in the request"
    | MissingField(name: string) // a `KeyError` on one of the file's fields
    | FileTypeNotAllowed         // "File format not allowed. ..."
    | DecodeFailed               // `b64decode` raised
    | PutFailed                  // `put_object` raised
    | SendFailed                 // `send_message` raised, after the object was stored

  datatype ResponseBody = Uploaded(message: string, fileUrl: string) | Failed(error: UploadError)
  datatype Response = Response(statusCode: int, body: ResponseBody)

  /** The services afterwards and the handler's answer. */
  datatype Outcome = Outcome(world: World, response: Response)

  /** What passed validation: the file name, the decoded bytes, the content type. */
  datatype Accepted = Accepted(filename: string, content: Bytes, contentType: string)

  function SuccessMessage(filename: string): string
  {
    "File " + filename + " uploaded successfully."
  }

  function FileUrl(cfg: Config, filename: string): string
  {
    "https://" + cfg.bucketName + ".s3.amazonaws.com/" + filename
  }

  /** The request is well formed, its file name allowed and its padded content decodable. */
  predicate Acceptable(event: UploadEvent, decode: string -> Option<Bytes>)
  {
    && event.body.Some?
    && event.body.value.file.Some?
    && var file := event.body.value.file.value;
    && file.filename.Some? && file.content.Some? && file.contentType.Some?
    && AllowedFile(file.filename.value)
    && decode(CorrectBase64Padding(file.content.value)).Some?
  }

  /** Everything the handler does before its first side effect. */
  function Validate(event: UploadEvent, decode: string -> Option<Bytes>): (r: Result<Accepted, UploadError>)
    ensures r.Success? <==> Acceptable(event, decode)
    ensures r.Success? ==>
      var file := event.body.value.file.value;
      && r.value.filename == file.filename.value
      && decode(CorrectBase64Padding(file.content.value)) == Some(r.value.content)
      && r.value.contentType == file.contentType.value
    ensures event.body.Some? && event.body.value.file.None? ==> r == Failure(NoFile)
    ensures (event.body.Some? && event.body.value.file.Some? &&
             event.body.value.file.value.filename.Some? &&
             !AllowedFile(event.body.value.file.value.filename.value)) ==> r == Failure(FileTypeNotAllowed)
  {
    if event.body.None? then Failure(BadBody)
    else if event.body.value.file.None? then Failure(NoFile)
    else
      var file := event.body.value.file.value;
      if file.filename.None? then Failure(MissingField("filename"))
      else if !AllowedFile(file.filename.value) then Failure(FileTypeNotAllowed)
      else if file.content.None? then Failure(MissingField("content"))
      else match decode(CorrectBase64Padding(file.content.value))
        case None => Failure(DecodeFailed)
        case Some(bytes) =>
          if file.contentType.None? then Failure(MissingField("content_type"))
          else Success(Accepted(file.filename.value, bytes, file.contentType.value))
  }

  /**
    `lambda_handler` over a snapshot of the services. It answers 200 exactly
    when the request is acceptable and neither service fails; a rejected
    request changes nothing; the object is written before the message is
    queued, so a message is queued only for an object that is stored, and a
    failed send leaves the object stored while answering 400.
   */
  function Upload(w: World, event: UploadEvent, cfg: Config, decode: string -> Option<Bytes>, faults: Faults): (r: Outcome)
    ensures r.response.statusCode == 200 || r.response.statusCode == 400
    ensures r.response.statusCode == 200 <==>
      && Validate(event, decode).Success?
      && ObjectRef(cfg.bucketName, Validate(event, decode).value.filename) !in faults.deniedPuts
      && !faults.queueDown
    ensures !Acceptable(event, decode) ==> r.world == w && r.response.body == Failed(Validate(event, decode).error)
    ensures Acceptable(event, decode) ==>
      var a := Validate(event, decode).value;
      var ref := ObjectRef(cfg.bucketName, a.filename);
      && (ref in faults.deniedPuts ==> r.world == w && r.response == Response(400, Failed(PutFailed)))
      && (ref !in faults.deniedPuts ==>
            r.world.objects == w.objects[ref := S3Object(a.content, Some(a.contentType))])
      && (ref !in faults.deniedPuts && faults.queueDown ==>
            r.world.queue == w.queue && r.response == Response(400, Failed(SendFailed)))
      && (r.response.statusCode == 200 ==>
            && r.world.queue == w.queue + [Message(cfg.bucketName, a.filename)]
            && r.response.body == Uploaded(SuccessMessage(a.filename), FileUrl(cfg, a.filename)))
    ensures r.world.queue != w.queue ==>
      r.response.statusCode == 200 && |r.world.queue| == |w.queue| + 1 &&
      var m := r.world.queue[|w.queue|];
      ObjectRef(m.bucket, m.key) in r.world.objects
  {
    match Validate(event, decode)
    case Failure(e) => Outcome(w, Response(400, Failed(e)))
    case Success(a) =>
      var ref := ObjectRef(cfg.bucketName, a.filename);
      if ref in faults.deniedPuts then Outcome(w, Response(400, Failed(PutFailed)))
      else
        var stored := w.objects[ref := S3Object(a.content, Some(a.contentType))];
        if faults.queueDown then Outcome(World(stored, w.queue), Response(400, Failed(SendFailed)))
        else
          Outcome(World(stored, w.queue + [Message(cfg.bucketName, a.filename)]),
                  Response(200, Uploaded(SuccessMessage(a.filename), FileUrl(cfg, a.filename))))
  }

  /** A request without a file, or with a file name that is not allowed,
      is answered 400 and neither stores nor queues anything. */
  lemma RejectedUploadChangesNothing(w: World, event: UploadEvent, cfg: Config, decode: string -> Option<Bytes>, faults: Faults)
    requires event.body.Some?
    requires event.body.value.file.None? ||
             (event.body.value.file.value.filename.Some? && !AllowedFile(event.body.value.file.value.filename.value))
    ensures Upload(w, event, cfg, decode, faults).world == w
    ensures Upload(w, event, cfg, decode, faults).response.statusCode == 400
  {
  }

  /** `lambda_handler` itself, against the live services: the same steps in the
      same order, each side effect through the service clients. */
  method UploadHandler(svc: Services, event: UploadEvent, cfg: Config, decode: string -> Option<Bytes>, faults: Faults)
    returns (resp: Response)
    modifies svc
    ensures Outcome(svc.State(), resp) == Upload(old(svc.State()), event, cfg, decode, faults)
  {
    if event.body.None? {
      return Response(400, Failed(BadBody));
    }
    var body := event.body.value;
    if body.file.None? {
      return Response(400, Failed(NoFile));
    }
    var file := body.file.value;
    if file.filename.None? {
      return Response(400, Failed(MissingField("filename")));
    }
    var filename := file.filename.value;
    if !AllowedFile(filename) {
      return Response(400, Failed(FileTypeNotAllowed));
    }
    if file.content.None? {
      return Response(400, Failed(MissingField("content")));
    }
    var corrected := CorrectBase64Padding(file.content.value);
    var decoded := decode(corrected);
    if decoded.None? {
      return Response(400, Failed(DecodeFailed));
    }
    if file.contentType.None? {
      return Response(400, Failed(MissingField("content_type")));
    }
    var ref := ObjectRef(cfg.bucketName, filename);
    var put := svc.PutObject(ref, S3Object(decoded.value, Some(file.contentType.value)), faults);
    if !put {
      return Response(400, Failed(PutFailed));
    }
    var sent := svc.SendMessage(Message(cfg.bucketName, filename), faults);
    if !sent {
      return Response(400, Failed(SendFailed));
    }
    resp := Response(200, Uploaded(SuccessMessage(filename), FileUrl(cfg, filename)));
  }
}
