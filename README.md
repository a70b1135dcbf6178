# Thumbnail service — a Dafny model

The service is three AWS Lambda handlers that form one pipeline:

1. **Upload** (`lambda/lambda_upload.py`). It accepts a JSON body with a file name, base64 content and a content type. It checks the file name's extension (png, jpg, jpeg or gif, in any case) and repairs the base64 padding. It then decodes the content, stores the bytes in the S3 bucket under the file name, and sends one SQS message `{bucket, key}`. Any exception becomes a 400 answer. Steps already taken are not undone.
2. **Generate thumbnail** (`lambda/lambda_generate_thumbnail.py`). For each queue record in turn, it reads the named object. It writes the same bytes, with no content type, under a derived key: the text before the last dot, then `-thumbnail`, then the text from the last dot on. The first exception ends the loop with a 500 answer. Writes made for earlier records stay.
3. **Download thumbnail** (`lambda/lambda_download_thumbnail.py`). It derives the same key from the `file_name` query parameter and reads that object from the configured bucket. It returns the object base64-encoded, or a 500 answer.

The model:

- `PyStr` (`pystr.dfy`) gives the Python string operations the handlers use, with Python's semantics: `rfind` returns -1 when the character is absent, `rsplit('.', 1)`, `s[start:]` with a negative start, and `lower`.
- `Cloud` (`cloud.dfy`) holds the services' state:
  - the store is a `map` from bucket and key to an object (bytes plus an optional content type);
  - the queue is a `seq` of messages;
  - the class `Services` holds both and offers `GetObject`, `PutObject` and `SendMessage`;
  - the failures a service may raise are a `Faults` parameter: the writes the store refuses, and whether the queue refuses sends.
- Each handler is specified twice:
  - as a function over a snapshot of the services (`Upload.Upload`, `GenerateThumbnail.Generate`, `DownloadThumbnail.Download`);
  - where the source changes state, as a method over `Services` that runs the same steps in the same order and is proved equal to that function.
- `Pipeline` (`pipeline.dfy`) wires the handlers together. Its end-to-end property holds under two conditions: upload, generation and download run back to back, and the services accept the writes. Then the uploaded file's thumbnail downloads as exactly the uploaded bytes.
  - The property does not hold unconditionally. Uploads and thumbnails share one key space, and the name of a thumbnail is itself an allowed upload name.
  - So after `img.png` is uploaded and its thumbnail generated, an upload of `img-thumbnail.png` changes what downloading `img.png`'s thumbnail returns (`Pipeline.UploadOverThumbnail`).
  - Likewise, a second upload of `img.png` before the generator runs changes what the generator copies.

The generator writes the thumbnail with no content type, just as the source does, and the model keeps this: the thumbnail's `contentType` is `None`.

Base64 decoding and encoding are parameters (`decode: string -> Option<Bytes>`, `b64encode: Bytes -> string`). The event JSON arrives already parsed: a field the client left out is `None`. The bucket and queue names are a `Config` value.

## Model

| member | source | states |
|---|---|---|
| PyStr.RFind | lambda/lambda_generate_thumbnail.py:21 | `rfind('.')` is -1 when the character is absent, otherwise the index of its last occurrence (no occurrence after it) |
| PyStr.RSplitOnce | lambda/lambda_upload.py:21 | `rsplit('.', 1)` gives one part (the whole string) exactly when there is no dot, otherwise the text before and after the last dot, which rejoin to the input |
| PyStr.SliceFrom | lambda/lambda_generate_thumbnail.py:21 | `s[start:]` is a suffix of `s`: `len - start` characters for a start in range, the last `-start` characters for a negative start |
| PyStr.Lower | lambda/lambda_upload.py:21 | the model's `lower()` (ASCII letters only) keeps the length and lower-cases each character |
| Cloud.Services.GetObject | lambda/lambda_generate_thumbnail.py:17-18 | `get_object` finds an object exactly when one is stored at the reference, and returns that object |
| Cloud.Services.PutObject | lambda/lambda_upload.py:60-65 | `put_object` succeeds unless the store refuses the reference; on success it overwrites that one entry and changes nothing else, and on failure nothing changes |
| Cloud.Services.SendMessage | lambda/lambda_upload.py:75-78 | `send_message` appends exactly the one message unless the queue refuses it, in which case the queue is unchanged |
| Upload.EndsWithExtensionAt | lambda/lambda_upload.py:21 | for a name with a dot, the lower-cased text after the last dot is `ext` exactly when the name ends in `.` + `ext` in any mix of cases |
| Upload.AllowedFile | lambda/lambda_upload.py:20-21 | `allowed_file`: the name has a dot and the lower-cased text after its last dot is png, jpg, jpeg or gif; `Upload.AllowedFileIff` characterises it |
| Upload.AllowedFileIff | lambda/lambda_upload.py:16-21 | `allowed_file` holds exactly when the name ends in `.png`, `.jpg`, `.jpeg` or `.gif`, in any case; so a name without a dot is always rejected |
| Upload.AllowedFileUpperCase | lambda/lambda_upload.py:16-21 | `a.PNG` is accepted |
| Upload.AllowedFileBareExtension | lambda/lambda_upload.py:16-21 | `.png` is accepted |
| Upload.AllowedFileRejectsLaterSuffix | lambda/lambda_upload.py:16-21 | `a.png.txt` and `a.png.` are rejected: only the text after the last dot counts |
| Upload.CorrectBase64Padding | lambda/lambda_upload.py:24-29 | the result's length is a multiple of four; the result is the input followed by 0 to 3 `=` and nothing else; an input whose length is already a multiple of four is returned unchanged |
| Upload.CorrectBase64PaddingIdempotent | lambda/lambda_upload.py:24-29 | padding an already padded string changes nothing |
| Upload.CorrectBase64PaddingUnique | lambda/lambda_upload.py:26-28 | any completion by fewer than four `=` to a multiple of four is the one the function makes |
| Upload.Validate | lambda/lambda_upload.py:37-64 | the checks before the first side effect succeed exactly when the body has a file with all three fields, an allowed name and decodable padded content; the result is that name, the decoded bytes and the content type; a missing file is `NoFile`; a disallowed name is `FileTypeNotAllowed` |
| Upload.Upload | lambda/lambda_upload.py:32-95 | the answer is 200 or 400. It is 200 exactly when validation passes and neither the put nor the send is refused. A request that fails validation changes neither service. A refused put leaves both services unchanged. Otherwise the object is stored under the file name with the decoded bytes and the given content type. A refused send keeps that object stored and answers 400. On 200, exactly one message `{bucket, filename}` is appended and the body carries the message and the `file_url`. Any change to the queue is a message for an object that is stored |
| Upload.RejectedUploadChangesNothing | lambda/lambda_upload.py:40-49 | a body without a file, or with a disallowed file name, is answered 400 and neither stores nor queues anything |
| Upload.UploadHandler | lambda/lambda_upload.py:32-95 | the handler run against the live services leaves them in the state `Upload` describes and returns its answer |
| GenerateThumbnail.ThumbnailKey | lambda/lambda_generate_thumbnail.py:21 | the derived key is longer than the source key, so it never equals it |
| GenerateThumbnail.ThumbnailKeyWithDot | lambda/lambda_generate_thumbnail.py:21 | with the last dot at `i`, the derived key is `key[..i] + "-thumbnail" + key[i..]` |
| GenerateThumbnail.ThumbnailKeyNoDot | lambda/lambda_generate_thumbnail.py:21 | without a dot, the derived key is the key, `-thumbnail`, and then the key's last character (nothing for the empty key) |
| GenerateThumbnail.ThumbnailKeyExampleDotted | lambda/lambda_generate_thumbnail.py:21 | `a.b.png` becomes `a.b-thumbnail.png` |
| GenerateThumbnail.ThumbnailKeyExampleUndotted | lambda/lambda_generate_thumbnail.py:21 | `abc` becomes `abc-thumbnailc` and the empty key becomes `-thumbnail` |
| GenerateThumbnail.ThumbnailKeyLastDot | lambda/lambda_generate_thumbnail.py:21 | the derived key's last dot sits ten places after the source key's |
| GenerateThumbnail.ThumbnailKeyStaysDotless | lambda/lambda_generate_thumbnail.py:21 | a key without a dot derives a key without a dot |
| GenerateThumbnail.ThumbnailKeyInjective | lambda/lambda_generate_thumbnail.py:21 | distinct source keys have distinct derived keys |
| GenerateThumbnail.ThumbnailKeyKeepsExtension | lambda/lambda_generate_thumbnail.py:21 | a key with a dot derives a key with the same text after its last dot |
| GenerateThumbnail.ThumbnailOf | lambda/lambda_generate_thumbnail.py:21-24 | the thumbnail is written in the source's bucket and is never the source object itself |
| GenerateThumbnail.Step | lambda/lambda_generate_thumbnail.py:11-24 | one record succeeds exactly when its body names a bucket and key (`GenerateThumbnail.Source`, lines 11-13), that object is stored, and the store accepts the thumbnail write |
| GenerateThumbnail.StepCopiesSource | lambda/lambda_generate_thumbnail.py:17-24 | after a successful record the thumbnail holds the source's bytes with no content type, the source is unchanged, and no other key is added or changed |
| GenerateThumbnail.StepCopies | lambda/lambda_generate_thumbnail.py:17-24 | a record naming a stored object whose thumbnail write is accepted sets exactly that thumbnail to the source's bytes |
| GenerateThumbnail.Run | lambda/lambda_generate_thumbnail.py:10-24 | the loop's failure, when there is one, is a record failure at an index inside the batch |
| GenerateThumbnail.Generate | lambda/lambda_generate_thumbnail.py:7-34 | the answer is 200 or 500; it is 200 exactly when the event has records and none of them failed; the store afterwards is the one the loop over the records leaves, failure or not; an event without records changes nothing |
| GenerateThumbnail.RunSplit | lambda/lambda_generate_thumbnail.py:10-24 | running the records before `k` and then the rest is running them all, and a failure before `k` is the whole run's failure |
| GenerateThumbnail.RunStopsAtFirstFailure | lambda/lambda_generate_thumbnail.py:10-34 | when record `k` fails, every earlier record went through, their writes are the final store, and record `k` failed on the store they left |
| GenerateThumbnail.RunSuccessProcessesEveryRecord | lambda/lambda_generate_thumbnail.py:10-29 | a run without failure processed every record: each one succeeded on the store its predecessors left |
| GenerateThumbnail.RunWritesOnlyThumbnails | lambda/lambda_generate_thumbnail.py:10-24 | the loop removes no object and changes only objects that are the thumbnail of some record's source |
| GenerateThumbnail.SingleRecordIdempotent | lambda/lambda_generate_thumbnail.py:24 | handling the same one-record event twice gives the same store and answer as handling it once |
| GenerateThumbnail.BatchNotIdempotent | lambda/lambda_generate_thumbnail.py:10-24 | a batch that first names a thumbnail and then its source is not idempotent: handling it again changes the store again |
| GenerateThumbnail.RecordFor | lambda/lambda_generate_thumbnail.py:11-13 | the record built for an object names that object |
| GenerateThumbnail.GenerateHandler | lambda/lambda_generate_thumbnail.py:7-34 | the loop against the live store leaves it as `Generate` describes, returns its answer and does not touch the queue |
| DownloadThumbnail.Download | lambda/lambda_download_thumbnail.py:10-30 | the answer is 200 or 500. It is 200 exactly when the request has `file_name` and an object is stored at the derived key in the configured bucket, and the body is then the encoding of exactly those bytes. A 500 answer carries an error. The location read is `DownloadThumbnail.ThumbnailLocation` (lines 15-16): the configured bucket and the generator's own `ThumbnailKey`, and the store is only read |
| DownloadThumbnail.DownloadReadsOnlyThumbnail | lambda/lambda_download_thumbnail.py:7-17 | the answer depends on the store only through the one object at the derived key in the configured bucket |
| DownloadThumbnail.DownloadIgnoresOtherParameters | lambda/lambda_download_thumbnail.py:13-16 | no query parameter other than `file_name`, such as one naming a bucket, changes the answer |
| Pipeline.Deliver | lambda/lambda_generate_thumbnail.py:11-13 | a queued message reaches the generator as a record naming the same bucket and key |
| Pipeline.RunSingle | lambda/lambda_generate_thumbnail.py:10-24 | a one-record batch whose record succeeds ends with that record's store and no failure |
| Pipeline.UploadGenerateDownload | lambda/lambda_upload.py:32-88 | uploading an allowed file whose padded content decodes to `c`, with cooperative services, answers 200 and queues exactly `{bucket, filename}`; handling that message answers 200; downloading the file's thumbnail then returns 200 with the encoding of exactly `c` |
| Pipeline.ThumbnailMissingBeforeGeneration | lambda/lambda_download_thumbnail.py:15-30 | for a file name whose thumbnail is not stored yet, after its upload and before the generator runs, downloading the thumbnail answers 500 (`NoSuchKey`), while a successful upload's original is already stored |
| Pipeline.ThumbnailNameUploadable | lambda/lambda_upload.py:16-21 | the thumbnail name of an allowed file name is itself an allowed file name |
| Pipeline.UploadStores | lambda/lambda_upload.py:54-65 | an accepted upload whose write and send succeed answers 200 and stores the decoded bytes under the file name |
| Pipeline.UploadOverThumbnail | lambda/lambda_download_thumbnail.py:15-25 | uploading a file under the thumbnail name of `f` makes downloading `f`'s thumbnail return that file's bytes, whatever the generator had written there |
| Pipeline.UploadThenThumbnail | lambda/lambda_upload.py:32-88 | running the upload, generator and download handlers against live services returns the encoding of exactly the uploaded bytes, leaves one new message on the queue, and leaves the store with the original (decoded bytes, given content type) under the file name and its copy (no content type) under the thumbnail key, nothing else changed |

## Left out

- Base64 (section 4 of RFC 4648) and JSON are library calls. Decoding is a partial function parameter and encoding a function parameter. Events are already parsed, and a field that is absent or not JSON is `None`.
- Error messages are not modelled as text. Each 400 or 500 answer carries an error kind (`UploadError`, `GenerateError`, `DownloadError`) in place of the exception's message.
- `get_object` fails only for a missing key. Every other service failure is a refused put or a refused send, chosen up front in `Faults`. Timeouts and partial writes are not modelled.
- Real S3 and SQS behaviour is not modelled: consistency, visibility timeouts, redelivery, dead-letter queues and batch size. The store is a plain map and the queue a plain sequence. The queue name is carried in `Config` but plays no part, since the model has one queue.
- The deployment scripts under `scripts/`, the environment lookups in `config/config.py` (the bucket and queue names are a `Config` parameter, so every proof holds for any names, the defaults included) and the HTTP scripts under `tests/` are not part of this model. So are logging and `print`.
- PyStr.Lower: it lower-cases ASCII letters only. Python's Unicode `lower` also maps non-ASCII characters. The Kelvin sign lowers to 'k', and 'İ' to 'i' followed by U+0307, which lengthens the string. Neither can spell an allowed extension, so `allowed_file` accepts and rejects the same names.
- Only the first failing record's index and kind are reported. The handler stops there too.
- Each handler invocation is modelled running alone, on one snapshot of the services. Concurrent invocations that interleave are not modelled. The end-to-end lemmas sequence whole invocations, back to back.
