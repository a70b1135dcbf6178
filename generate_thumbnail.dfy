/**
  The thumbnail generator (lambda/lambda_generate_thumbnail.py): for each
  queue record in turn, read the object the record names and write the same
  bytes, without a content type, under the derived thumbnail key in the same
  bucket. The first exception ends the loop with a 500 response; writes made
  for earlier records stay.
 */
module GenerateThumbnail {
  import opened Wrappers
  import opened PyStr
  import opened Cloud

  /**
    The derived key: the text before the last dot, "-thumbnail", then the
    text from the last dot on. With no dot `rfind` gives -1 and the slice
    keeps only the last character. The download handler computes the
    same expression.
   */
  function ThumbnailKey(key: string): (t: string)
    ensures |t| > |key|
  {
    RSplitOnce(key, '.')[0] + "-thumbnail" + SliceFrom(key, RFind(key, '.'))
  }

  /** A key whose last dot is at `i` becomes stem + "-thumbnail" + extension. */
  lemma ThumbnailKeyWithDot(key: string, i: nat)
    requires i < |key| && key[i] == '.'
    requires forall j :: i < j < |key| ==> key[j] != '.'
    ensures ThumbnailKey(key) == key[..i] + "-thumbnail" + key[i..]
  {
    RSplitOnceAt(key, '.', i);
  }

  /** A key without a dot is followed by "-thumbnail" and then its own last
      character (nothing for the empty key). */
  lemma ThumbnailKeyNoDot(key: string)
    requires '.' !in key
    ensures ThumbnailKey(key) == key + "-thumbnail" + (if key == [] then [] else [key[|key| - 1]])
  {
    assert RFind(key, '.') == -1;
  }

  /** Only the last dot splits the key: "a.b.png" becomes "a.b-thumbnail.png". */
  lemma ThumbnailKeyExampleDotted(key: string, stem: string, ext: string)
    requires key == "a.b.png" && stem == "a.b" && ext == ".png"
    ensures ThumbnailKey(key) == stem + "-thumbnail" + ext
  {
    assert LastDotAt(key, 3);
    ThumbnailKeyWithDot(key, 3);
    assert key[..3] == stem && key[3..] == ext;
  }

  lemma ThumbnailKeyExampleUndotted(key: string, empty: string)
    requires key == "abc" && empty == ""
    ensures ThumbnailKey(key) == "abc-thumbnailc"
    ensures ThumbnailKey(empty) == "-thumbnail"
  {
    assert key[0] != '.' && key[1] != '.' && key[2] != '.';
    ThumbnailKeyNoDot(key);
    ThumbnailKeyNoDot(empty);
  }

  /** Where the last dot of a key is, if any. */
  predicate LastDotAt(key: string, i: int)
  {
    0 <= i < |key| && key[i] == '.' && forall j :: i < j < |key| ==> key[j] != '.'
  }

  /** The last dot of a thumbnail key sits ten characters after the source's. */
  lemma ThumbnailKeyLastDot(key: string, i: nat)
    requires LastDotAt(key, i)
    ensures LastDotAt(ThumbnailKey(key), i + 10)
  {
    ThumbnailKeyWithDot(key, i);
    SplicedLastDot(key, i);
  }

  /** Inserting "-thumbnail" before the last dot moves it ten places on. */
  lemma SplicedLastDot(key: string, i: nat)
    requires LastDotAt(key, i)
    ensures LastDotAt(key[..i] + "-thumbnail" + key[i..], i + 10)
  {
    var t := key[..i] + "-thumbnail" + key[i..];
    forall j | i + 10 <= j < |t| ensures t[j] == key[j - 10] {
    }
  }

  /** A thumbnail key has the same text after its last dot as its source key. */
  lemma {:induction false} ThumbnailKeyKeepsExtension(key: string)
    requires '.' in key
    ensures '.' in ThumbnailKey(key)
    ensures RSplitOnce(ThumbnailKey(key), '.')[1] == RSplitOnce(key, '.')[1]
  {
    var i := RFind(key, '.');
    assert LastDotAt(key, i);
    ThumbnailKeyLastDot(key, i);
    ThumbnailKeyWithDot(key, i);
    var t := ThumbnailKey(key);
    RSplitOnceAt(key, '.', i);
    RSplitOnceAt(t, '.', i + 10);
    var tail, ext := t[i + 11..], key[i + 1..];
    assert |tail| == |ext|;
    forall k | 0 <= k < |ext| ensures tail[k] == ext[k] {
      assert t[i + 11 + k] == key[i + 1 + k];
    }
  }

  /** A key without a dot gets a thumbnail key without a dot. */
  lemma ThumbnailKeyStaysDotless(key: string)
    requires '.' !in key
    ensures '.' !in ThumbnailKey(key)
  {
    ThumbnailKeyNoDot(key);
    var suffix := if key == [] then [] else [key[|key| - 1]];
    assert '.' !in "-thumbnail";
    assert '.' !in suffix;
  }

  lemma {:induction false} ThumbnailKeyInjectiveDotted(a: string, b: string, i: nat, j: nat)
    requires LastDotAt(a, i) && LastDotAt(b, j)
    requires ThumbnailKey(a) == ThumbnailKey(b)
    ensures a == b
  {
    ThumbnailKeySameLastDot(a, b, i, j);
    ThumbnailKeyWithDot(a, i);
    ThumbnailKeyWithDot(b, i);
    SplitAtThumbnail(a[..i], a[i..], b[..i], b[i..]);
    JoinAt(a, b, i);
  }

  lemma JoinAt(a: string, b: string, i: nat)
    requires i <= |a| && i <= |b|
    requires a[..i] == b[..i] && a[i..] == b[i..]
    ensures a == b
  {
    assert a == a[..i] + a[i..];
    assert b == b[..i] + b[i..];
  }

  lemma ThumbnailKeySameLastDot(a: string, b: string, i: nat, j: nat)
    requires LastDotAt(a, i) && LastDotAt(b, j)
    requires ThumbnailKey(a) == ThumbnailKey(b)
    ensures i == j
  {
    ThumbnailKeyLastDot(a, i);
    ThumbnailKeyLastDot(b, j);
    LastDotUnique(ThumbnailKey(a), i + 10, j + 10);
  }

  lemma LastDotUnique(s: string, p: int, q: int)
    requires LastDotAt(s, p) && LastDotAt(s, q)
    ensures p == q
  {
  }

  /** Two thumbnail keys with their last dot at the same place have the same stem and extension. */
  lemma SplitAtThumbnail(stem1: string, ext1: string, stem2: string, ext2: string)
    requires stem1 + "-thumbnail" + ext1 == stem2 + "-thumbnail" + ext2
    requires |stem1| == |stem2|
    ensures stem1 == stem2 && ext1 == ext2
  {
    var t := stem1 + "-thumbnail" + ext1;
    assert stem1 == t[..|stem1|] == stem2;
    assert ext1 == t[|stem1| + 10..] == ext2;
  }

  lemma {:induction false} ThumbnailKeyInjectiveDotless(a: string, b: string)
    requires '.' !in a && '.' !in b
    requires ThumbnailKey(a) == ThumbnailKey(b)
    ensures a == b
  {
    var t := ThumbnailKey(a);
    ThumbnailKeyNoDot(a);
    ThumbnailKeyNoDot(b);
    assert |a| == |b|;
    assert a == t[..|a|];
    assert b == t[..|b|];
  }

  /** Distinct source keys never share a thumbnail key, so the generator
      never writes the thumbnails of two different sources to one key. An
      upload may still write there: a thumbnail key is itself a key an
      upload can use. */
  lemma {:induction false} ThumbnailKeyInjective(a: string, b: string)
    requires ThumbnailKey(a) == ThumbnailKey(b)
    ensures a == b
  {
    var i := RFind(a, '.');
    var j := RFind(b, '.');
    if i >= 0 && j >= 0 {
      ThumbnailKeyInjectiveDotted(a, b, i, j);
    } else if i >= 0 {
      ThumbnailKeyLastDot(a, i);
      ThumbnailKeyStaysDotless(b);
    } else if j >= 0 {
      ThumbnailKeyLastDot(b, j);
      ThumbnailKeyStaysDotless(a);
    } else {
      ThumbnailKeyInjectiveDotless(a, b);
    }
  }

  /** The parsed body of one queue record; a missing field is `None`, and so
      is a body that is missing or is not JSON. */
  datatype MessageBody = MessageBody(bucket: Option<string>, key: Option<string>)
  datatype Record = Record(body: Option<MessageBody>)
  datatype GenerateEvent = GenerateEvent(records: Option<seq<Record>>)

  /** Why one record raised. */
  datatype RecordFault = MissingBody | MissingBucket | MissingKey | NoSuchSource | PutRefused
  datatype GenerateError = NoRecords | RecordFailed(index: nat, fault: RecordFault)

  const SuccessMessage := "Thumbnail generated and uploaded successfully."

  datatype ResponseBody = Generated(message: string) | Failed(error: GenerateError)
  datatype Response = Response(statusCode: int, body: ResponseBody)

  /** The object a record names, when its body has both fields. */
  function Source(rec: Record): Option<ObjectRef>
  {
    if rec.body.Some? && rec.body.value.bucket.Some? && rec.body.value.key.Some?
    then Some(ObjectRef(rec.body.value.bucket.value, rec.body.value.key.value))
    else None
  }

  /** The thumbnail of `src`: same bucket, derived key. */
  function ThumbnailOf(src: ObjectRef): (dst: ObjectRef)
    ensures dst.bucket == src.bucket && dst != src
  {
    ObjectRef(src.bucket, ThumbnailKey(src.key))
  }

  /**
    One iteration of the loop. It succeeds exactly when the record names an
    object that exists and the store accepts the thumbnail write. Then the
    thumbnail holds the source's bytes, and nothing else changes: not the
    source, not any other key.
   */
  function Step(objects: map<ObjectRef, S3Object>, rec: Record, faults: Faults): (r: Result<map<ObjectRef, S3Object>, RecordFault>)
    ensures r.Success? <==>
      Source(rec).Some? && Source(rec).value in objects && ThumbnailOf(Source(rec).value) !in faults.deniedPuts
  {
    if rec.body.None? then Failure(MissingBody)
    else if rec.body.value.bucket.None? then Failure(MissingBucket)
    else if rec.body.value.key.None? then Failure(MissingKey)
    else
      var src := ObjectRef(rec.body.value.bucket.value, rec.body.value.key.value);
      if src !in objects then Failure(NoSuchSource)
      else
        var dst := ThumbnailOf(src);
        if dst in faults.deniedPuts then Failure(PutRefused)
        else Success(objects[dst := S3Object(objects[src].body, None)])
  }

  /** After a successful step the thumbnail holds the source's bytes, and
      nothing else changed: not the source, not any other key. */
  lemma StepCopiesSource(objects: map<ObjectRef, S3Object>, rec: Record, faults: Faults)
    requires Step(objects, rec, faults).Success?
    ensures var r := Step(objects, rec, faults).value;
      var src := Source(rec).value;
      var dst := ThumbnailOf(src);
      && r.Keys == objects.Keys + {dst}
      && r[dst].body == objects[src].body
      && r[dst].contentType.None?
      && r[src] == objects[src]
      && forall ref :: ref in objects && ref != dst ==> r[ref] == objects[ref]
  {
  }

  datatype RunResult = RunResult(objects: map<ObjectRef, S3Object>, failure: Option<GenerateError>)

  /** The loop from record `i` on: the store after it, and the first failure if any. */
  function Run(objects: map<ObjectRef, S3Object>, records: seq<Record>, i: nat, faults: Faults): (r: RunResult)
    requires i <= |records|
    ensures r.failure.Some? ==> r.failure.value.RecordFailed? && i <= r.failure.value.index < |records|
    decreases |records| - i
  {
    if i == |records| then RunResult(objects, None)
    else match Step(objects, records[i], faults)
      case Failure(fault) => RunResult(objects, Some(RecordFailed(i, fault)))
      case Success(next) => Run(next, records, i + 1, faults)
  }

  datatype GenerateOutcome = GenerateOutcome(objects: map<ObjectRef, S3Object>, response: Response)

  /** `lambda_handler` over a snapshot of the store: 200 only when every record was processed. */
  function Generate(objects: map<ObjectRef, S3Object>, event: GenerateEvent, faults: Faults): (r: GenerateOutcome)
    ensures r.response.statusCode == 200 || r.response.statusCode == 500
    ensures r.response.statusCode == 200 <==>
      event.records.Some? && Run(objects, event.records.value, 0, faults).failure.None?
    ensures event.records.None? ==> r.objects == objects
    ensures event.records.Some? ==> r.objects == Run(objects, event.records.value, 0, faults).objects
  {
    if event.records.None? then GenerateOutcome(objects, Response(500, Failed(NoRecords)))
    else
      var run := Run(objects, event.records.value, 0, faults);
      if run.failure.None? then GenerateOutcome(run.objects, Response(200, Generated(SuccessMessage)))
      else GenerateOutcome(run.objects, Response(500, Failed(run.failure.value)))
  }

  /** Running the records up to `k` and then the rest is running them all;
      a failure before `k` is the failure of the whole run. */
  lemma {:induction false} RunSplit(objects: map<ObjectRef, S3Object>, records: seq<Record>, i: nat, k: nat, faults: Faults)
    requires i <= k <= |records|
    ensures SplitsAt(objects, records, i, k, faults)
    decreases k - i
  {
    if i == k {
      assert |records[..k]| == k;
    } else {
      var r := Step(objects, records[i], faults);
      if r.Success? {
        RunSplit(r.value, records, i + 1, k, faults);
      }
      RunSplitStep(objects, records, i, k, faults);
    }
  }

  /** The statement of `RunSplit` for one starting point. */
  predicate SplitsAt(objects: map<ObjectRef, S3Object>, records: seq<Record>, i: nat, k: nat, faults: Faults)
    requires i <= k <= |records|
  {
    var p := Run(objects, records[..k], i, faults);
    Run(objects, records, i, faults) == if p.failure.None? then Run(p.objects, records, k, faults) else p
  }

  /** One record of `RunSplit`'s induction: a failing record ends both runs
      alike, and a successful one hands both runs the same store. */
  lemma RunSplitStep(objects: map<ObjectRef, S3Object>, records: seq<Record>, i: nat, k: nat, faults: Faults)
    requires i < k <= |records|
    requires Step(objects, records[i], faults).Success? ==>
      SplitsAt(Step(objects, records[i], faults).value, records, i + 1, k, faults)
    ensures SplitsAt(objects, records, i, k, faults)
  {
    var prefix := records[..k];
    assert prefix[i] == records[i];
  }

  /** Records are handled in order and the first failure stops the loop: when
      record `k` fails, records before `k` all went through, their writes
      stay, and record `k` failed on the store they left. */
  lemma RunStopsAtFirstFailure(objects: map<ObjectRef, S3Object>, records: seq<Record>, faults: Faults, k: nat, fault: RecordFault)
    requires Run(objects, records, 0, faults).failure == Some(RecordFailed(k, fault))
    ensures k < |records|
    ensures var p := Run(objects, records[..k], 0, faults);
      && p.failure.None?
      && Run(objects, records, 0, faults).objects == p.objects
      && Step(p.objects, records[k], faults) == Failure(fault)
  {
    RunSplit(objects, records, 0, k, faults);
  }

  /** A 200 answer means every record was processed: every prefix ran through
      and each next record succeeded on the store its prefix left. */
  lemma RunSuccessProcessesEveryRecord(objects: map<ObjectRef, S3Object>, records: seq<Record>, faults: Faults, k: nat)
    requires Run(objects, records, 0, faults).failure.None?
    requires k < |records|
    ensures Run(objects, records[..k], 0, faults).failure.None?
    ensures Step(Run(objects, records[..k], 0, faults).objects, records[k], faults).Success?
  {
    RunSplit(objects, records, 0, k, faults);
    var p := Run(objects, records[..k], 0, faults);
    if p.failure.None? {
      match Step(p.objects, records[k], faults)
      case Failure(_) =>
      case Success(next) =>
    }
  }

  /** The records' thumbnail objects: the only objects the loop may write. */
  ghost predicate IsThumbnailOfSome(ref: ObjectRef, records: seq<Record>, i: nat)
  {
    exists k :: i <= k < |records| && Source(records[k]).Some? && ref == ThumbnailOf(Source(records[k]).value)
  }

  /** The loop removes nothing and changes only the thumbnail objects of its records. */
  lemma {:induction false} RunWritesOnlyThumbnails(objects: map<ObjectRef, S3Object>, records: seq<Record>, i: nat, faults: Faults)
    requires i <= |records|
    ensures var r := Run(objects, records, i, faults).objects;
      && objects.Keys <= r.Keys
      && forall ref :: ref in r && !IsThumbnailOfSome(ref, records, i) ==> ref in objects && r[ref] == objects[ref]
    decreases |records| - i
  {
    if i < |records| {
      match Step(objects, records[i], faults)
      case Failure(_) =>
      case Success(next) =>
        RunWritesOnlyThumbnails(next, records, i + 1, faults);
        var r := Run(objects, records, i, faults).objects;
        forall ref | ref in r && !IsThumbnailOfSome(ref, records, i)
          ensures ref in objects && r[ref] == objects[ref]
        {
          assert !IsThumbnailOfSome(ref, records, i + 1);
          assert ref != ThumbnailOf(Source(records[i]).value);
        }
    }
  }

  /** Handling the same one-record event twice leaves the store, and the
      answer, as handling it once: the second write puts the same bytes
      under the same key. */
  lemma SingleRecordIdempotent(objects: map<ObjectRef, S3Object>, rec: Record, faults: Faults)
    ensures var event := GenerateEvent(Some([rec]));
      var once := Generate(objects, event, faults);
      Generate(once.objects, event, faults) == once
  {
    var records := [rec];
    assert Run(objects, records, 0, faults) ==
      match Step(objects, rec, faults)
      case Failure(f) => RunResult(objects, Some(RecordFailed(0, f)))
      case Success(next) => RunResult(next, None);
    match Step(objects, rec, faults)
    case Failure(_) =>
    case Success(next) =>
      var src := Source(rec).value;
      var dst := ThumbnailOf(src);
      assert Step(next, rec, faults).Success?;
      assert Step(next, rec, faults).value == next;
      assert Run(next, records, 0, faults) == RunResult(next, None);
  }

  /** A record naming `src`. */
  function RecordFor(src: ObjectRef): (rec: Record)
    ensures Source(rec) == Some(src)
  {
    Record(Some(MessageBody(Some(src.bucket), Some(src.key))))
  }

  /** Two records run one after the other. */
  lemma RunTwo(objects: map<ObjectRef, S3Object>, r0: Record, r1: Record, faults: Faults)
    requires Step(objects, r0, faults).Success?
    requires Step(Step(objects, r0, faults).value, r1, faults).Success?
    ensures Run(objects, [r0, r1], 0, faults) == RunResult(Step(Step(objects, r0, faults).value, r1, faults).value, None)
  {
    var next := Step(objects, r0, faults).value;
    var last := Step(next, r1, faults).value;
    assert Run(objects, [r0, r1], 0, faults) == Run(next, [r0, r1], 1, faults);
    assert Run(next, [r0, r1], 1, faults) == Run(last, [r0, r1], 2, faults);
  }

  /**
    Redelivering a whole batch is not idempotent in general. Take any object
    `src` whose thumbnail already holds older bytes, and the batch that first
    asks for the thumbnail of that thumbnail and then for the thumbnail of
    `src` (for instance "b-thumbnail.png" then "b.png"). The first pass copies
    the older bytes one level down and then refreshes the thumbnail; a second
    pass copies the refreshed bytes down, so the store changes again.
   */
  lemma BatchNotIdempotent(src: ObjectRef, newer: Bytes, older: Bytes)
    requires newer != older
    ensures
      var thumb := ThumbnailOf(src);
      var objects := map[src := S3Object(newer, None), thumb := S3Object(older, None)];
      var batch := GenerateEvent(Some([RecordFor(thumb), RecordFor(src)]));
      var once := Generate(objects, batch, Faults({}, false));
      Generate(once.objects, batch, Faults({}, false)).objects != once.objects
  {
    var faults := Faults({}, false);
    var thumb := ThumbnailOf(src);
    var thumb2 := ThumbnailOf(thumb);
    assert thumb2 != src by {
      assert |thumb2.key| > |thumb.key| > |src.key|;
    }
    var objects := map[src := S3Object(newer, None), thumb := S3Object(older, None)];
    var r0, r1 := RecordFor(thumb), RecordFor(src);
    var s1 := objects[thumb2 := S3Object(older, None)];
    var s2 := s1[thumb := S3Object(newer, None)];
    var s3 := s2[thumb2 := S3Object(newer, None)];
    StepCopies(objects, thumb, faults);
    StepCopies(s1, src, faults);
    RunTwo(objects, r0, r1, faults);
    var batch := GenerateEvent(Some([r0, r1]));
    assert Generate(objects, batch, faults).objects == s2;
    var s4 := s3[thumb := S3Object(newer, None)];
    StepCopies(s2, thumb, faults);
    StepCopies(s3, src, faults);
    RunTwo(s2, r0, r1, faults);
    assert Generate(s2, batch, faults).objects == s4;
    assert s4[thumb2] != s2[thumb2];
  }

  /** A record naming a stored object whose thumbnail the store accepts. */
  lemma StepCopies(objects: map<ObjectRef, S3Object>, src: ObjectRef, faults: Faults)
    requires src in objects && ThumbnailOf(src) !in faults.deniedPuts
    ensures Step(objects, RecordFor(src), faults)
         == Success(objects[ThumbnailOf(src) := S3Object(objects[src].body, None)])
  {
  }

  /** `lambda_handler` itself: the `for` loop over the records against the
      live store; the queue is not touched. */
  method GenerateHandler(svc: Services, event: GenerateEvent, faults: Faults) returns (resp: Response)
    modifies svc
    ensures svc.queue == old(svc.queue)
    ensures GenerateOutcome(svc.objects, resp) == Generate(old(svc.objects), event, faults)
  {
    if event.records.None? {
      return Response(500, Failed(NoRecords));
    }
    var records := event.records.value;
    var i := 0;
    while i < |records|
      invariant 0 <= i <= |records|
      invariant svc.queue == old(svc.queue)
      invariant Run(old(svc.objects), records, 0, faults) == Run(svc.objects, records, i, faults)
    {
      var rec := records[i];
      if rec.body.None? {
        return Response(500, Failed(RecordFailed(i, MissingBody)));
      }
      if rec.body.value.bucket.None? {
        return Response(500, Failed(RecordFailed(i, MissingBucket)));
      }
      var bucket := rec.body.value.bucket.value;
      if rec.body.value.key.None? {
        return Response(500, Failed(RecordFailed(i, MissingKey)));
      }
      var key := rec.body.value.key.value;
      var found := svc.GetObject(ObjectRef(bucket, key));
      if found.None? {
        return Response(500, Failed(RecordFailed(i, NoSuchSource)));
      }
      var imageData := found.value.body;
      var thumbnailKey := ThumbnailKey(key);
      var ok := svc.PutObject(ObjectRef(bucket, thumbnailKey), S3Object(imageData, None), faults);
      if !ok {
        return Response(500, Failed(RecordFailed(i, PutRefused)));
      }
      i := i + 1;
    }
    resp := Response(200, Generated(SuccessMessage));
  }
}
