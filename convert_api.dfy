/**
 * The PDF to EPUB conversion endpoint. Given a `mediaId` it converts that item; given
 * `all` it converts every active item that has a PDF file and no EPUB file yet, one
 * after another. Each conversion first checks the item (found, not deleted, has a PDF,
 * has no EPUB) and, when the conversion succeeds, adds the EPUB file to the item. The
 * answer counts the successes and the failures.
 */
module ConvertApi {

  import opened Wrappers
  import opened Ordering
  import opened Store
  import opened Http
  import Text

  /**
   * What fetching the PDF, converting it and storing the EPUB came to: the stored EPUB's
   * URL, or the message of whatever failed. It stands for the blob store, the network and
   * the converter, which are not modelled.
   */
  datatype Conversion = Converted(url: string) | Failed(message: string)

  datatype ConvertResult = ConvertResult(mediaId: Id, success: bool, error: Option<string>)

  const MediaNotFound := "Media not found"
  const MediaIsDeleted := "Media is deleted"
  const NoPdf := "No PDF file found for this media"
  const EpubExists := "EPUB file already exists for this media"

  /** Active, with a PDF file and without an EPUB file. */
  predicate NeedsConversion(m: Media, files: seq<MediaFile>)
  {
    m.deletedAt.None? && HasFileOfType(files, m.id, Pdf) && !HasFileOfType(files, m.id, Epub)
  }

  /**
   * The checks before a conversion, in the code's order: the item must exist, not be
   * deleted, have a PDF file and have no EPUB file. `None` means all four passed.
   */
  function Precheck(media: seq<Media>, files: seq<MediaFile>, id: Id): (r: Option<string>)
    ensures MediaIndex(media, id).None? <==> r == Some(MediaNotFound)
    ensures MediaIndex(media, id).Some? ==>
      var m := media[MediaIndex(media, id).value];
      (m.deletedAt.Some? <==> r == Some(MediaIsDeleted)) &&
      (m.deletedAt.None? && !HasFileOfType(files, id, Pdf) <==> r == Some(NoPdf)) &&
      (m.deletedAt.None? && HasFileOfType(files, id, Pdf) && HasFileOfType(files, id, Epub) <==> r == Some(EpubExists)) &&
      (r.None? <==> NeedsConversion(m, files))
  {
    var k := MediaIndex(media, id);
    if k.None? then Some(MediaNotFound)
    else if media[k.value].deletedAt.Some? then Some(MediaIsDeleted)
    else if !HasFileOfType(files, id, Pdf) then Some(NoPdf)
    else if HasFileOfType(files, id, Epub) then Some(EpubExists)
    else None
  }

  function Needs(files: seq<MediaFile>): Media -> bool
  {
    (m: Media) => NeedsConversion(m, files)
  }

  /** The batch: active items with some PDF file, less those that already have an EPUB one. */
  function ConversionQueue(media: seq<Media>, files: seq<MediaFile>): (r: seq<Media>)
    ensures forall i :: 0 <= i < |r| ==> r[i] in media && NeedsConversion(r[i], files)
    ensures forall i :: 0 <= i < |media| && NeedsConversion(media[i], files) ==> media[i] in r
    ensures Subsequence(r, media)
  {
    FilterSubsequence(media, Needs(files));
    Filter(media, Needs(files))
  }

  /**
   * With unique ids, the checks pass for an id exactly when the batch would queue the
   * item with that id: the single and the batch paths agree on what needs converting.
   */
  lemma PrecheckAgreesWithQueue(media: seq<Media>, files: seq<MediaFile>, id: Id, bound: nat)
    requires MediaOk(media, bound)
    ensures Precheck(media, files, id).None? <==> exists m :: m in ConversionQueue(media, files) && m.id == id
  {
    var q := ConversionQueue(media, files);
    var k := MediaIndex(media, id);
    if Precheck(media, files, id).None? {
      assert media[k.value] in q;
    }
    if m :| m in q && m.id == id {
      var j :| 0 <= j < |media| && media[j] == m;
      assert j == k.value;
    }
  }

  /**
   * `convertMediaPdfToEpub`: the checks, then the conversion `convert` stands for, then
   * one EPUB file row for the item.
   */
  method ConvertOne(db: Library, id: Id, convert: Id -> Conversion) returns (res: ConvertResult)
    requires db.Valid()
    modifies db`files, db`nextId
    ensures db.Valid()
    ensures res.mediaId == id
    ensures res.success <==> Precheck(db.media, old(db.files), id).None? && convert(id).Converted?
    ensures !res.success ==> db.files == old(db.files) && db.nextId == old(db.nextId)
    ensures Precheck(db.media, old(db.files), id).Some? ==> res.error == Precheck(db.media, old(db.files), id)
    ensures Precheck(db.media, old(db.files), id).None? && convert(id).Failed? ==> res.error == Some(convert(id).message)
    ensures res.success ==>
      res.error.None? && db.files == old(db.files) + [MediaFile(old(db.nextId), id, convert(id).url, Epub)]
  {
    var check := Precheck(db.media, db.files, id);
    if check.Some? {
      return ConvertResult(id, false, check);
    }
    match convert(id) {
      case Failed(message) =>
        res := ConvertResult(id, false, Some(message));
      case Converted(url) =>
        var f := db.AddFile(id, url, Epub);
        res := ConvertResult(id, true, None);
    }
  }

  function QueueIds(queue: seq<Media>): set<Id>
  {
    set m | m in queue :: m.id
  }

  /**
   * The batch loop over the queue. Every queued item still passes the checks when its
   * turn comes, so each result is the conversion's own outcome; the only new files are
   * the EPUB files of the items converted.
   */
  method ConvertAll(db: Library, convert: Id -> Conversion) returns (queue: seq<Media>, results: seq<ConvertResult>)
    requires db.Valid()
    modifies db`files, db`nextId
    ensures db.Valid()
    ensures queue == ConversionQueue(old(db.media), old(db.files))
    ensures |results| == |queue|
    ensures forall i :: 0 <= i < |queue| ==>
      results[i].mediaId == queue[i].id && (results[i].success <==> convert(queue[i].id).Converted?)
    ensures forall i :: 0 <= i < |queue| && !results[i].success ==>
      results[i].error == Some(convert(queue[i].id).message)
    ensures old(db.files) <= db.files && |db.files| == |old(db.files)| + SuccessCount(results)
    ensures forall i :: |old(db.files)| <= i < |db.files| ==>
      db.files[i].fileType == Epub && db.files[i].mediaId in QueueIds(queue) &&
      convert(db.files[i].mediaId) == Converted(db.files[i].fileUrl)
  {
    queue := ConversionQueue(db.media, db.files);
    FilterPairwise(db.media, Needs(db.files), (a: Media, b: Media) => a.id != b.id);
    results := [];
    var k := 0;
    while k < |queue|
      invariant 0 <= k <= |queue|
      invariant Batch(db, old(db.media), old(db.files), queue, k, results, convert)
    {
      var res := ConvertNext(db, old(db.media), old(db.files), queue, k, results, convert);
      results := results + [res];
      k := k + 1;
    }
    BatchDone(old(db.files), db.files, queue, results, convert);
  }

  /** The loop's state after `k` items of the queue of `media0`. */
  ghost predicate Batch(db: Library, media0: seq<Media>, files0: seq<MediaFile>, queue: seq<Media>, k: nat,
                        results: seq<ConvertResult>, convert: Id -> Conversion)
    reads db
  {
    db.Valid() && db.media == media0 &&
    (forall j :: 0 <= j < |queue| ==> queue[j] in media0) &&
    (forall a, b :: 0 <= a < b < |queue| ==> queue[a].id != queue[b].id) &&
    BatchOk(files0, db.files, queue, k, results, convert)
  }

  /** The loop's bookkeeping after `k` items of the queue. */
  predicate BatchOk(files0: seq<MediaFile>, files: seq<MediaFile>, queue: seq<Media>, k: nat,
                    results: seq<ConvertResult>, convert: Id -> Conversion)
  {
    k <= |queue| && ResultsOk(results, queue, k, convert) && StillQueued(queue, k, files) &&
    NewFilesOk(files0, files, QueueIds(queue[..k]), convert) &&
    |files| == |files0| + SuccessCount(results)
  }

  /** One turn of the batch loop: item `k` is converted and the bookkeeping moves on by one. */
  method ConvertNext(db: Library, ghost media0: seq<Media>, ghost files0: seq<MediaFile>, queue: seq<Media>, k: nat,
                     results: seq<ConvertResult>, convert: Id -> Conversion)
    returns (res: ConvertResult)
    requires k < |queue| && Batch(db, media0, files0, queue, k, results, convert)
    modifies db`files, db`nextId
    ensures Batch(db, media0, files0, queue, k + 1, results + [res], convert)
  {
    ghost var before := db.files;
    res := ConvertQueued(db, queue[k], convert);
    StepKeeps(files0, before, db.files, queue, k, results, res, convert);
  }

  /** After the last item the bookkeeping is the batch's whole outcome. */
  lemma BatchDone(files0: seq<MediaFile>, files: seq<MediaFile>, queue: seq<Media>,
                  results: seq<ConvertResult>, convert: Id -> Conversion)
    requires BatchOk(files0, files, queue, |queue|, results, convert)
    ensures |results| == |queue|
    ensures forall i :: 0 <= i < |queue| ==>
      results[i].mediaId == queue[i].id && (results[i].success <==> convert(queue[i].id).Converted?)
    ensures forall i :: 0 <= i < |queue| && !results[i].success ==>
      results[i].error == Some(convert(queue[i].id).message)
    ensures files0 <= files && |files| == |files0| + SuccessCount(results)
    ensures forall i :: |files0| <= i < |files| ==>
      files[i].fileType == Epub && files[i].mediaId in QueueIds(queue) &&
      convert(files[i].mediaId) == Converted(files[i].fileUrl)
  {
    assert queue[..|queue|] == queue;
  }

  /** The results so far are the conversions' own outcomes, item by item. */
  predicate ResultsOk(results: seq<ConvertResult>, queue: seq<Media>, k: nat, convert: Id -> Conversion)
    requires k <= |queue|
  {
    |results| == k &&
    (forall i :: 0 <= i < k ==>
      results[i].mediaId == queue[i].id && (results[i].success <==> convert(queue[i].id).Converted?)) &&
    (forall i :: 0 <= i < k && !results[i].success ==> results[i].error == Some(convert(queue[i].id).message))
  }

  /** The items not reached yet still qualify. */
  predicate StillQueued(queue: seq<Media>, k: nat, files: seq<MediaFile>)
  {
    forall j :: k <= j < |queue| ==> NeedsConversion(queue[j], files)
  }

  /** The files only grew, by EPUB files of the given items, each the conversion's output. */
  predicate NewFilesOk(files0: seq<MediaFile>, files: seq<MediaFile>, ids: set<Id>, convert: Id -> Conversion)
  {
    files0 <= files &&
    forall i :: |files0| <= i < |files| ==>
      files[i].fileType == Epub && files[i].mediaId in ids && convert(files[i].mediaId) == Converted(files[i].fileUrl)
  }

  /** One turn of the batch loop keeps all of its bookkeeping. */
  lemma StepKeeps(files0: seq<MediaFile>, before: seq<MediaFile>, after: seq<MediaFile>, queue: seq<Media>,
                  k: nat, results: seq<ConvertResult>, res: ConvertResult, convert: Id -> Conversion)
    requires k < |queue|
    requires forall a, b :: 0 <= a < b < |queue| ==> queue[a].id != queue[b].id
    requires ResultsOk(results, queue, k, convert) && StillQueued(queue, k, before)
    requires NewFilesOk(files0, before, QueueIds(queue[..k]), convert)
    requires |before| == |files0| + SuccessCount(results)
    requires res.mediaId == queue[k].id && (res.success <==> convert(queue[k].id).Converted?)
    requires !res.success ==> after == before && res.error == Some(convert(queue[k].id).message)
    requires res.success ==>
      |after| == |before| + 1 && after[..|before|] == before &&
      after[|before|].mediaId == queue[k].id && after[|before|].fileType == Epub &&
      convert(queue[k].id) == Converted(after[|before|].fileUrl)
    ensures ResultsOk(results + [res], queue, k + 1, convert) && StillQueued(queue, k + 1, after)
    ensures NewFilesOk(files0, after, QueueIds(queue[..k + 1]), convert)
    ensures |after| == |files0| + SuccessCount(results + [res])
  {
    KeptInQueue(before, after, queue, k);
    NewFilesStep(files0, before, after, queue, k, convert);
    SuccessCountStep(results, res);
  }

  /** One turn of the batch: a queued item passes the checks, so only the conversion decides. */
  method ConvertQueued(db: Library, m: Media, convert: Id -> Conversion) returns (res: ConvertResult)
    requires db.Valid() && m in db.media && NeedsConversion(m, db.files)
    modifies db`files, db`nextId
    ensures db.Valid()
    ensures res.mediaId == m.id && (res.success <==> convert(m.id).Converted?)
    ensures !res.success ==> db.files == old(db.files) && res.error == Some(convert(m.id).message)
    ensures res.success ==>
      |db.files| == |old(db.files)| + 1 && db.files[..|old(db.files)|] == old(db.files) &&
      db.files[|old(db.files)|].mediaId == m.id && db.files[|old(db.files)|].fileType == Epub &&
      convert(m.id) == Converted(db.files[|old(db.files)|].fileUrl)
  {
    QueuedPasses(db.media, db.files, m, db.nextId);
    res := ConvertOne(db, m.id, convert);
    assert res.success ==> db.files[..|old(db.files)|] == old(db.files);
  }

  /** A queued item passes the checks: with unique ids the lookup finds that very item. */
  lemma QueuedPasses(media: seq<Media>, files: seq<MediaFile>, m: Media, bound: nat)
    requires MediaOk(media, bound) && m in media && NeedsConversion(m, files)
    ensures Precheck(media, files, m.id).None?
  {
    var k := MediaIndex(media, m.id);
    var j :| 0 <= j < |media| && media[j] == m;
    assert j == k.value;
  }

  /** Converting item `k` touches no other item's files, so the later ones still qualify. */
  lemma KeptInQueue(before: seq<MediaFile>, after: seq<MediaFile>, queue: seq<Media>, k: nat)
    requires k < |queue|
    requires forall a, b :: 0 <= a < b < |queue| ==> queue[a].id != queue[b].id
    requires forall j :: k <= j < |queue| ==> NeedsConversion(queue[j], before)
    requires after == before || (|after| == |before| + 1 && after[..|before|] == before && after[|before|].mediaId == queue[k].id)
    ensures forall j :: k + 1 <= j < |queue| ==> NeedsConversion(queue[j], after)
  {
    forall j | k + 1 <= j < |queue| ensures NeedsConversion(queue[j], after) {
      var id := queue[j].id;
      var p :| 0 <= p < |before| && before[p].mediaId == id && before[p].fileType == Pdf;
      assert after[p] == before[p];
      forall e | 0 <= e < |after| && after[e].mediaId == id ensures after[e].fileType != Epub {
        if e < |before| {
          assert after[e] == before[e];
        }
      }
    }
  }

  lemma NewFilesStep(files0: seq<MediaFile>, before: seq<MediaFile>, after: seq<MediaFile>, queue: seq<Media>,
                     k: nat, convert: Id -> Conversion)
    requires k < |queue| && files0 <= before
    requires forall i :: |files0| <= i < |before| ==>
      before[i].fileType == Epub && before[i].mediaId in QueueIds(queue[..k]) &&
      convert(before[i].mediaId) == Converted(before[i].fileUrl)
    requires after == before ||
      (|after| == |before| + 1 && after[..|before|] == before && after[|before|].mediaId == queue[k].id &&
       after[|before|].fileType == Epub && convert(queue[k].id) == Converted(after[|before|].fileUrl))
    ensures files0 <= after
    ensures forall i :: |files0| <= i < |after| ==>
      after[i].fileType == Epub && after[i].mediaId in QueueIds(queue[..k + 1]) &&
      convert(after[i].mediaId) == Converted(after[i].fileUrl)
  {
    assert queue[..k + 1] == queue[..k] + [queue[k]];
    assert QueueIds(queue[..k]) <= QueueIds(queue[..k + 1]);
  }

  function Success(): ConvertResult -> bool
  {
    (r: ConvertResult) => r.success
  }

  function Failure(): ConvertResult -> bool
  {
    (r: ConvertResult) => !r.success
  }

  function SuccessCount(results: seq<ConvertResult>): nat
  {
    |Filter(results, Success())|
  }

  function FailureCount(results: seq<ConvertResult>): nat
  {
    |Filter(results, Failure())|
  }

  lemma SuccessCountStep(results: seq<ConvertResult>, res: ConvertResult)
    ensures SuccessCount(results + [res]) == SuccessCount(results) + (if res.success then 1 else 0)
  {
    FilterAppend(results, res, Success());
  }

  /** Every result is counted once: as a success or as a failure. */
  lemma CountsAddUp(results: seq<ConvertResult>)
    ensures SuccessCount(results) + FailureCount(results) == |results|
  {
    FilterSplit(results, Success(), Failure());
  }

  const SummaryPrefix := "Conversion complete: "
  const SucceededWord := " succeeded, "
  const FailedWord := " failed"

  /** The reply's message, from which both counts can be read back, successes first. */
  function Summary(results: seq<ConvertResult>): (r: string)
    ensures
      var a, b := Text.NatToString(SuccessCount(results)), Text.NatToString(FailureCount(results));
      var p := |SummaryPrefix|;
      var q := p + |a| + |SucceededWord|;
      |r| == q + |b| + |FailedWord| && r[..p] == SummaryPrefix &&
      r[p..p + |a|] == a && Text.DecimalValue(a) == SuccessCount(results) && r[p + |a|..q] == SucceededWord &&
      r[q..q + |b|] == b && Text.DecimalValue(b) == FailureCount(results) && r[q + |b|..] == FailedWord
  {
    var a, b := Text.NatToString(SuccessCount(results)), Text.NatToString(FailureCount(results));
    Text.NatToStringValue(SuccessCount(results));
    Text.NatToStringValue(FailureCount(results));
    var r := SummaryPrefix + a + SucceededWord + b + FailedWord;
    var p := |SummaryPrefix|;
    var q := p + |a| + |SucceededWord|;
    assert r[p..p + |a|] == a && r[p + |a|..q] == SucceededWord;
    assert r[q..q + |b|] == b && r[q + |b|..] == FailedWord;
    r
  }

  datatype ConvertReply = ConvertReply(message: string, results: seq<ConvertResult>)

  /**
   * POST /api/media/convert-pdf-to-epub. `mediaId` is `None` when missing or empty; it
   * takes precedence over `all`.
   */
  method Post(db: Library, caller: Option<Id>, mediaId: Option<Id>, all: bool, convert: Id -> Conversion)
    returns (r: Response<ConvertReply>)
    requires db.Valid()
    modifies db`files, db`nextId
    ensures db.Valid()
    ensures caller.None? ==> r == Unauthorized()
    ensures caller.Some? && mediaId.None? && !all ==> r == Error(400, "Either mediaId or all parameter is required")
    ensures r.Error? ==> unchanged(db)
    ensures r.Ok? <==> caller.Some? && (mediaId.Some? || all)
    ensures r.Ok? ==> r.body.message == Summary(r.body.results)
    ensures r.Ok? && mediaId.Some? ==> |r.body.results| == 1 && r.body.results[0].mediaId == mediaId.value
    ensures r.Ok? && mediaId.Some? ==>
      var id := mediaId.value;
      var res := r.body.results[0];
      (res.success <==> Precheck(db.media, old(db.files), id).None? && convert(id).Converted?) &&
      (Precheck(db.media, old(db.files), id).Some? ==> res.error == Precheck(db.media, old(db.files), id)) &&
      (Precheck(db.media, old(db.files), id).None? && convert(id).Failed? ==> res.error == Some(convert(id).message)) &&
      (!res.success ==> db.files == old(db.files) && db.nextId == old(db.nextId)) &&
      (res.success ==> db.files == old(db.files) + [MediaFile(old(db.nextId), id, convert(id).url, Epub)])
    ensures r.Ok? && mediaId.None? ==>
      var queue := ConversionQueue(old(db.media), old(db.files));
      var results := r.body.results;
      |results| == |queue| &&
      (forall i :: 0 <= i < |queue| ==>
        results[i].mediaId == queue[i].id && (results[i].success <==> convert(queue[i].id).Converted?)) &&
      (forall i :: 0 <= i < |queue| && !results[i].success ==> results[i].error == Some(convert(queue[i].id).message)) &&
      old(db.files) <= db.files && |db.files| == |old(db.files)| + SuccessCount(results) &&
      (forall i :: |old(db.files)| <= i < |db.files| ==>
        db.files[i].fileType == Epub && db.files[i].mediaId in QueueIds(queue) &&
        convert(db.files[i].mediaId) == Converted(db.files[i].fileUrl))
  {
    if caller.None? {
      return Unauthorized();
    }
    if mediaId.None? && !all {
      return Error(400, "Either mediaId or all parameter is required");
    }
    var results: seq<ConvertResult>;
    if mediaId.Some? {
      var res := ConvertOne(db, mediaId.value, convert);
      results := [res];
    } else {
      var queue;
      queue, results := ConvertAll(db, convert);
    }
    r := Ok(ConvertReply(Summary(results), results));
  }
}
