/**
 The page's batch state and its two handlers: `handleFiles`, run on every
 drop or file-picker change, and the click handler of the compress-all
 button, which compresses the images one after another.

 `PageState` is the state both handlers read and write: the `images` list
 and what the page shows (batch controls, image grid, the processed and
 total counters, the progress bar, the download button and the results that
 button hands to `downloadAll`). `AfterIntake` and `AfterCompressAll` say
 what each handler does to it; the class `Page` runs the same steps on
 mutable fields, and its methods are proved to end in those states.
 */
module Batch {
  import opened Intake
  import opened Compressor

  /** `progressFill.style.width`: `done / total` of the bar is filled. */
  datatype Fill = Fill(done: nat, total: nat)

  datatype PageState = PageState(
    images: seq<File>,            // `images`
    previewed: seq<File>,         // the list last handed to `displayImages`
    controlsShown: bool,          // `.batch-controls` displayed
    gridShown: bool,              // `#imageList` displayed as a grid
    totalCount: nat,              // `#totalCount`
    processedCount: nat,          // `#processedCount`
    progress: Fill,               // `#progressFill`
    downloadShown: bool,          // `#downloadAllBtn` displayed
    download: seq<Compressed>     // what `#downloadAllBtn` hands to `downloadAll`
  )

  /** The page before any intake: nothing selected, nothing shown. */
  const Initial: PageState := PageState([], [], false, false, 0, 0, Fill(0, 0), false, [])

  /** How `handleFiles` ended. */
  datatype IntakeOutcome =
    | Rejected     // more than `MaxSelection` entries: alert and return
    | NoImages     // no entry is an image: `images` emptied, nothing else touched
    | Accepted     // `images` replaced and the batch controls reset

  /**
   What the handlers keep true: at most `MaxSelection` images, all of them
   images; the total counter matches a non-empty `images`; neither the
   processed counter nor the bar passes its total; at most one result per
   accepted image.
   */
  ghost predicate Consistent(s: PageState)
  {
    && |s.images| <= MaxSelection
    && (forall f :: f in s.images ==> IsImage(f))
    && (s.images != [] ==> s.totalCount == |s.images|)
    && s.processedCount <= s.totalCount
    && s.progress.done <= s.progress.total
    && |s.download| <= MaxSelection
  }

  /** `handleFiles(files)` */
  function AfterIntake(s: PageState, files: seq<File>): (r: (PageState, IntakeOutcome))
    ensures r.1 == Rejected <==> TooMany(files)
    ensures r.1 == Rejected ==> r.0 == s
    ensures r.1 == NoImages <==> !TooMany(files) && forall f :: f in files ==> !IsImage(f)
    ensures r.1 != Rejected ==> r.0.images == FilterImages(files)
    ensures r.1 == NoImages ==> r.0 == s.(images := [])
    ensures r.1 == Accepted ==>
              && 0 < |r.0.images| <= MaxSelection
              && r.0.previewed == r.0.images
              && r.0.controlsShown && r.0.gridShown && !r.0.downloadShown
              && r.0.totalCount == |r.0.images| && r.0.processedCount == 0
              && r.0.progress == Fill(0, |r.0.images|)
              && r.0.download == s.download
  {
    if TooMany(files) then (s, Rejected)
    else
      var images := FilterImages(files);
      FilterImagesEmpty(files);
      if |images| == 0 then (s.(images := images), NoImages)
      else
        (s.(images := images, previewed := images, controlsShown := true, gridShown := true,
            totalCount := |images|, processedCount := 0, progress := Fill(0, |images|),
            downloadShown := false),
         Accepted)
  }

  /** The compress-all click handler. */
  function AfterCompressAll(s: PageState, format: string, quality: nat, encode: Encoder): (r: PageState)
    ensures r.images == s.images && r.previewed == s.previewed
    ensures r.controlsShown == s.controlsShown && r.gridShown == s.gridShown
    ensures r.totalCount == s.totalCount
    ensures s.images != [] ==> r.processedCount == |s.images| && r.progress == Fill(|s.images|, |s.images|)
    ensures s.images == [] ==> r.processedCount == s.processedCount && r.progress == s.progress
    ensures r.downloadShown
    ensures |r.download| == |s.images|
    ensures forall k :: 0 <= k < |s.images| ==> r.download[k] == CompressImage(s.images[k], format, quality, encode)
  {
    CompressEachAt(s.images, format, quality, encode);
    var n := |s.images|;
    var s' := s.(downloadShown := true, download := CompressEach(s.images, format, quality, encode));
    if n == 0 then s' else s'.(processedCount := n, progress := Fill(n, n))
  }

  lemma InitialConsistent()
    ensures Consistent(Initial)
  {
  }

  /** Every intake, accepted or not, keeps the page consistent. */
  lemma IntakeKeepsConsistent(s: PageState, files: seq<File>)
    requires Consistent(s)
    ensures Consistent(AfterIntake(s, files).0)
  {
  }

  /** A compress-all run keeps the page consistent. */
  lemma CompressAllKeepsConsistent(s: PageState, format: string, quality: nat, encode: Encoder)
    requires Consistent(s)
    ensures Consistent(AfterCompressAll(s, format, quality, encode))
  {
  }

  /**
   After an accepted intake, `images` is the subsequence of the selection
   made of its image entries, in their original order.
   */
  lemma AcceptedImagesInOrder(s: PageState, files: seq<File>)
    requires AfterIntake(s, files).1 == Accepted
    ensures Subsequence(AfterIntake(s, files).0.images, files)
    ensures forall f :: f in files ==> (f in AfterIntake(s, files).0.images <==> IsImage(f))
  {
    FilterImagesIsSubsequence(files);
  }

  /**
   A selection without images after an accepted batch empties `images` but
   leaves the controls up; compressing then offers an archive with no entries.
   */
  lemma EmptyIntakeLeavesControls(s: PageState, files: seq<File>, format: string, quality: nat, encode: Encoder)
    requires s.controlsShown
    requires AfterIntake(s, files).1 == NoImages
    ensures AfterIntake(s, files).0.controlsShown
    ensures AfterCompressAll(AfterIntake(s, files).0, format, quality, encode).download == []
    ensures AfterCompressAll(AfterIntake(s, files).0, format, quality, encode).downloadShown
  {
  }

  /**
   The state the compress-all loop ends in, given the counter, the bar and
   the results it leaves behind.
   */
  lemma CompressAllEndState(s: PageState, format: string, quality: nat, encode: Encoder,
                            processedCount: nat, progress: Fill, results: seq<Compressed>)
    requires results == CompressEach(s.images, format, quality, encode)
    requires s.images != [] ==> processedCount == |s.images| && progress == Fill(|s.images|, |s.images|)
    requires s.images == [] ==> processedCount == s.processedCount && progress == s.progress
    ensures AfterCompressAll(s, format, quality, encode)
              == s.(processedCount := processedCount, progress := progress, downloadShown := true, download := results)
  {
  }

  /** The page as the script's closure sees it. */
  class Page {
    var images: seq<File>
    var previewed: seq<File>
    var controlsShown: bool
    var gridShown: bool
    var totalCount: nat
    var processedCount: nat
    var progress: Fill
    var downloadShown: bool
    var download: seq<Compressed>

    function State(): PageState
      reads this
    {
      PageState(images, previewed, controlsShown, gridShown, totalCount, processedCount,
                progress, downloadShown, download)
    }

    ghost predicate Valid()
      reads this
    {
      Consistent(State())
    }

    constructor ()
      ensures Valid()
      ensures State() == Initial
    {
      images, previewed := [], [];
      controlsShown, gridShown := false, false;
      totalCount, processedCount := 0, 0;
      progress := Fill(0, 0);
      downloadShown := false;
      download := [];
    }

    /** `handleFiles(files)` */
    method HandleFiles(files: seq<File>) returns (outcome: IntakeOutcome)
      requires Valid()
      modifies this
      ensures Valid()
      ensures (State(), outcome) == AfterIntake(old(State()), files)
    {
      IntakeKeepsConsistent(State(), files);
      if TooMany(files) {
        return Rejected;
      }
      images := FilterImages(files);
      if |images| == 0 {
        return NoImages;
      }
      previewed := images;
      controlsShown := true;
      gridShown := true;
      totalCount := |images|;
      processedCount := 0;
      progress := Fill(0, |images|);
      downloadShown := false;
      outcome := Accepted;
    }

    /**
     The compress-all click handler: run the batch loop, then show the
     download button bound to its results. `trace` records the bar after
     each image.
     */
    method CompressAll(format: string, quality: nat, encode: Encoder) returns (ghost trace: seq<Fill>)
      requires Valid()
      modifies this
      ensures Valid()
      ensures State() == AfterCompressAll(old(State()), format, quality, encode)
      ensures |trace| == |images|
      ensures forall k :: 0 <= k < |trace| ==> trace[k] == Fill(k + 1, |images|)
    {
      ghost var before := State();
      var compressedImages;
      compressedImages, trace := RunBatch(format, quality, encode);
      downloadShown := true;
      download := compressedImages;
      CompressAllEndState(before, format, quality, encode, processedCount, progress, compressedImages);
      CompressAllKeepsConsistent(before, format, quality, encode);
    }

    /**
     The loop of the compress-all handler: compress each image in turn,
     append the result, count it and move the bar.
     */
    method RunBatch(format: string, quality: nat, encode: Encoder)
      returns (compressedImages: seq<Compressed>, ghost trace: seq<Fill>)
      modifies this`processedCount, this`progress
      ensures compressedImages == CompressEach(images, format, quality, encode)
      ensures images != [] ==> processedCount == |images| && progress == Fill(|images|, |images|)
      ensures images == [] ==> processedCount == old(processedCount) && progress == old(progress)
      ensures |trace| == |images|
      ensures forall k :: 0 <= k < |trace| ==> trace[k] == Fill(k + 1, |images|)
    {
      var processed := 0;
      compressedImages := [];
      trace := [];
      while processed < |images|
        invariant processed <= |images|
        invariant compressedImages == CompressEach(images[..processed], format, quality, encode)
        invariant processed > 0 ==> processedCount == processed && progress == Fill(processed, |images|)
        invariant processed == 0 ==> processedCount == old(processedCount) && progress == old(progress)
        invariant |trace| == processed
        invariant forall k :: 0 <= k < processed ==> trace[k] == Fill(k + 1, |images|)
      {
        var compressed := CompressImage(images[processed], format, quality, encode);
        CompressEachAppend(images[..processed], images[processed], format, quality, encode);
        assert images[..processed + 1] == images[..processed] + [images[processed]];
        compressedImages := compressedImages + [compressed];
        processed := processed + 1;
        processedCount := processed;
        progress := Fill(processed, |images|);
        trace := trace + [progress];
      }
      assert images[..processed] == images;
    }
  }
}
