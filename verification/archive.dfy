/**
 Archive assembly of `downloadAll`: each compressed result is handed to
 `zip.file(name, blob)` in order, and the archive is offered for download
 as "compressed_images.zip".

 The archive library and the download link are the browser's; the model
 stops at the ordered list of entries handed to the library. What the
 library does with two entries of the same name is not modelled.
 */
module Archive {
  import opened Intake
  import opened Compressor

  /** The download's file name. */
  const ArchiveName: string := "compressed_images.zip"

  /** One `zip.file(name, blob)` call. */
  datatype Entry = Entry(name: string, blob: Bytes)

  /** What `downloadAll` hands over: the archive's name and its entries, in call order. */
  datatype Plan = Plan(fileName: string, entries: seq<Entry>)

  /** The entries for `results`, each result becoming one entry at the end. */
  function Entries(results: seq<Compressed>): (r: seq<Entry>)
    ensures |r| == |results|
  {
    if results == [] then []
    else Entries(results[..|results| - 1]) + [Entry(results[|results| - 1].name, results[|results| - 1].blob)]
  }

  /** Entry `k` carries the name and bytes of result `k`, and there is one entry per result. */
  lemma {:induction false} EntriesAt(results: seq<Compressed>)
    ensures |Entries(results)| == |results|
    ensures forall k :: 0 <= k < |results| ==>
              Entries(results)[k] == Entry(results[k].name, results[k].blob)
  {
    if results != [] {
      EntriesAt(results[..|results| - 1]);
    }
  }

  /** `downloadAll(compressedImages)`: the `forEach` over the results. */
  method DownloadAll(results: seq<Compressed>) returns (plan: Plan)
    ensures plan.fileName == ArchiveName
    ensures plan.entries == Entries(results)
    ensures |plan.entries| == |results|
    ensures forall k :: 0 <= k < |results| ==>
              plan.entries[k].name == results[k].name && plan.entries[k].blob == results[k].blob
  {
    var entries: seq<Entry> := [];
    var i := 0;
    while i < |results|
      invariant 0 <= i <= |results|
      invariant entries == Entries(results[..i])
    {
      assert results[..i + 1][..i] == results[..i];
      entries := entries + [Entry(results[i].name, results[i].blob)];
      i := i + 1;
    }
    assert results[..i] == results;
    EntriesAt(results);
    plan := Plan(ArchiveName, entries);
  }

  /**
   The archive of a batch: one entry per image, in input order, each under
   the name derived from the image's own name and the target format.
   */
  lemma BatchArchive(images: seq<File>, format: string, quality: nat, encode: Encoder)
    ensures |Entries(CompressEach(images, format, quality, encode))| == |images|
    ensures forall k :: 0 <= k < |images| ==>
              Entries(CompressEach(images, format, quality, encode))[k]
                == Entry(Naming.DeriveName(images[k].name, format), encode(images[k].content, format, quality))
  {
    CompressEachAt(images, format, quality, encode);
    EntriesAt(CompressEach(images, format, quality, encode));
  }
}
