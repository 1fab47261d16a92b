/**
 The per-image step of the batch: `compressImage` resolves with the
 re-encoded bytes and the derived name.

 Decoding, drawing onto a canvas and `canvas.toBlob` are the browser's; the
 model takes them together as an opaque `Encoder` from the file's bytes, the
 target format and the quality to the output bytes. Only the name is
 computed here.
 */
module Compressor {
  import opened Intake
  import opened Naming

  /** The browser's decode, draw and re-encode, seen as one function. */
  type Encoder = (Bytes, string, nat) -> Bytes

  /** What `compressImage` resolves with: `{ blob, name }`. */
  datatype Compressed = Compressed(blob: Bytes, name: string)

  /** `compressImage(file, quality, format)` */
  function CompressImage(f: File, format: string, quality: nat, encode: Encoder): Compressed
  {
    Compressed(encode(f.content, format, quality), DeriveName(f.name, format))
  }

  /**
   A compressed image carries the encoder's bytes for that file, format and
   quality, under the file's base name and the format's extension.
   */
  lemma CompressImageName(f: File, format: string, quality: nat, encode: Encoder)
    ensures CompressImage(f, format, quality, encode).blob == encode(f.content, format, quality)
    ensures CompressImage(f, format, quality, encode).name == BaseName(f.name) + "." + Extension(format)
  {
    DeriveNameParts(f.name, format);
  }

  /**
   The results of compressing `images` one after another, each appended in
   turn: the value of `compressedImages` when the batch loop has run.
   */
  function CompressEach(images: seq<File>, format: string, quality: nat, encode: Encoder): (r: seq<Compressed>)
    ensures |r| == |images|
  {
    if images == [] then []
    else
      CompressEach(images[..|images| - 1], format, quality, encode)
        + [CompressImage(images[|images| - 1], format, quality, encode)]
  }

  /** One result per image, and result `k` is the compression of image `k`. */
  lemma {:induction false} CompressEachAt(images: seq<File>, format: string, quality: nat, encode: Encoder)
    ensures |CompressEach(images, format, quality, encode)| == |images|
    ensures forall k :: 0 <= k < |images| ==>
              CompressEach(images, format, quality, encode)[k] == CompressImage(images[k], format, quality, encode)
  {
    if images != [] {
      CompressEachAt(images[..|images| - 1], format, quality, encode);
    }
  }

  /** Compressing a longer list extends the results of its prefix. */
  lemma {:induction false} CompressEachAppend(images: seq<File>, f: File, format: string, quality: nat, encode: Encoder)
    ensures CompressEach(images + [f], format, quality, encode)
              == CompressEach(images, format, quality, encode) + [CompressImage(f, format, quality, encode)]
  {
    assert (images + [f])[..|images|] == images;
  }

  /** The output names, in order. */
  function Names(results: seq<Compressed>): (names: seq<string>)
    ensures |names| == |results|
    ensures forall k :: 0 <= k < |results| ==> names[k] == results[k].name
  {
    if results == [] then [] else [results[0].name] + Names(results[1..])
  }

  /**
   Re-running a batch over the same images and format gives the same names in
   the same number, whatever bytes the encoder produces and whatever the
   quality.
   */
  lemma SameNamesOnRerun(images: seq<File>, format: string, q1: nat, q2: nat, e1: Encoder, e2: Encoder)
    ensures Names(CompressEach(images, format, q1, e1)) == Names(CompressEach(images, format, q2, e2))
  {
    CompressEachAt(images, format, q1, e1);
    CompressEachAt(images, format, q2, e2);
  }
}
