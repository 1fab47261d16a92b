/**
 File intake: the selection check and the image filter of `handleFiles`.

 A selected file is a value (name, declared MIME type, declared size and the
 bytes it holds). Intake rejects a selection of more than `MaxSelection`
 entries, counted before any filtering, and otherwise keeps, in their original
 order, the entries whose declared type starts with "image/".
 */
module Intake {

  type Bytes = seq<bv8>

  /** A file handle as the browser hands it over. */
  datatype File = File(name: string, mime: string, size: nat, content: Bytes)

  /** The largest selection `handleFiles` accepts. */
  const MaxSelection: nat := 100

  /** The declared-type prefix that marks a file as an image. */
  const ImagePrefix: string := "image/"

  /** `file.type.startsWith('image/')`: the type is "image/" followed by anything. */
  predicate IsImage(f: File): (b: bool)
    ensures b <==> exists subtype :: f.mime == ImagePrefix + subtype
  {
    if ImagePrefix <= f.mime then
      assert f.mime == ImagePrefix + f.mime[|ImagePrefix|..];
      true
    else
      false
  }

  /**
   `files.length > 100`: the selection is rejected as a whole. The count is
   taken before filtering, so an accepted selection never holds more than
   `MaxSelection` images.
   */
  predicate TooMany(files: seq<File>): (b: bool)
    ensures !b ==> |FilterImages(files)| <= MaxSelection
  {
    |files| > MaxSelection
  }

  /** `Array.from(files).filter(file => file.type.startsWith('image/'))` */
  function FilterImages(files: seq<File>): (r: seq<File>)
    ensures |r| <= |files|
    ensures forall f :: f in r ==> f in files && IsImage(f)
    ensures forall f :: f in files && IsImage(f) ==> f in r
  {
    if files == [] then []
    else if IsImage(files[0]) then [files[0]] + FilterImages(files[1..])
    else FilterImages(files[1..])
  }

  /** `r` is `s` with some entries removed and the rest kept in their order. */
  ghost predicate Subsequence<T>(r: seq<T>, s: seq<T>)
    decreases |s|
  {
    if r == [] then true
    else if s == [] then false
    else if r[0] == s[0] then Subsequence(r[1..], s[1..])
    else Subsequence(r, s[1..])
  }

  /** The filter keeps the relative order of the entries it keeps. */
  lemma {:induction false} FilterImagesIsSubsequence(files: seq<File>)
    ensures Subsequence(FilterImages(files), files)
  {
    if files != [] {
      FilterImagesIsSubsequence(files[1..]);
      if !IsImage(files[0]) {
        SubsequenceOfTail(FilterImages(files[1..]), files);
      }
    }
  }

  /** Dropping the head of `s` keeps every subsequence of the tail a subsequence of `s`. */
  lemma {:induction false} SubsequenceOfTail<T>(r: seq<T>, s: seq<T>)
    requires s != []
    requires Subsequence(r, s[1..])
    ensures Subsequence(r, s)
    decreases |s|, 0
  {
    if r != [] && r[0] == s[0] {
      SubsequenceDropHead(r, s[1..]);
    }
  }

  /** A subsequence stays one when its first entry is removed. */
  lemma {:induction false} SubsequenceDropHead<T>(r: seq<T>, s: seq<T>)
    requires r != []
    requires Subsequence(r, s)
    ensures Subsequence(r[1..], s)
    decreases |s|, 1
  {
    if s != [] {
      if r[0] == s[0] {
        if r[1..] != [] {
          SubsequenceOfTail(r[1..], s);
        }
      } else {
        SubsequenceDropHead(r, s[1..]);
        SubsequenceOfTail(r[1..], s);
      }
    }
  }

  /**
   The filter works entry by entry: filtering a concatenation is filtering
   each part. With `FilterImagesSingle` this fixes the result entirely,
   order and repeated entries included.
   */
  lemma {:induction false} FilterImagesAppend(a: seq<File>, b: seq<File>)
    ensures FilterImages(a + b) == FilterImages(a) + FilterImages(b)
  {
    if a == [] {
      assert a + b == b;
    } else {
      assert (a + b)[0] == a[0];
      assert (a + b)[1..] == a[1..] + b;
      FilterImagesAppend(a[1..], b);
    }
  }

  lemma FilterImagesSingle(f: File)
    ensures FilterImages([f]) == if IsImage(f) then [f] else []
  {
    assert [f][1..] == [];
  }

  /** The filtered list is empty exactly when no entry is an image. */
  lemma {:induction false} FilterImagesEmpty(files: seq<File>)
    ensures FilterImages(files) == [] <==> forall f :: f in files ==> !IsImage(f)
  {
    if files != [] {
      FilterImagesEmpty(files[1..]);
      assert forall f :: f in files <==> f == files[0] || f in files[1..];
    }
  }

  /** A selection that holds only images passes the filter unchanged. */
  lemma {:induction false} FilterImagesKeepsImages(files: seq<File>)
    requires forall f :: f in files ==> IsImage(f)
    ensures FilterImages(files) == files
  {
    if files != [] {
      assert forall f :: f in files[1..] ==> f in files;
      FilterImagesKeepsImages(files[1..]);
    }
  }

  /** Filtering twice is filtering once. */
  lemma FilterImagesIdempotent(files: seq<File>)
    ensures FilterImages(FilterImages(files)) == FilterImages(files)
  {
    FilterImagesKeepsImages(FilterImages(files));
  }
}
