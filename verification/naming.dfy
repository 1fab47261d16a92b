/**
 Output-name derivation of `compressImage`:
 `file.name.split('.')[0] + '.' + format.split('/')[1]`.

 `Split` is JavaScript's `String.prototype.split` with a one-character
 separator: it always yields at least one part, and the parts, joined back
 with the separator, give the original text. Indexing past the last part
 yields `undefined`, which string concatenation turns into the text
 "undefined"; `Part` models that lookup.
 */
module Naming {

  /** `s.split(sep)` for a one-character separator. */
  function Split(s: string, sep: char): (parts: seq<string>)
    ensures |parts| >= 1
    ensures forall p :: p in parts ==> sep !in p
  {
    if s == [] then [""]
    else
      var rest := Split(s[1..], sep);
      if s[0] == sep then [""] + rest
      else [[s[0]] + rest[0]] + rest[1..]
  }

  /** `parts.join(sep)`: the inverse of `Split`. */
  function Join(parts: seq<string>, sep: char): string
    requires |parts| >= 1
  {
    if |parts| == 1 then parts[0] else parts[0] + [sep] + Join(parts[1..], sep)
  }

  /**
   The text `undefined` contributes to a concatenation: what an array lookup
   past the end yields.
   */
  const Undefined: string := "undefined"

  /** `parts[k]` inside a string concatenation. */
  function Part(parts: seq<string>, k: nat): string
  {
    if k < |parts| then parts[k] else Undefined
  }

  /** `file.name.split('.')[0] + '.' + format.split('/')[1]` */
  function DeriveName(fileName: string, format: string): string
  {
    Split(fileName, '.')[0] + "." + Part(Split(format, '/'), 1)
  }

  /** The position of the first `c` in `s`, or `|s|` when there is none. */
  function IndexOf(s: string, c: char): (i: nat)
    ensures i <= |s|
    ensures c !in s[..i]
    ensures i < |s| ==> s[i] == c
  {
    if s == [] then 0
    else if s[0] == c then 0
    else
      var j := IndexOf(s[1..], c);
      assert s[..j + 1] == [s[0]] + s[1..][..j];
      1 + j
  }

  /** Joining the parts of a split gives the text back. */
  lemma {:induction false} JoinSplit(s: string, sep: char)
    ensures Join(Split(s, sep), sep) == s
  {
    if s != [] {
      var rest := Split(s[1..], sep);
      JoinSplit(s[1..], sep);
      if s[0] == sep {
        assert ([""] + rest)[1..] == rest;
      } else {
        var parts := [[s[0]] + rest[0]] + rest[1..];
        if |rest| > 1 {
          assert parts[1..] == rest[1..];
          assert Join(rest, sep) == rest[0] + [sep] + Join(rest[1..], sep);
        }
      }
    }
  }

  /** A text without the separator splits into itself alone. */
  lemma {:induction false} SplitWithoutSep(s: string, sep: char)
    requires sep !in s
    ensures Split(s, sep) == [s]
  {
    if s != [] {
      assert sep !in s[1..] by {
        forall c | c in s[1..] ensures c in s { }
      }
      SplitWithoutSep(s[1..], sep);
      assert s[0] != sep && [s[0]] + s[1..] == s;
    }
  }

  /** Splitting `p + [sep] + t`, where `p` has no separator, peels off `p`. */
  lemma {:induction false} SplitAtFirstSep(p: string, sep: char, t: string)
    requires sep !in p
    ensures Split(p + [sep] + t, sep) == [p] + Split(t, sep)
  {
    var s := p + [sep] + t;
    if p == [] {
      assert s[0] == sep && s[1..] == t;
    } else {
      assert s[0] == p[0] && s[1..] == p[1..] + [sep] + t;
      assert sep !in p[1..] by {
        forall c | c in p[1..] ensures c in p { }
      }
      SplitAtFirstSep(p[1..], sep, t);
      assert [p[0]] + p[1..] == p;
    }
  }

  /** Splitting a join of separator-free parts gives the parts back. */
  lemma {:induction false} SplitJoin(parts: seq<string>, sep: char)
    requires |parts| >= 1
    requires forall p :: p in parts ==> sep !in p
    ensures Split(Join(parts, sep), sep) == parts
  {
    if |parts| == 1 {
      SplitWithoutSep(parts[0], sep);
    } else {
      assert forall p :: p in parts[1..] ==> p in parts;
      SplitJoin(parts[1..], sep);
      SplitAtFirstSep(parts[0], sep, Join(parts[1..], sep));
    }
  }

  /**
   The first part of a split is the text before the first separator, and the
   remaining parts are the split of the text after it.
   */
  lemma SplitByIndex(s: string, sep: char)
    ensures Split(s, sep)[0] == s[..IndexOf(s, sep)]
    ensures IndexOf(s, sep) < |s| ==>
              Split(s, sep)[1..] == Split(s[IndexOf(s, sep) + 1..], sep)
  {
    var i := IndexOf(s, sep);
    if i < |s| {
      assert s == s[..i] + [sep] + s[i + 1..];
      SplitAtFirstSep(s[..i], sep, s[i + 1..]);
    } else {
      assert s[..i] == s;
      SplitWithoutSep(s, sep);
    }
  }

  /** The base name: the file name up to its first '.'. */
  function BaseName(fileName: string): (b: string)
    ensures b <= fileName
    ensures '.' !in b
    ensures b == fileName || fileName[|b|] == '.'
  {
    fileName[..IndexOf(fileName, '.')]
  }

  /**
   The extension: the text of the format between its first and second '/'
   (up to the end when there is no second), or "undefined" when the format
   has no '/'.
   */
  function Extension(format: string): (e: string)
    ensures '/' in format ==> '/' !in e
    ensures '/' in format ==>
              var rest := format[IndexOf(format, '/') + 1..];
              e <= rest && (e == rest || rest[|e|] == '/')
    ensures '/' !in format ==> e == Undefined
  {
    var i := IndexOf(format, '/');
    if i < |format| then
      var rest := format[i + 1..];
      rest[..IndexOf(rest, '/')]
    else
      assert format[..i] == format;
      Undefined
  }

  /** `split('.')[0]` is the base name. */
  lemma FirstPartIsBaseName(fileName: string)
    ensures Split(fileName, '.')[0] == BaseName(fileName)
  {
    SplitByIndex(fileName, '.');
  }

  /** `split('/')[1]` inside a concatenation is the extension. */
  lemma SecondPartIsExtension(format: string)
    ensures Part(Split(format, '/'), 1) == Extension(format)
  {
    SplitByIndex(format, '/');
    var i := IndexOf(format, '/');
    if i < |format| {
      SplitByIndex(format[i + 1..], '/');
    } else {
      assert format[..i] == format;
      SplitWithoutSep(format, '/');
    }
  }

  /** The name expression equals base name, '.', extension. */
  lemma DeriveNameParts(fileName: string, format: string)
    ensures DeriveName(fileName, format) == BaseName(fileName) + "." + Extension(format)
  {
    FirstPartIsBaseName(fileName);
    SecondPartIsExtension(format);
  }

  /** A file name without a '.' is kept whole. */
  lemma NoDotKeepsWholeName(fileName: string, format: string)
    requires '.' !in fileName
    ensures DeriveName(fileName, format) == fileName + "." + Extension(format)
  {
    DeriveNameParts(fileName, format);
  }

  /** Only the text before the first '.' survives: "a.b.c" gives base "a". */
  lemma FirstDotWins(base: string, rest: string, format: string)
    requires '.' !in base
    ensures DeriveName(base + "." + rest, format) == base + "." + Extension(format)
  {
    assert base + "." + rest == base + ['.'] + rest;
    SplitAtFirstSep(base, '.', rest);
    SecondPartIsExtension(format);
  }

  /** A name that starts with '.' has an empty base. */
  lemma LeadingDotEmptyBase(rest: string, format: string)
    ensures DeriveName("." + rest, format) == "." + Extension(format)
  {
    FirstDotWins("", rest, format);
    assert "" + "." + rest == "." + rest;
  }

  /** The JPEG format the page offers gives "jpeg", not "jpg". */
  lemma JpegExtension()
    ensures Extension("image/jpeg") == "jpeg"
  {
    assert "image" + "/" + "jpeg" == "image/jpeg";
    FormatExtension("image", "jpeg");
  }

  lemma PngExtension()
    ensures Extension("image/png") == "png"
  {
    assert "image" + "/" + "png" == "image/png";
    FormatExtension("image", "png");
  }

  lemma WebpExtension()
    ensures Extension("image/webp") == "webp"
  {
    assert "image" + "/" + "webp" == "image/webp";
    FormatExtension("image", "webp");
  }

  /** A `type/subtype` format with no further '/' gives `subtype`. */
  lemma FormatExtension(kind: string, subtype: string)
    requires '/' !in kind && '/' !in subtype
    ensures Extension(kind + "/" + subtype) == subtype
  {
    var f := kind + "/" + subtype;
    assert f[|kind|] == '/';
    assert f[..|kind|] == kind;
    assert '/' in f;
    var i := IndexOf(f, '/');
    assert i == |kind|;
    assert f[i + 1..] == subtype;
  }

  /**
   A name `base.rest` with a dot-free base, compressed to a `kind/subtype`
   format, is named `base.subtype`.
   */
  lemma DeriveNameOf(base: string, rest: string, kind: string, subtype: string)
    requires '.' !in base && '/' !in kind && '/' !in subtype
    ensures DeriveName(base + "." + rest, kind + "/" + subtype) == base + "." + subtype
  {
    FirstDotWins(base, rest, kind + "/" + subtype);
    FormatExtension(kind, subtype);
  }

  /** "photo.png" compressed to JPEG is named "photo.jpeg". */
  lemma PhotoToJpeg()
    ensures DeriveName("photo.png", "image/jpeg") == "photo.jpeg"
  {
    DeriveNameOf("photo", "png", "image", "jpeg");
    assert "photo" + "." + "png" == "photo.png";
    assert "image" + "/" + "jpeg" == "image/jpeg";
    assert "photo" + "." + "jpeg" == "photo.jpeg";
  }

  /** "a.b.c" compressed to WebP is named "a.webp". */
  lemma SeveralDotsToWebp()
    ensures DeriveName("a.b.c", "image/webp") == "a.webp"
  {
    DeriveNameOf("a", "b.c", "image", "webp");
    assert "a" + "." + "b.c" == "a.b.c";
    assert "image" + "/" + "webp" == "image/webp";
    assert "a" + "." + "webp" == "a.webp";
  }

  /** Different inputs can share an output name: "photo.png" and "photo.gif". */
  lemma DeriveNameCollides(format: string)
    ensures DeriveName("photo.png", format) == DeriveName("photo.gif", format)
  {
    FirstDotWins("photo", "png", format);
    FirstDotWins("photo", "gif", format);
    assert "photo" + "." + "png" == "photo.png";
    assert "photo" + "." + "gif" == "photo.gif";
  }
}
