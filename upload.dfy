/**
 * Local image storage (src/lib/upload.ts): the stored file names, the
 * processing of an upload into a web-size image and a thumbnail, and the
 * removal of both files.
 */
module Upload {
  import opened Wrappers
  import opened Text
  import opened Seqs
  import opened Catalogue

  // ---------------------------------------------------------------------------
  // Node's `path.extname` and `path.basename` (POSIX)
  // ---------------------------------------------------------------------------

  predicate IsSlash(c: char) { c == '/' }

  /** The part of `t` after its last occurrence of `ch`. */
  function AfterLast(t: string, ch: char): string {
    if t == [] || t[|t| - 1] == ch then []
    else AfterLast(t[..|t| - 1], ch) + [t[|t| - 1]]
  }

  /** `AfterLast` is the longest suffix free of `ch`: a suffix, `ch`-free, and preceded by `ch` unless it is all of `t`. */
  lemma {:induction false} AfterLastShape(t: string, ch: char)
    ensures |AfterLast(t, ch)| <= |t| && AfterLast(t, ch) == t[|t| - |AfterLast(t, ch)|..]
    ensures forall i :: 0 <= i < |AfterLast(t, ch)| ==> AfterLast(t, ch)[i] != ch
    ensures |AfterLast(t, ch)| == |t| || t[|t| - |AfterLast(t, ch)| - 1] == ch
  {
    if t != [] && t[|t| - 1] != ch {
      var init := t[..|t| - 1];
      AfterLastShape(init, ch);
      var p := AfterLast(init, ch);
      var a := AfterLast(t, ch);
      assert a == p + [t[|t| - 1]];
      assert a == t[|t| - |a|..] by {
        assert init[|init| - |p|..] + [t[|t| - 1]] == t[|t| - |p| - 1..];
      }
      assert forall i :: 0 <= i < |a| ==> a[i] != ch by {
        forall i | 0 <= i < |a| ensures a[i] != ch {
          if i < |p| { assert a[i] == p[i]; }
        }
      }
      assert |a| == |t| || t[|t| - |a| - 1] == ch by {
        if |p| < |init| { assert t[|t| - |a| - 1] == init[|init| - |p| - 1]; }
      }
    }
  }

  /** The last path component, trailing slashes ignored. */
  function Component(path: string): string {
    AfterLast(DropLastWhile(path, IsSlash), '/')
  }

  /** A component never contains a slash. */
  lemma ComponentHasNoSlash(path: string)
    ensures forall i :: 0 <= i < |Component(path)| ==> Component(path)[i] != '/'
  {
    AfterLastShape(DropLastWhile(path, IsSlash), '/');
  }

  /**
   * `path.extname(path)`: from the component's last dot to its end; empty
   * when there is no dot, when the dot starts the component (".bashrc"), and
   * for "..".
   */
  function ExtName(path: string): string {
    match LastDot(Component(path))
    case None => []
    case Some(d) =>
      if d == 0 || Component(path) == ".." then [] else Component(path)[d..]
  }

  /** An extension is empty, or a dot and dot-free text forming a proper suffix of the component. */
  lemma ExtNameShape(path: string)
    ensures var r := ExtName(path);
      && (r == [] || (r[0] == '.' && |r| < |Component(path)| && EndsWith(Component(path), r)))
      && (forall i :: 1 <= i < |r| ==> r[i] != '.')
  {
  }

  /**
   * `path.basename(path, ext)`: the last component, with `ext` cut off its
   * end when it is a proper, case-sensitive suffix of it.
   */
  function BaseName(path: string, ext: string): (r: string)
    ensures ext != [] && ext == path ==> r == []
    ensures ext != path && ext != [] && |ext| < |Component(path)| && EndsWith(Component(path), ext) ==>
      r + ext == Component(path)
    ensures !(ext != [] && ext == path) && !(ext != [] && |ext| < |Component(path)| && EndsWith(Component(path), ext)) ==>
      r == Component(path)
  {
    if ext != [] && ext == path then []
    else if ext != [] && |ext| < |Component(path)| && EndsWith(Component(path), ext) then
      CutSuffix(Component(path), ext)
    else Component(path)
  }

  /** `c` without its suffix `ext`. */
  function CutSuffix(c: string, ext: string): (r: string)
    requires EndsWith(c, ext)
    ensures c == r + ext
  {
    assert c == c[..|c| - |ext|] + c[|c| - |ext|..];
    c[..|c| - |ext|]
  }

  // ---------------------------------------------------------------------------
  // `generateFilename`
  // ---------------------------------------------------------------------------

  const ThumbnailSuffix := "_thumb"
  const ThumbnailWidth: nat := 600
  const WebMaxWidth: nat := 2400
  const MaxBaseLength: nat := 40

  /** `.replace(/[^a-z0-9]/gi, "-").toLowerCase()`: one character out for each character in. */
  function Sanitize(b: string): (r: string)
    ensures |r| == |b| && AllSlugChars(r)
    ensures forall i :: 0 <= i < |b| ==> (r[i] == '-' <==> !IsAsciiAlnum(b[i]))
    ensures forall i :: 0 <= i < |b| ==> IsAsciiAlnum(b[i]) ==> r[i] == LowerChar(b[i])
  {
    seq(|b|, i requires 0 <= i < |b| => if IsAsciiAlnum(b[i]) then LowerChar(b[i]) else '-')
  }

  /** The name part of a stored file: the base name, sanitised and cut to 40 characters. */
  function FileBase(originalName: string): (r: string)
    ensures |r| <= MaxBaseLength && AllSlugChars(r)
  {
    Take(Sanitize(BaseName(originalName, Lower(ExtName(originalName)))), MaxBaseLength)
  }

  /** `generateFilename(originalName, suffix)`; `now` is the `Date.now()` reading. */
  function GenerateFilename(originalName: string, suffix: string, now: nat): string {
    StampedName(now, FileBase(originalName), suffix)
  }

  /** `${timestamp}-${base}${suffix}.webp` */
  function StampedName(now: nat, base: string, suffix: string): string {
    NatToString(now) + "-" + base + suffix + ".webp"
  }

  /**
   * Whatever the original extension, a stored name is the timestamp, a
   * hyphen, the base, the suffix and ".webp"; the timestamp reads back with
   * `parseInt`.
   */
  lemma FilenameShape(originalName: string, suffix: string, now: nat)
    ensures var r := GenerateFilename(originalName, suffix, now);
      && StartsWith(r, NatToString(now) + "-")
      && EndsWith(r, suffix + ".webp")
      && ParseInt(r) == Some(now)
  {
    StampedNameShape(now, FileBase(originalName), suffix);
  }

  lemma StampedNameShape(now: nat, base: string, suffix: string)
    ensures var r := StampedName(now, base, suffix);
      && StartsWith(r, NatToString(now) + "-")
      && EndsWith(r, suffix + ".webp")
      && ParseInt(r) == Some(now)
  {
    var r := StampedName(now, base, suffix);
    var digits := NatToString(now);
    var rest := "-" + base + suffix + ".webp";
    assert r == digits + rest;
    assert r[..|digits + "-"|] == digits + "-";
    assert r == (digits + "-" + base) + (suffix + ".webp");
    assert rest[0] == '-';
    ParseIntOfNat(now, rest);
  }

  /** A stored name never contains a slash, so it stays inside the upload directory. */
  lemma FilenameHasNoSlash(originalName: string, suffix: string, now: nat)
    requires forall i :: 0 <= i < |suffix| ==> suffix[i] != '/'
    ensures forall i :: 0 <= i < |GenerateFilename(originalName, suffix, now)| ==> GenerateFilename(originalName, suffix, now)[i] != '/'
  {
    StampedNameNoSlash(now, FileBase(originalName), suffix);
  }

  lemma StampedNameNoSlash(now: nat, base: string, suffix: string)
    requires AllSlugChars(base)
    requires forall i :: 0 <= i < |suffix| ==> suffix[i] != '/'
    ensures forall i :: 0 <= i < |StampedName(now, base, suffix)| ==> StampedName(now, base, suffix)[i] != '/'
  {
    var n := NatToString(now);
    var r := StampedName(now, base, suffix);
    forall i | 0 <= i < |r| ensures r[i] != '/' {
      if i < |n| {
        assert r[i] == n[i];
      } else if i == |n| {
      } else if i < |n| + 1 + |base| {
        assert r[i] == base[i - |n| - 1];
      } else if i < |n| + 1 + |base| + |suffix| {
        assert r[i] == suffix[i - |n| - 1 - |base|];
      }
    }
  }

  /**
   * The web-size file and the thumbnail never share a name, whatever the two
   * clock readings: the thumbnail cannot overwrite the main image.
   */
  lemma MainAndThumbnailDiffer(originalName: string, mainNow: nat, thumbNow: nat)
    ensures GenerateFilename(originalName, "", mainNow) != GenerateFilename(originalName, ThumbnailSuffix, thumbNow)
  {
    var b := FileBase(originalName);
    var d1, d2 := NatToString(mainNow), NatToString(thumbNow);
    var m := StampedName(mainNow, b, "");
    var t := StampedName(thumbNow, b, ThumbnailSuffix);
    assert |m| == |d1| + |b| + 6 && |t| == |d2| + |b| + 12;
    if |m| == |t| {
      assert t[|d2|] == '-';
      assert m[|d2|] == d1[|d2|];
    }
  }

  /**
   * The extension is lower-cased before it is cut off, and the cut is
   * case-sensitive: an upper-case extension stays in the base.
   */
  lemma UpperCaseExtensionKept(stem: string, ext: string)
    requires stem != [] && forall i :: 0 <= i < |stem| ==> stem[i] != '/' && stem[i] != '.'
    requires ext != [] && forall i :: 0 <= i < |ext| ==> IsAsciiAlnum(ext[i])
    requires Lower(ext) != ext
    ensures FileBase(stem + "." + ext) == Take(Sanitize(stem + "." + ext), MaxBaseLength)
  {
    var n := stem + "." + ext;
    NameParts(stem, ext);
    UpperCaseExtensionNotSuffix(stem, ext);
    assert BaseName(n, Lower(ExtName(n))) == n;
  }

  lemma UpperCaseExtensionNotSuffix(stem: string, ext: string)
    requires Lower(ext) != ext
    ensures !EndsWith(stem + "." + ext, Lower("." + ext))
  {
    var n := stem + "." + ext;
    var e := Lower("." + ext);
    LowerDotExt(ext);
    assert n[|n| - |e|..] == "." + ext;
    assert ("." + ext)[1..] == ext;
    assert e[1..] == Lower(ext);
  }

  lemma LowerDotExt(ext: string)
    ensures Lower("." + ext) == "." + Lower(ext)
  {
    var e := Lower("." + ext);
    forall i | 0 <= i < |e| ensures e[i] == ("." + Lower(ext))[i] {
      if i > 0 {
        assert ("." + ext)[i] == ext[i - 1];
      }
    }
  }

  /** An extension already in lower case is cut off the base. */
  lemma LowerCaseExtensionDropped(stem: string, ext: string)
    requires stem != [] && forall i :: 0 <= i < |stem| ==> stem[i] != '/' && stem[i] != '.'
    requires ext != [] && forall i :: 0 <= i < |ext| ==> IsAsciiAlnum(ext[i]) && !IsAsciiUpper(ext[i])
    ensures FileBase(stem + "." + ext) == Take(Sanitize(stem), MaxBaseLength)
  {
    var n := stem + "." + ext;
    NameParts(stem, ext);
    assert Lower("." + ext) == "." + ext;
    assert n[..|n| - |"." + ext|] == stem;
  }

  lemma NameParts(stem: string, ext: string)
    requires stem != [] && forall i :: 0 <= i < |stem| ==> stem[i] != '/' && stem[i] != '.'
    requires ext != [] && forall i :: 0 <= i < |ext| ==> IsAsciiAlnum(ext[i])
    ensures Component(stem + "." + ext) == stem + "." + ext
    ensures ExtName(stem + "." + ext) == "." + ext
  {
    var n := stem + "." + ext;
    NameChars(stem, ext);
    NoSlashComponent(n);
    ExtNameAt(n, |stem|);
    assert n[|stem|..] == "." + ext;
  }

  lemma NameChars(stem: string, ext: string)
    requires forall i :: 0 <= i < |stem| ==> stem[i] != '/' && stem[i] != '.'
    requires forall i :: 0 <= i < |ext| ==> IsAsciiAlnum(ext[i])
    ensures var n := stem + "." + ext;
      && (forall i :: 0 <= i < |n| ==> n[i] != '/')
      && n[|stem|] == '.'
      && (forall i :: |stem| < i < |n| ==> n[i] != '.')
  {
    var n := stem + "." + ext;
    forall i | 0 <= i < |n| ensures n[i] != '/' && (i > |stem| ==> n[i] != '.') {
      if i < |stem| { assert n[i] == stem[i]; }
      else if i > |stem| { assert n[i] == ext[i - |stem| - 1]; }
    }
  }

  lemma ExtNameAt(n: string, d: nat)
    requires Component(n) == n && LastDot(n) == Some(d) && 0 < d
    requires forall i :: 0 <= i < d ==> n[i] != '.'
    ensures ExtName(n) == n[d..]
  {
    assert n[0] != '.';
    assert n != "..";
  }

  lemma {:induction false} NoSlashComponent(n: string)
    requires forall i :: 0 <= i < |n| ==> n[i] != '/'
    ensures Component(n) == n
  {
    assert DropLastWhile(n, IsSlash) == n;
    AfterLastNone(n, '/');
  }

  lemma {:induction false} AfterLastNone(t: string, ch: char)
    requires forall i :: 0 <= i < |t| ==> t[i] != ch
    ensures AfterLast(t, ch) == t
  {
    if t != [] {
      AfterLastNone(t[..|t| - 1], ch);
    }
  }

  // ---------------------------------------------------------------------------
  // `processUpload` and `deleteUpload`
  // ---------------------------------------------------------------------------

  /** What the image library reads off an uploaded file. */
  datatype ImageInfo = ImageInfo(width: Option<nat>, height: Option<nat>, exif: Exif)

  /** A side effect on the upload directory, in the order it happens. */
  datatype Step =
    | MakeDirectory
    | ReadExif
    | ReadMetadata
    | WriteWebp(filename: string, maxWidth: nat)

  /** The directory is made, then EXIF and the size are read from the original. */
  const ReadSteps: seq<Step> := [MakeDirectory, ReadExif, ReadMetadata]

  /** The web-size copy is written, then the thumbnail. */
  function WriteSteps(name: string, thumb: string): seq<Step> {
    [WriteWebp(name, WebMaxWidth), WriteWebp(thumb, ThumbnailWidth)]
  }

  /**
   * Where `processUpload` throws: reading the size of an image the library
   * cannot decode, or resizing and writing the web copy or the thumbnail.
   */
  datatype Fault =
    | NoFault
    | AtMetadata(message: string)
    | AtMainWrite(message: string)
    | AtThumbnailWrite(message: string)

  /** The write steps finished before `fault`. */
  function Completed(fault: Fault, name: string, thumb: string): (r: seq<Step>)
    ensures r <= WriteSteps(name, thumb)
    ensures |r| == (match fault case NoFault => 2 case AtThumbnailWrite(_) => 1 case _ => 0)
  {
    match fault
    case NoFault => WriteSteps(name, thumb)
    case AtThumbnailWrite(_) => [WriteWebp(name, WebMaxWidth)]
    case _ => []
  }

  /** The files on disk that `processUpload` leaves behind when it stops at `fault`. */
  function Written(fault: Fault, name: string, thumb: string): (r: set<string>)
    ensures r == set s | s in Completed(fault, name, thumb) && s.WriteWebp? :: s.filename
  {
    match fault
    case NoFault => {name, thumb}
    case AtThumbnailWrite(_) => {name}
    case _ => {}
  }

  datatype UploadResult = UploadResult(
    filename: string,
    url: string,
    thumbnailUrl: string,
    width: nat,
    height: nat,
    exif: Exif)

  /**
   * What `processUpload` returns for an image it can read: the stored name
   * from the first clock reading, the thumbnail's from the second, both
   * under "/uploads/", and the decoded size (0 when unknown).
   */
  function Uploaded(image: ImageInfo, originalName: string, mainNow: nat, thumbNow: nat): UploadResult {
    UploadResult(
      GenerateFilename(originalName, "", mainNow),
      "/uploads/" + GenerateFilename(originalName, "", mainNow),
      "/uploads/" + GenerateFilename(originalName, ThumbnailSuffix, thumbNow),
      image.width.GetOr(0), image.height.GetOr(0), image.exif)
  }

  /** The `public/uploads` directory. */
  class UploadDirectory {
    var present: bool
    var files: set<string>
    var log: seq<Step>

    constructor (present: bool, files: set<string>)
      ensures this.present == present && this.files == files && log == []
    {
      this.present, this.files, log := present, files, [];
    }

    /**
     * `processUpload`. `mainNow` and `thumbNow` are the two clock readings;
     * `fault` is where the image library throws, if it does. A write that
     * throws leaves nothing of its own file, but the main file stays when
     * only the thumbnail fails.
     */
    method ProcessUpload(image: ImageInfo, originalName: string, mainNow: nat, thumbNow: nat, fault: Fault)
      returns (r: Result)
      modifies this
      ensures present
      ensures fault.NoFault? <==> r.Processed?
      ensures !fault.NoFault? ==> r == Failed(fault.message)
      ensures fault.NoFault? ==> r == Processed(Uploaded(image, originalName, mainNow, thumbNow))
      ensures files == old(files) + Written(fault, GenerateFilename(originalName, "", mainNow), GenerateFilename(originalName, ThumbnailSuffix, thumbNow))
      ensures log == old(log) + ReadSteps + Completed(fault, GenerateFilename(originalName, "", mainNow), GenerateFilename(originalName, ThumbnailSuffix, thumbNow))
    {
      present := true;
      var filename := GenerateFilename(originalName, "", mainNow);
      var thumbFilename := GenerateFilename(originalName, ThumbnailSuffix, thumbNow);
      log := log + ReadSteps;
      if fault.AtMetadata? || fault.AtMainWrite? {
        return Failed(fault.message);
      }
      files := files + {filename};
      log := log + [WriteWebp(filename, WebMaxWidth)];
      if fault.AtThumbnailWrite? {
        return Failed(fault.message);
      }
      files := files + {thumbFilename};
      log := log + [WriteWebp(thumbFilename, ThumbnailWidth)];
      r := Processed(UploadResult(
        filename, "/uploads/" + filename, "/uploads/" + thumbFilename,
        image.width.GetOr(0), image.height.GetOr(0), image.exif));
    }

    /** `deleteUpload`: both removals are attempted and a missing file is no error. */
    method DeleteUpload(filename: string, thumbFilename: string)
      modifies this
      ensures files == old(files) - {filename, thumbFilename}
      ensures present == old(present) && log == old(log)
    {
      files := files - {filename};
      files := files - {thumbFilename};
    }
  }

  datatype Result = Processed(value: UploadResult) | Failed(message: string)
}
