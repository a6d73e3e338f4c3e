/**
 * Photo deletion (src/app/actions/photos.ts): the row goes, with its
 * comments and ratings, and the image is removed from the media host when a
 * public id can be read off its URL.
 */
module Photos {
  import opened Wrappers
  import opened Text
  import opened Catalogue

  // ---------------------------------------------------------------------------
  // `extractPublicId`: the regular expression /\/upload\/(?:v\d+\/)?(.+?)(?:\.\w+)?$/
  // ---------------------------------------------------------------------------

  const UploadMarker := "/upload/"

  predicate NoLineTerminator(s: string) {
    forall i :: 0 <= i < |s| ==> !IsLineTerminator(s[i])
  }

  predicate AllWordChars(s: string) {
    forall i :: 0 <= i < |s| ==> IsWordChar(s[i])
  }

  /** What `(?:\.\w+)?$` accepts: nothing, or a dot and one or more word characters. */
  predicate IsExtensionTail(t: string) {
    t == [] || (|t| >= 2 && t[0] == '.' && AllWordChars(t[1..]))
  }

  /**
   * The length of a leading "v<digits>/" segment, or 0 when there is none
   * (`\d+` takes every digit, and must then meet '/').
   */
  function VersionLength(rest: string): (r: nat)
    ensures r == 0 || (2 < r <= |rest| && rest[0] == 'v' && rest[r - 1] == '/' && AllDigits(rest[1..r - 1]))
  {
    if rest == [] || rest[0] != 'v' then 0
    else
      var digits := DigitPrefix(rest[1..]);
      if digits != [] && 1 + |digits| < |rest| && rest[1 + |digits|] == '/' then
        assert rest[1..|digits| + 1] == digits;
        |digits| + 2
      else 0
  }

  /**
   * What the lazy `(.+?)` takes from `s`, trying lengths from `k` upwards: the
   * shortest non-empty prefix after which the extension tail matches.
   */
  function CaptureFrom(s: string, k: nat): (r: string)
    requires 1 <= k <= |s|
    ensures k <= |r| <= |s| && r == s[..|r|] && IsExtensionTail(s[|r|..])
    ensures forall j :: k <= j < |r| ==> !IsExtensionTail(s[j..])
    decreases |s| - k
  {
    if IsExtensionTail(s[k..]) then s[..k] else CaptureFrom(s, k + 1)
  }

  function Capture(s: string): (r: string)
    requires s != []
    ensures 1 <= |r| <= |s| && r == s[..|r|] && IsExtensionTail(s[|r|..])
    ensures forall j :: 1 <= j < |r| ==> !IsExtensionTail(s[j..])
  {
    CaptureFrom(s, 1)
  }

  /**
   * The text after the marker with the version segment dropped; the regex
   * keeps it only when something is left after it.
   */
  function AfterVersion(rest: string): (r: string)
    ensures |r| <= |rest| && r == rest[|rest| - |r|..]
    ensures rest != [] ==> r != []
  {
    var v := VersionLength(rest);
    if 0 < v < |rest| then rest[v..] else rest
  }

  /** The match, if any, of the regular expression anchored at `p`. */
  function MatchAt(url: string, p: nat): (r: Option<string>)
    requires OccursAt(url, UploadMarker, p)
    ensures r.Some? <==> url[p + 8..] != [] && NoLineTerminator(url[p + 8..])
  {
    var rest := url[p + 8..];
    if rest == [] || !NoLineTerminator(rest) then None else Some(Capture(AfterVersion(rest)))
  }

  /** A search from index `p` onwards, leftmost match first. */
  function SearchFrom(url: string, p: nat): (r: Option<string>)
    decreases |url| - p
  {
    if p + 8 > |url| then None
    else if OccursAt(url, UploadMarker, p) && MatchAt(url, p).Some? then MatchAt(url, p)
    else SearchFrom(url, p + 1)
  }

  /** `extractPublicId(url)`; `None` is `null`. */
  function ExtractPublicId(url: string): (r: Option<string>)
    ensures r.Some? ==> r.value != []
  {
    SearchFromNonEmpty(url, 0);
    SearchFrom(url, 0)
  }

  lemma {:induction false} SearchFromNonEmpty(url: string, p: nat)
    ensures SearchFrom(url, p).Some? ==> SearchFrom(url, p).value != []
    decreases |url| - p
  {
    if p + 8 <= |url| && !(OccursAt(url, UploadMarker, p) && MatchAt(url, p).Some?) {
      SearchFromNonEmpty(url, p + 1);
    }
  }

  /** The marker occurs at `p` with a non-empty remainder free of line terminators. */
  predicate MatchableAt(url: string, p: nat) {
    OccursAt(url, UploadMarker, p) && url[p + 8..] != [] && NoLineTerminator(url[p + 8..])
  }

  /**
   * There is a public id exactly when "/upload/" occurs followed by at least
   * one character and no line break (`.` does not cross one, and `$` is the
   * end of the whole URL).
   */
  lemma ExtractPublicIdSome(url: string)
    ensures ExtractPublicId(url).Some? <==> exists p: nat :: MatchableAt(url, p)
  {
    if ExtractPublicId(url).Some? {
      var p := SearchFoundAt(url, 0);
    } else {
      forall p: nat ensures !MatchableAt(url, p) {
        SearchNoneFrom(url, 0, p);
      }
    }
  }

  lemma {:induction false} SearchFoundAt(url: string, p: nat) returns (q: nat)
    requires SearchFrom(url, p).Some?
    ensures p <= q && MatchableAt(url, q) && SearchFrom(url, p) == MatchAt(url, q)
    decreases |url| - p
  {
    if OccursAt(url, UploadMarker, p) && MatchAt(url, p).Some? {
      q := p;
    } else {
      q := SearchFoundAt(url, p + 1);
    }
  }

  lemma {:induction false} SearchNoneFrom(url: string, p: nat, q: nat)
    requires SearchFrom(url, p).None? && p <= q
    ensures !MatchableAt(url, q)
    decreases |url| - p
  {
    if p + 8 <= |url| && p < q {
      SearchNoneFrom(url, p + 1, q);
    }
  }

  /** The leftmost matchable occurrence of "/upload/" decides the id. */
  lemma {:induction false} LeftmostMatchDecides(url: string, p: nat, q: nat)
    requires q <= p && MatchableAt(url, p)
    requires forall j :: q <= j < p ==> !MatchableAt(url, j)
    ensures SearchFrom(url, q) == Some(Capture(AfterVersion(url[p + 8..])))
    decreases p - q
  {
    if q < p {
      assert !MatchableAt(url, q);
      assert q + 8 <= |url|;
      LeftmostMatchDecides(url, p, q + 1);
    } else {
      assert MatchAt(url, p).Some?;
    }
  }

  /**
   * For a URL with one "/upload/" at `p`, the id is the rest of the URL with
   * the version segment and the final extension dropped: the form of a
   * media-host delivery URL, `…/upload/v<digits>/<folders>/<name>.<ext>`.
   */
  lemma DeliveryUrl(url: string, p: nat, digits: string, path: string, ext: string)
    requires forall j :: 0 <= j < p ==> !OccursAt(url, UploadMarker, j)
    requires OccursAt(url, UploadMarker, p)
    requires digits != [] && AllDigits(digits)
    requires path != [] && NoLineTerminator(path)
    requires ext != [] && AllWordChars(ext)
    requires url[p + 8..] == "v" + digits + "/" + path + "." + ext
    ensures ExtractPublicId(url) == Some(path)
  {
    var rest := url[p + 8..];
    assert rest == "v" + digits + "/" + (path + "." + ext);
    assert NoLineTerminator(rest) by {
      forall i | 0 <= i < |rest| ensures !IsLineTerminator(rest[i]) {
        if i < |digits| + 2 {
        } else if i < |digits| + 2 + |path| {
          assert rest[i] == path[i - |digits| - 2];
        }
      }
    }
    VersionDropped(digits, path + "." + ext);
    assert AfterVersion(rest) == path + "." + ext;
    ExtensionDropped(path, ext);
    LeftmostMatchDecides(url, p, 0);
  }

  /** A "v<digits>/" segment right after the marker is not part of the id. */
  lemma VersionDropped(digits: string, tail: string)
    requires digits != [] && AllDigits(digits) && tail != []
    ensures AfterVersion("v" + digits + "/" + tail) == tail
  {
    var rest := "v" + digits + "/" + tail;
    assert rest[1..] == digits + ("/" + tail);
    DigitPrefixOf(digits, "/" + tail);
    assert rest[|digits| + 2..] == tail;
  }

  /** Without a version segment the whole remainder is kept. */
  lemma NoVersionKept(rest: string)
    requires rest == [] || rest[0] != 'v'
    ensures AfterVersion(rest) == rest
  {
  }

  /**
   * Only the final extension is dropped: dots and slashes inside the path
   * stay in the id.
   */
  lemma ExtensionDropped(path: string, ext: string)
    requires path != [] && ext != [] && AllWordChars(ext)
    ensures Capture(path + "." + ext) == path
  {
    var s := path + "." + ext;
    assert s[|path|..] == "." + ext;
    forall j | 1 <= j < |path| ensures !IsExtensionTail(s[j..]) {
      assert s[j..][|path| - j] == '.';
      if |s[j..]| >= 2 && s[j..][0] == '.' {
        assert !IsWordChar(s[j..][1..][|path| - j - 1]);
      }
    }
    CaptureExact(s, |path|);
  }

  /** A name without a dot is kept whole. */
  lemma NoDotKept(name: string)
    requires name != [] && forall i :: 0 <= i < |name| ==> name[i] != '.'
    ensures Capture(name) == name
  {
    assert name[|name|..] == [];
    CaptureExact(name, |name|);
  }

  lemma CaptureExact(s: string, k: nat)
    requires 1 <= k <= |s| && IsExtensionTail(s[k..])
    requires forall j :: 1 <= j < k ==> !IsExtensionTail(s[j..])
    ensures Capture(s) == s[..k]
  {
  }

  /**
   * A file written to the local upload directory has no public id, so its
   * deletion never calls the media host.
   */
  lemma LocalUploadHasNoId(filename: string)
    requires forall i :: 0 <= i < |filename| ==> filename[i] != '/'
    ensures ExtractPublicId("/uploads/" + filename) == None
  {
    var url := "/uploads/" + filename;
    forall p: nat ensures !OccursAt(url, UploadMarker, p) {
      if p + 8 <= |url| {
        assert url[p..p + 8][7] == url[p + 7];
      }
    }
    ExtractPublicIdSome(url);
  }

  // ---------------------------------------------------------------------------
  // `deletePhoto`
  // ---------------------------------------------------------------------------

  /** The assets stored with the media host. */
  class MediaHost {
    var assets: set<string>

    constructor (assets: set<string>)
      ensures this.assets == assets
    {
      this.assets := assets;
    }

    /** `cloudinary.uploader.destroy(publicId)`; `fails` says whether the call fails, leaving the asset in place. */
    method Destroy(publicId: string, fails: bool)
      modifies this
      ensures assets == if fails then old(assets) else old(assets) - {publicId}
    {
      if !fails {
        assets := assets - {publicId};
      }
    }
  }

  const NoSession := "Brak autoryzacji"
  const NoSuchPhoto := "Zdjęcie nie istnieje"

  /**
   * `deletePhoto`. `remoteFails` says whether the media host's destroy call
   * fails; its failure is swallowed and the row is deleted all the same. The
   * row's comments and ratings go with it.
   */
  method DeletePhoto(db: Catalogue, host: MediaHost, session: bool, photoId: string, remoteFails: bool)
    returns (out: Outcome)
    requires db.Valid()
    modifies db, host
    ensures db.Valid()
    ensures !session ==> out == Error(NoSession) && unchanged(db) && unchanged(host)
    ensures session && photoId !in old(db.photos) ==> out == Error(NoSuchPhoto) && unchanged(db) && unchanged(host)
    ensures session && photoId in old(db.photos) ==>
      && out == Done
      && db.photos == old(db.photos) - {photoId}
      && db.comments == CommentsWithout(old(db.comments), photoId)
      && db.ratings == RatingsWithout(old(db.ratings), photoId)
      && db.categories == old(db.categories)
      && var id := ExtractPublicId(old(db.photos)[photoId].url);
         host.assets == if id.Some? && !remoteFails then old(host.assets) - {id.value} else old(host.assets)
  {
    if !session {
      return Error(NoSession);
    }
    if photoId !in db.photos {
      return Error(NoSuchPhoto);
    }
    var publicId := ExtractPublicId(db.photos[photoId].url);
    if publicId.Some? {
      host.Destroy(publicId.value, remoteFails);
    }
    db.RemovePhoto(photoId);
    out := Done;
  }
}
