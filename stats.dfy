/**
 * The statistics page (src/app/stats/page.tsx): per-camera tallies of the
 * grouped EXIF rows the page queries, lens-name shortening and the number of
 * years the timeline spans.
 */
module Stats {
  import opened Wrappers
  import opened Text
  import opened Seqs

  // ---------------------------------------------------------------------------
  // `shortenLens`: /(\d+(?:-\d+)?mm)\s+[Ff]\/?(\d+(?:\.\d+)?)/
  // ---------------------------------------------------------------------------

  /** Every character from `i` up to `j` is a digit. */
  predicate DigitsBetween(s: string, i: nat, j: nat)
    requires j <= |s|
  {
    forall k :: i <= k < j ==> IsDigit(s[k])
  }

  /** No character from `i` up to `j` is a digit. */
  predicate NoDigitsBetween(s: string, i: nat, j: nat)
    requires j <= |s|
  {
    forall k :: i <= k < j ==> !IsDigit(s[k])
  }

  /** Every character from `i` up to `j` is white space. */
  predicate SpacesBetween(s: string, i: nat, j: nat)
    requires j <= |s|
  {
    forall k :: i <= k < j ==> IsSpace(s[k])
  }

  /** The end of the run of digits that starts at `i`. */
  function DigitRunEnd(s: string, i: nat): (e: nat)
    requires i <= |s|
    ensures i <= e <= |s| && (e == |s| || !IsDigit(s[e]))
    ensures forall j :: i <= j < e ==> IsDigit(s[j])
    decreases |s| - i
  {
    if i < |s| && IsDigit(s[i]) then DigitRunEnd(s, i + 1) else i
  }

  /** The end of the run of white space that starts at `i`. */
  function SpaceRunEnd(s: string, i: nat): (e: nat)
    requires i <= |s|
    ensures i <= e <= |s| && (e == |s| || !IsSpace(s[e]))
    ensures forall j :: i <= j < e ==> IsSpace(s[j])
    decreases |s| - i
  {
    if i < |s| && IsSpace(s[i]) then SpaceRunEnd(s, i + 1) else i
  }

  /** Where `(\d+(?:-\d+)?mm)` ends when it matches at `p`. */
  function FocalEnd(s: string, p: nat): (r: Option<nat>)
    requires p <= |s|
    ensures r.Some? ==> p + 3 <= r.value <= |s| && s[r.value - 2..r.value] == "mm"
  {
    FocalAfterDigits(s, p, DigitRunEnd(s, p))
  }

  /** The rest of the focal group once its first run of digits ends at `e`. */
  function FocalAfterDigits(s: string, p: nat, e: nat): (r: Option<nat>)
    requires p <= e <= |s|
    ensures r.Some? ==> p + 3 <= r.value <= |s| && s[r.value - 2..r.value] == "mm"
  {
    if e == p then None
    else if e < |s| && s[e] == '-' && DigitRunEnd(s, e + 1) > e + 1 && OccursAt(s, "mm", DigitRunEnd(s, e + 1)) then
      Some(DigitRunEnd(s, e + 1) + 2)
    else if OccursAt(s, "mm", e) then Some(e + 2)
    else None
  }

  /** Where `(\d+(?:\.\d+)?)` ends when it matches at `q`; greedy, so it takes a fraction when there is one. */
  function NumberEnd(s: string, q: nat): (r: Option<nat>)
    requires q <= |s|
    ensures r.Some? ==> q < r.value <= |s|
  {
    NumberAfterDigits(s, q, DigitRunEnd(s, q))
  }

  /** The rest of a number once its integer digits end at `e`. */
  function NumberAfterDigits(s: string, q: nat, e: nat): (r: Option<nat>)
    requires q <= e <= |s|
    ensures r.Some? ==> q < r.value <= |s|
  {
    if e == q then None
    else if e < |s| && s[e] == '.' && DigitRunEnd(s, e + 1) > e + 1 then Some(DigitRunEnd(s, e + 1))
    else Some(e)
  }

  /** The two capture groups of a match starting at `p`. */
  function LensMatchAt(s: string, p: nat): (r: Option<(string, string)>)
    requires p <= |s|
    ensures r.Some? ==> EndsWith(r.value.0, "mm") && r.value.1 != []
  {
    match FocalEnd(s, p)
    case None => None
    case Some(a) =>
      assert s[p..a][a - p - 2..] == s[a - 2..a];
      ApertureAfter(s, p, a, SpaceRunEnd(s, a))
  }

  /**
   * The rest of a match once the focal group ends at `a` and the white space
   * after it ends at `b`: `F` or `f`, an optional '/', and the aperture.
   */
  function ApertureAfter(s: string, p: nat, a: nat, b: nat): (r: Option<(string, string)>)
    requires p <= a <= b <= |s|
    ensures r.Some? ==> r.value.0 == s[p..a] && r.value.1 != []
  {
    if b == a || b == |s| || !(s[b] == 'F' || s[b] == 'f') then None
    else if b + 1 < |s| && s[b + 1] == '/' && NumberEnd(s, b + 2).Some? then
      Some((s[p..a], s[b + 2..NumberEnd(s, b + 2).value]))
    else if NumberEnd(s, b + 1).Some? then
      Some((s[p..a], s[b + 1..NumberEnd(s, b + 1).value]))
    else None
  }

  /** The leftmost match at or after `p`. */
  function LensSearch(s: string, p: nat): (r: Option<(string, string)>)
    requires p <= |s|
    ensures r.Some? ==> EndsWith(r.value.0, "mm") && r.value.1 != []
    decreases |s| - p
  {
    if LensMatchAt(s, p).Some? then LensMatchAt(s, p)
    else if p == |s| then None
    else LensSearch(s, p + 1)
  }

  const LensNameLimit: nat := 22
  const LensNameCut: nat := 20

  /**
   * `shortenLens(name)`: "<focal>mm f/<aperture>" when the name holds a focal
   * length followed by an aperture; otherwise a name over 22 characters is
   * cut to 20 and an ellipsis, and a shorter one is kept.
   */
  function ShortenLens(name: string): (r: string)
    ensures LensSearch(name, 0).Some? ==>
      var m := LensSearch(name, 0).value;
      r == m.0 + " f/" + m.1
    ensures LensSearch(name, 0).None? ==>
      && |r| <= LensNameLimit
      && (|name| <= LensNameLimit ==> r == name)
      && (|name| > LensNameLimit ==> |r| == LensNameCut + 1 && r[..LensNameCut] == name[..LensNameCut] && r[LensNameCut] == '…')
  {
    match LensSearch(name, 0)
    case Some(m) => m.0 + " f/" + m.1
    case None => if |name| > LensNameLimit then name[..LensNameCut] + "…" else name
  }

  /** A name without any digit never matches the pattern. */
  lemma {:induction false} NoDigitNoMatch(s: string, p: nat)
    requires p <= |s|
    requires forall i :: 0 <= i < |s| ==> !IsDigit(s[i])
    ensures LensSearch(s, p).None?
    decreases |s| - p
  {
    if p < |s| {
      NoDigitNoMatch(s, p + 1);
    }
  }

  /** So a long lens name without digits is cut to 20 characters and "…". */
  lemma NoDigitsShortened(name: string)
    requires forall i :: 0 <= i < |name| ==> !IsDigit(name[i])
    requires |name| > LensNameLimit
    ensures ShortenLens(name) == name[..LensNameCut] + "…"
  {
    NoDigitNoMatch(name, 0);
  }

  lemma DigitRunEndAt(s: string, i: nat, e: nat)
    requires i <= e <= |s|
    requires DigitsBetween(s, i, e)
    requires e == |s| || !IsDigit(s[e])
    ensures DigitRunEnd(s, i) == e
    decreases e - i
  {
    if i < e {
      DigitRunEndAt(s, i + 1, e);
    }
  }

  lemma SpaceRunEndAt(s: string, i: nat, e: nat)
    requires i <= e <= |s|
    requires SpacesBetween(s, i, e)
    requires e == |s| || !IsSpace(s[e])
    ensures SpaceRunEnd(s, i) == e
    decreases e - i
  {
    if i < e {
      SpaceRunEndAt(s, i + 1, e);
    }
  }

  /** No match can start where there is no digit. */
  lemma NoMatchOffDigit(s: string, p: nat)
    requires p <= |s| && (p == |s| || !IsDigit(s[p]))
    ensures LensMatchAt(s, p).None?
  {
  }

  lemma {:induction false} SearchSkipsNonDigits(s: string, p: nat, q: nat)
    requires p <= q <= |s|
    requires NoDigitsBetween(s, p, q)
    ensures LensSearch(s, p) == LensSearch(s, q)
    decreases q - p
  {
    if p < q {
      NoMatchOffDigit(s, p);
      SearchMissStep(s, p);
      SearchSkipsNonDigits(s, p + 1, q);
    }
  }

  /** Where no match starts, the search moves on to the next position. */
  lemma SearchMissStep(s: string, p: nat)
    requires p < |s| && LensMatchAt(s, p).None?
    ensures LensSearch(s, p) == LensSearch(s, p + 1)
  {
  }

  /** A match at `p` is what the search from `p` finds. */
  lemma SearchHit(s: string, p: nat)
    requires p <= |s| && LensMatchAt(s, p).Some?
    ensures LensSearch(s, p) == LensMatchAt(s, p)
  {
  }

  /** The match, in terms of where its parts lie. */
  lemma MatchFromPositions(s: string, p: nat, e: nat, b: nat, c: nat)
    requires p < e && e + 2 < b && b + 2 < c <= |s|
    requires DigitsBetween(s, p, e)
    requires s[e] == 'm' && s[e + 1] == 'm'
    requires SpacesBetween(s, e + 2, b)
    requires (s[b] == 'F' || s[b] == 'f') && s[b + 1] == '/'
    requires DigitsBetween(s, b + 2, c)
    requires c == |s| || (!IsDigit(s[c]) && s[c] != '.')
    ensures LensMatchAt(s, p) == Some((s[p..e + 2], s[b + 2..c]))
  {
    assert FocalEnd(s, p) == Some(e + 2) by { FocalEndAt(s, p, e); }
    assert SpaceRunEnd(s, e + 2) == b by { SpaceRunEndAt(s, e + 2, b); }
    assert ApertureAfter(s, p, e + 2, b) == Some((s[p..e + 2], s[b + 2..c])) by { ApertureAt(s, p, e + 2, b, c); }
    MatchOfParts(s, p, e + 2, b, (s[p..e + 2], s[b + 2..c]));
  }

  /** The match is the aperture found after the focal group and the white space that follows it. */
  lemma MatchOfParts(s: string, p: nat, a: nat, b: nat, g: (string, string))
    requires p <= a <= b <= |s|
    requires FocalEnd(s, p) == Some(a) && SpaceRunEnd(s, a) == b
    requires ApertureAfter(s, p, a, b) == Some(g)
    ensures LensMatchAt(s, p) == Some(g)
  {
  }

  /** Once the focal group ends at `a`, the match is decided by what follows the white space after it. */
  lemma MatchAfterFocal(s: string, p: nat, a: nat)
    requires p <= |s| && FocalEnd(s, p) == Some(a)
    ensures LensMatchAt(s, p) == ApertureAfter(s, p, a, SpaceRunEnd(s, a))
  {
  }

  /** "F/" or "f/" at `b` and digits up to `c`: the aperture group is those digits. */
  lemma ApertureAt(s: string, p: nat, a: nat, b: nat, c: nat)
    requires p <= a < b && b + 2 < c <= |s|
    requires (s[b] == 'F' || s[b] == 'f') && s[b + 1] == '/'
    requires DigitsBetween(s, b + 2, c)
    requires c == |s| || (!IsDigit(s[c]) && s[c] != '.')
    ensures ApertureAfter(s, p, a, b) == Some((s[p..a], s[b + 2..c]))
  {
    NumberEndAt(s, b + 2, c);
  }

  /** Digits from `p` to `e` and then "mm": the focal group ends after the "mm". */
  lemma FocalEndAt(s: string, p: nat, e: nat)
    requires p < e && e + 2 <= |s|
    requires DigitsBetween(s, p, e)
    requires s[e] == 'm' && s[e + 1] == 'm'
    ensures FocalEnd(s, p) == Some(e + 2)
  {
    DigitRunEndAt(s, p, e);
    assert OccursAt(s, "mm", e);
  }

  /** Digits from `q` to `c` with neither a digit nor a '.' after them: the number ends at `c`. */
  lemma NumberEndAt(s: string, q: nat, c: nat)
    requires q < c <= |s|
    requires DigitsBetween(s, q, c)
    requires c == |s| || (!IsDigit(s[c]) && s[c] != '.')
    ensures NumberEnd(s, q) == Some(c)
  {
    DigitRunEndAt(s, q, c);
  }

  /**
   * The other shape the pattern admits: a focal range "<digits>-<digits>mm",
   * white space, "F" or "f" without the '/', and an aperture with a
   * fraction. The groups are the range with its "mm" and the whole aperture.
   */
  lemma RangeMatchFromPositions(s: string, p: nat, d: nat, e: nat, b: nat, f: nat, c: nat)
    requires p < d && d + 1 < e && e + 2 < b && b + 1 < f && f + 1 < c <= |s|
    requires DigitsBetween(s, p, d) && s[d] == '-' && DigitsBetween(s, d + 1, e)
    requires s[e] == 'm' && s[e + 1] == 'm'
    requires SpacesBetween(s, e + 2, b)
    requires s[b] == 'F' || s[b] == 'f'
    requires DigitsBetween(s, b + 1, f) && s[f] == '.' && DigitsBetween(s, f + 1, c)
    requires c == |s| || !IsDigit(s[c])
    ensures LensMatchAt(s, p) == Some((s[p..e + 2], s[b + 1..c]))
  {
    assert FocalEnd(s, p) == Some(e + 2) by { FocalRangeEndAt(s, p, d, e); }
    calc {
      LensMatchAt(s, p);
    == { MatchAfterFocal(s, p, e + 2); }
      ApertureAfter(s, p, e + 2, SpaceRunEnd(s, e + 2));
    == { SpaceRunEndAt(s, e + 2, b); }
      ApertureAfter(s, p, e + 2, b);
    == { FractionEndAt(s, b + 1, f, c); assert IsDigit(s[b + 1]); ApertureWithoutSlash(s, p, e + 2, b, c); }
      Some((s[p..e + 2], s[b + 1..c]));
    }
  }

  /** Digits, '-', digits and "mm": the focal group takes the whole range. */
  lemma FocalRangeEndAt(s: string, p: nat, d: nat, e: nat)
    requires p < d && d + 1 < e && e + 2 <= |s|
    requires DigitsBetween(s, p, d) && s[d] == '-' && DigitsBetween(s, d + 1, e)
    requires s[e] == 'm' && s[e + 1] == 'm'
    ensures FocalEnd(s, p) == Some(e + 2)
  {
    DigitRunEndAt(s, p, d);
    DigitRunEndAt(s, d + 1, e);
    assert OccursAt(s, "mm", e);
  }

  /** Digits, '.', digits: the number is greedy and takes the fraction. */
  lemma FractionEndAt(s: string, q: nat, f: nat, c: nat)
    requires q < f && f + 1 < c <= |s|
    requires DigitsBetween(s, q, f) && s[f] == '.' && DigitsBetween(s, f + 1, c)
    requires c == |s| || !IsDigit(s[c])
    ensures NumberEnd(s, q) == Some(c)
  {
    DigitRunEndAt(s, q, f);
    DigitRunEndAt(s, f + 1, c);
  }

  /** "F" or "f" followed straight by the number: the '/' is optional. */
  lemma ApertureWithoutSlash(s: string, p: nat, a: nat, b: nat, c: nat)
    requires p <= a < b && b + 1 < c <= |s|
    requires (s[b] == 'F' || s[b] == 'f') && IsDigit(s[b + 1])
    requires NumberEnd(s, b + 1) == Some(c)
    ensures ApertureAfter(s, p, a, b) == Some((s[p..a], s[b + 1..c]))
  {
  }

  /** The example the page's own comment gives: "OLYMPUS M.12-100mm F4.0" becomes "12-100mm f/4.0". */
  lemma OlympusZoomShortened(name: string)
    requires name == "OLYMPUS M.12-100mm F4.0"
    ensures ShortenLens(name) == "12-100mm f/4.0"
  {
    OlympusZoomSearch(name);
    ShortenFound(name, ("12-100mm", "4.0"));
  }

  lemma OlympusZoomSearch(name: string)
    requires name == "OLYMPUS M.12-100mm F4.0"
    ensures LensSearch(name, 0) == Some(("12-100mm", "4.0"))
  {
    assert LensSearch(name, 10) == Some((name[10..18], name[20..23])) by {
      OlympusZoomMatch(name);
      SearchHit(name, 10);
    }
    assert LensSearch(name, 0) == LensSearch(name, 10) by {
      assert NoDigitsBetween(name, 0, 10);
      SearchSkipsNonDigits(name, 0, 10);
    }
    OlympusZoomGroups(name);
  }

  /** The characters at the positions the match finds are the range and the aperture. */
  lemma OlympusZoomGroups(name: string)
    requires name == "OLYMPUS M.12-100mm F4.0"
    ensures name[10..18] == "12-100mm" && name[20..23] == "4.0"
  {
    assert name[10..18] == "12-100mm" by { assert |name[10..18]| == 8; }
    assert name[20..23] == "4.0" by { assert |name[20..23]| == 3; }
  }

  lemma OlympusZoomMatch(name: string)
    requires name == "OLYMPUS M.12-100mm F4.0"
    ensures LensMatchAt(name, 10) == Some((name[10..18], name[20..23]))
  {
    assert DigitsBetween(name, 10, 12) && DigitsBetween(name, 13, 16);
    assert SpacesBetween(name, 18, 19);
    assert DigitsBetween(name, 20, 21) && DigitsBetween(name, 22, 23);
    RangeMatchFromPositions(name, 10, 12, 16, 19, 21, 23);
  }

  /** Where the parts of a structured lens name lie. */
  lemma LensParts(pre: string, focal: string, space: string, f: char, aperture: string, post: string)
    requires forall i :: 0 <= i < |pre| ==> !IsDigit(pre[i])
    requires AllDigits(focal) && AllDigits(aperture)
    requires forall i :: 0 <= i < |space| ==> IsSpace(space[i])
    requires post == [] || (!IsDigit(post[0]) && post[0] != '.')
    ensures var s := pre + focal + "mm" + space + [f] + "/" + aperture + post;
      var p, e := |pre|, |pre| + |focal|;
      var b := e + 2 + |space|;
      var c := b + 2 + |aperture|;
      && |s| == c + |post|
      && NoDigitsBetween(s, 0, p)
      && DigitsBetween(s, p, e)
      && s[e] == 'm' && s[e + 1] == 'm'
      && SpacesBetween(s, e + 2, b)
      && s[b] == f && s[b + 1] == '/'
      && DigitsBetween(s, b + 2, c)
      && (c == |s| || (!IsDigit(s[c]) && s[c] != '.'))
  {
    var t5 := "mm" + (space + ([f] + ("/" + (aperture + post))));
    var t6 := focal + t5;
    var s := pre + t6;
    assert s == pre + focal + "mm" + space + [f] + "/" + aperture + post;
    var p := |pre|;
    var e := p + |focal|;
    var b := e + 2 + |space|;
    var c := b + 2 + |aperture|;
    forall j | 0 <= j < p ensures !IsDigit(s[j]) {
      assert s[j] == pre[j];
    }
    forall j | p <= j < e ensures IsDigit(s[j]) {
      assert s[j] == t6[j - p] == focal[j - p];
    }
    assert s[e] == t5[0] && s[e + 1] == t5[1];
    LensTailParts(t5, space, f, aperture, post);
    forall j | e + 2 <= j < |s| ensures s[j] == t5[j - e] {
      assert s[j] == t6[j - p];
    }
  }

  /** The same, for the part from the "mm" on. */
  lemma LensTailParts(t: string, space: string, f: char, aperture: string, post: string)
    requires t == "mm" + (space + ([f] + ("/" + (aperture + post))))
    requires forall i :: 0 <= i < |space| ==> IsSpace(space[i])
    requires AllDigits(aperture)
    requires post == [] || (!IsDigit(post[0]) && post[0] != '.')
    ensures |t| == 4 + |space| + |aperture| + |post|
    ensures t[0] == 'm' && t[1] == 'm'
    ensures SpacesBetween(t, 2, 2 + |space|)
    ensures t[2 + |space|] == f && t[3 + |space|] == '/'
    ensures DigitsBetween(t, 4 + |space|, 4 + |space| + |aperture|)
    ensures 4 + |space| + |aperture| == |t| || (!IsDigit(t[4 + |space| + |aperture|]) && t[4 + |space| + |aperture|] != '.')
  {
    var u := aperture + post;
    var w := space + ([f] + ("/" + u));
    assert t == "mm" + w;
    forall j | 2 <= j < 2 + |space| ensures IsSpace(t[j]) {
      assert t[j] == w[j - 2] == space[j - 2];
    }
    var b := 2 + |space|;
    assert t[b] == w[|space|] == f;
    assert t[b + 1] == w[|space| + 1] == '/';
    forall j | b + 2 <= j < |t| ensures t[j] == u[j - b - 2] {
      assert t[j] == w[j - 2];
    }
  }

  /** The two groups a structured lens name yields. */
  lemma LensGroups(pre: string, focal: string, space: string, f: char, aperture: string, post: string)
    ensures var s := pre + focal + "mm" + space + [f] + "/" + aperture + post;
      var e := |pre| + |focal|;
      var c := e + 4 + |space| + |aperture|;
      && s[|pre|..e + 2] == focal + "mm"
      && s[e + 4 + |space|..c] == aperture
  {
    var mid1 := focal + "mm";
    var mid2 := space + [f] + "/";
    var s := pre + mid1 + mid2 + aperture + post;
    assert s == pre + focal + "mm" + space + [f] + "/" + aperture + post;
    assert s[|pre|..|pre| + |mid1|] == mid1;
    var q := |pre| + |mid1| + |mid2|;
    assert s[q..q + |aperture|] == aperture;
  }

  /**
   * A lens name holding "<digits>mm", white space, "F/" or "f/" and an
   * aperture shortens to "<digits>mm f/<aperture>", whatever text without
   * digits precedes it.
   */
  lemma StructuredLens(pre: string, focal: string, space: string, f: char, aperture: string, post: string)
    requires forall i :: 0 <= i < |pre| ==> !IsDigit(pre[i])
    requires focal != [] && AllDigits(focal)
    requires space != [] && forall i :: 0 <= i < |space| ==> IsSpace(space[i])
    requires f == 'F' || f == 'f'
    requires aperture != [] && AllDigits(aperture)
    requires post == [] || (!IsDigit(post[0]) && post[0] != '.')
    ensures ShortenLens(pre + focal + "mm" + space + [f] + "/" + aperture + post) == focal + "mm" + " f/" + aperture
  {
    var s := pre + focal + "mm" + space + [f] + "/" + aperture + post;
    var p := |pre|;
    var e := p + |focal|;
    var b := e + 2 + |space|;
    var c := b + 2 + |aperture|;
    LensParts(pre, focal, space, f, aperture, post);
    SearchFindsAt(s, p, e, b, c);
    LensGroups(pre, focal, space, f, aperture, post);
    ShortenFound(s, (s[p..e + 2], s[b + 2..c]));
  }

  /** With no digit before it, the match at `p` is the one the search finds. */
  lemma SearchFindsAt(s: string, p: nat, e: nat, b: nat, c: nat)
    requires p < e && e + 2 < b && b + 2 < c <= |s|
    requires NoDigitsBetween(s, 0, p)
    requires DigitsBetween(s, p, e)
    requires s[e] == 'm' && s[e + 1] == 'm'
    requires SpacesBetween(s, e + 2, b)
    requires (s[b] == 'F' || s[b] == 'f') && s[b + 1] == '/'
    requires DigitsBetween(s, b + 2, c)
    requires c == |s| || (!IsDigit(s[c]) && s[c] != '.')
    ensures LensSearch(s, 0) == Some((s[p..e + 2], s[b + 2..c]))
  {
    MatchFromPositions(s, p, e, b, c);
    SearchHit(s, p);
    SearchSkipsNonDigits(s, 0, p);
  }

  /** What `shortenLens` returns once the search has found its match. */
  lemma ShortenFound(name: string, m: (string, string))
    requires LensSearch(name, 0) == Some(m)
    ensures ShortenLens(name) == m.0 + " f/" + m.1
  {
  }

  // ---------------------------------------------------------------------------
  // Grouped rows and the per-camera tallies of `buildByCamera`
  // ---------------------------------------------------------------------------

  /** The key that aggregates every camera. */
  const All := "all"

  /** The ISO buckets the query produces, in display order. */
  const IsoOrder: seq<string> := ["<400", "400–800", "800–1600", "1600–3200", "3200+"]

  /** The lower bounds of the ISO buckets after the first. */
  const IsoBounds: seq<int> := [400, 800, 1600, 3200]

  /**
   * The bucket of the ISO query's CASE expression: the one whose lower bound
   * the value reaches and whose upper bound it stays below.
   */
  function IsoBucket(iso: int): (r: nat)
    ensures r < |IsoOrder|
    ensures r == 0 || IsoBounds[r - 1] <= iso
    ensures r == |IsoBounds| || iso < IsoBounds[r]
  {
    if iso < 400 then 0
    else if iso < 800 then 1
    else if iso < 1600 then 2
    else if iso < 3200 then 3
    else 4
  }

  /** A grouped row: a key (lens, focal length in mm, or ISO bucket), a camera and a count. */
  datatype Row<K> = Row(key: K, cameraModel: string, count: int)

  /** A category row; the camera is null for a category without photos. */
  datatype CategoryRow = CategoryRow(name: string, slug: string, cameraModel: Option<string>, count: int)

  datatype LensStat = LensStat(name: string, shortName: string, count: int)
  datatype Bar = Bar(labelText: string, count: int)
  datatype CategoryStat = CategoryStat(name: string, slug: string, count: int)

  datatype CameraStats = CameraStats(
    lenses: seq<LensStat>,
    focalLengths: seq<Bar>,
    isoRanges: seq<Bar>,
    categories: seq<CategoryStat>)

  const MaxLenses: nat := 7
  const MaxFocalLengths: nat := 10

  /** `only(rows)`: every row under "all", else the rows of that camera. */
  function Only<K>(cam: string, rows: seq<Row<K>>): (r: seq<Row<K>>)
    ensures cam == All ==> r == rows
    ensures cam != All ==> forall i :: 0 <= i < |r| ==> r[i].cameraModel == cam
    ensures cam != All ==> forall i :: 0 <= i < |r| ==> r[i] in rows
    ensures cam != All ==> forall i :: 0 <= i < |rows| && rows[i].cameraModel == cam ==> rows[i] in r
  {
    if cam == All then rows
    else
      var ofCamera := (x: Row<K>) => x.cameraModel == cam;
      FilterMembers(rows, ofCamera);
      FilterFrom(rows, ofCamera);
      Filter(rows, ofCamera)
  }

  function CategoriesOf(cam: string, rows: seq<CategoryRow>): seq<CategoryRow> {
    if cam == All then rows else Filter(rows, (x: CategoryRow) => x.cameraModel == Some(cam))
  }

  function Pairs<K>(rows: seq<Row<K>>): (r: seq<(K, int)>)
    ensures |r| == |rows|
  {
    seq(|rows|, i requires 0 <= i < |rows| => (rows[i].key, rows[i].count))
  }

  function CategoryPairs(rows: seq<CategoryRow>): (r: seq<(string, int)>)
    ensures |r| == |rows|
  {
    seq(|rows|, i requires 0 <= i < |rows| => (rows[i].name, rows[i].count))
  }

  function NameSlugs(rows: seq<CategoryRow>): (r: seq<(string, string)>)
    ensures Keys(r) == Keys(CategoryPairs(rows))
  {
    seq(|rows|, i requires 0 <= i < |rows| => (rows[i].name, rows[i].slug))
  }

  function LensCount(l: LensStat): real { l.count as real }
  function BarCount(b: Bar): real { b.count as real }
  function CategoryCount(c: CategoryStat): real { c.count as real }

  /** The seven lenses with the most photos. */
  function LensList(m: seq<(string, int)>): (r: seq<LensStat>)
    ensures |r| <= MaxLenses
  {
    Take(SortDesc(LensEntries(m), LensCount), MaxLenses)
  }

  function LensEntries(m: seq<(string, int)>): seq<LensStat> {
    seq(|m|, i requires 0 <= i < |m| => LensStat(m[i].0, ShortenLens(m[i].0), m[i].1))
  }

  /** The ten focal lengths with the most photos, labelled "<mm>mm". */
  function FocalList(m: seq<(int, int)>): (r: seq<Bar>)
    ensures |r| <= MaxFocalLengths
  {
    Take(SortDesc(FocalEntries(m), BarCount), MaxFocalLengths)
  }

  function FocalEntries(m: seq<(int, int)>): seq<Bar> {
    seq(|m|, i requires 0 <= i < |m| => Bar(IntToString(m[i].0) + "mm", m[i].1))
  }

  /** The buckets present, in `ISO_ORDER`. */
  function IsoList(m: seq<(string, int)>): (r: seq<Bar>) {
    IsoBars(Filter(IsoOrder, (l: string) => Get(m, l).Some?), m)
  }

  function IsoBars(present: seq<string>, m: seq<(string, int)>): seq<Bar> {
    seq(|present|, i requires 0 <= i < |present| => Bar(present[i], Get(m, present[i]).GetOr(0)))
  }

  /** Every category of any row, with its count for this camera or 0. */
  function CategoryList(all: seq<(string, string)>, m: seq<(string, int)>): (r: seq<CategoryStat>)
    ensures |r| == |all|
  {
    SortDesc(CategoryEntries(all, m), CategoryCount)
  }

  function CategoryEntries(all: seq<(string, string)>, m: seq<(string, int)>): seq<CategoryStat> {
    seq(|all|, i requires 0 <= i < |all| => CategoryStat(all[i].0, all[i].1, Get(m, all[i].0).GetOr(0)))
  }

  /** Every category of `all` has its entry in the list. */
  lemma CategoryListHas(all: seq<(string, string)>, m: seq<(string, int)>, i: nat)
    requires i < |all|
    ensures CategoryStat(all[i].0, all[i].1, Get(m, all[i].0).GetOr(0)) in CategoryList(all, m)
  {
    SortDescCorrect(CategoryEntries(all, m), CategoryCount);
    assert CategoryEntries(all, m)[i] in multiset(CategoryList(all, m));
  }

  /** Every entry of the list carries the count `m` holds for its name, or 0. */
  lemma CategoryListCount(all: seq<(string, string)>, m: seq<(string, int)>, c: CategoryStat)
    requires c in CategoryList(all, m)
    ensures c.count == Get(m, c.name).GetOr(0)
  {
    SortDescCorrect(CategoryEntries(all, m), CategoryCount);
    assert c in multiset(CategoryEntries(all, m));
  }

  /** The statistics under one key of `buildByCamera`'s result. */
  function StatsFor(cam: string, lensRows: seq<Row<string>>, focalRows: seq<Row<int>>,
                    isoRows: seq<Row<string>>, categoryRows: seq<CategoryRow>): CameraStats
  {
    CameraStats(
      LensList(Tally(Pairs(Only(cam, lensRows)))),
      FocalList(Tally(Pairs(Only(cam, focalRows)))),
      IsoList(Tally(Pairs(Only(cam, isoRows)))),
      CategoryList(Assign(NameSlugs(categoryRows)), Tally(CategoryPairs(CategoriesOf(cam, categoryRows)))))
  }

  /** `for (const r of rows) m.set(r.key, (m.get(r.key) ?? 0) + r.count)` on a fresh Map. */
  method Accumulate<K(==)>(rows: seq<(K, int)>) returns (m: seq<(K, int)>)
    ensures m == Tally(rows)
  {
    m := [];
    for i := 0 to |rows|
      invariant m == Tally(rows[..i])
    {
      assert rows[..i + 1][..i] == rows[..i];
      m := Put(m, rows[i].0, Get(m, rows[i].0).GetOr(0) + rows[i].1);
    }
    assert rows[..|rows|] == rows;
  }

  /** One iteration of `buildByCamera`'s loop: the four lists for one key. */
  method StatsForKey(cam: string, lensRows: seq<Row<string>>, focalRows: seq<Row<int>>,
                     isoRows: seq<Row<string>>, categoryRows: seq<CategoryRow>)
    returns (stats: CameraStats)
    ensures stats == StatsFor(cam, lensRows, focalRows, isoRows, categoryRows)
  {
    var lMap := Accumulate(Pairs(Only(cam, lensRows)));
    var fMap := Accumulate(Pairs(Only(cam, focalRows)));
    var iMap := Accumulate(Pairs(Only(cam, isoRows)));
    var catMap := Accumulate(CategoryPairs(CategoriesOf(cam, categoryRows)));
    stats := CameraStats(LensList(lMap), FocalList(fMap), IsoList(iMap),
                         CategoryList(Assign(NameSlugs(categoryRows)), catMap));
  }

  /**
   * `buildByCamera`: one entry for "all" and one for each camera, each
   * holding that key's statistics.
   */
  method BuildByCamera(lensRows: seq<Row<string>>, focalRows: seq<Row<int>>, isoRows: seq<Row<string>>,
                       categoryRows: seq<CategoryRow>, cameras: seq<string>)
    returns (result: map<string, CameraStats>)
    ensures forall k :: k in result <==> k == All || k in cameras
    ensures forall k :: k in result ==> result[k] == StatsFor(k, lensRows, focalRows, isoRows, categoryRows)
  {
    var keys := [All] + cameras;
    result := map[];
    for i := 0 to |keys|
      invariant forall k :: k in result <==> k in keys[..i]
      invariant forall k :: k in result ==> result[k] == StatsFor(k, lensRows, focalRows, isoRows, categoryRows)
    {
      var stats := StatsForKey(keys[i], lensRows, focalRows, isoRows, categoryRows);
      result := result[keys[i] := stats];
      assert keys[..i + 1] == keys[..i] + [keys[i]];
    }
    assert keys[..|keys|] == keys;
  }

  // ---------------------------------------------------------------------------
  // What each key's statistics hold
  // ---------------------------------------------------------------------------

  lemma InTakeSorted<T>(xs: seq<T>, key: T -> real, k: nat, x: T)
    requires x in Take(SortDesc(xs, key), k)
    ensures x in xs
  {
    SortDescCorrect(xs, key);
    assert x in multiset(SortDesc(xs, key));
  }

  lemma TakeSorted<T>(xs: seq<T>, key: T -> real, k: nat)
    ensures SortedDesc(Take(SortDesc(xs, key), k), key)
  {
    SortDescCorrect(xs, key);
  }

  /** An element the cut leaves out: the list is full, and every kept element ranks at least as high. */
  lemma TakeSortedDropped<T>(xs: seq<T>, key: T -> real, k: nat, x: T)
    requires x in xs && x !in Take(SortDesc(xs, key), k)
    ensures |Take(SortDesc(xs, key), k)| == k
    ensures forall y :: y in Take(SortDesc(xs, key), k) ==> key(y) >= key(x)
  {
    var s := SortDesc(xs, key);
    SortDescCorrect(xs, key);
    assert x in multiset(s);
    var j :| 0 <= j < |s| && s[j] == x;
    assert Take(s, k) == s[..k];
    forall y | y in Take(s, k) ensures key(y) >= key(x) {
      var i :| 0 <= i < k && s[i] == y;
    }
  }

  /**
   * A lens the list leaves out has no more photos than any lens it shows,
   * and the list then holds seven lenses: these are the seven most used.
   */
  lemma LensesAreTopSeven(cam: string, lensRows: seq<Row<string>>, focalRows: seq<Row<int>>,
                          isoRows: seq<Row<string>>, categoryRows: seq<CategoryRow>, lens: string)
    requires lens in Keys(Pairs(Only(cam, lensRows)))
    requires forall l :: l in StatsFor(cam, lensRows, focalRows, isoRows, categoryRows).lenses ==> l.name != lens
    ensures |StatsFor(cam, lensRows, focalRows, isoRows, categoryRows).lenses| == MaxLenses
    ensures forall l :: l in StatsFor(cam, lensRows, focalRows, isoRows, categoryRows).lenses ==>
      l.count >= SumFor(Pairs(Only(cam, lensRows)), lens)
  {
    var rows := Pairs(Only(cam, lensRows));
    var m := Tally(rows);
    var entries := LensEntries(m);
    TallyKeys(rows);
    var i :| 0 <= i < |m| && m[i].0 == lens;
    GetAt(m, i);
    TallySums(rows, lens);
    TakeSortedDropped(entries, LensCount, MaxLenses, entries[i]);
  }

  /** The same for focal lengths: a length left out ranks below all ten that are shown. */
  lemma FocalLengthsAreTopTen(cam: string, lensRows: seq<Row<string>>, focalRows: seq<Row<int>>,
                              isoRows: seq<Row<string>>, categoryRows: seq<CategoryRow>, mm: int)
    requires mm in Keys(Pairs(Only(cam, focalRows)))
    requires Bar(IntToString(mm) + "mm", SumFor(Pairs(Only(cam, focalRows)), mm))
      !in StatsFor(cam, lensRows, focalRows, isoRows, categoryRows).focalLengths
    ensures |StatsFor(cam, lensRows, focalRows, isoRows, categoryRows).focalLengths| == MaxFocalLengths
    ensures forall b :: b in StatsFor(cam, lensRows, focalRows, isoRows, categoryRows).focalLengths ==>
      b.count >= SumFor(Pairs(Only(cam, focalRows)), mm)
  {
    var rows := Pairs(Only(cam, focalRows));
    var m := Tally(rows);
    var entries := FocalEntries(m);
    TallyKeys(rows);
    var i :| 0 <= i < |m| && m[i].0 == mm;
    GetAt(m, i);
    TallySums(rows, mm);
    TakeSortedDropped(entries, BarCount, MaxFocalLengths, entries[i]);
  }

  /**
   * The lenses: at most seven, by non-increasing count, each with its
   * shortened name and the sum of the counts of its rows for the key.
   */
  lemma LensesCorrect(cam: string, lensRows: seq<Row<string>>, focalRows: seq<Row<int>>,
                      isoRows: seq<Row<string>>, categoryRows: seq<CategoryRow>)
    ensures var lenses := StatsFor(cam, lensRows, focalRows, isoRows, categoryRows).lenses;
      && |lenses| <= MaxLenses
      && SortedDesc(lenses, LensCount)
      && forall l :: l in lenses ==>
           l.shortName == ShortenLens(l.name) && l.count == SumFor(Pairs(Only(cam, lensRows)), l.name)
  {
    var rows := Pairs(Only(cam, lensRows));
    var m := Tally(rows);
    var entries := LensEntries(m);
    TakeSorted(entries, LensCount, MaxLenses);
    TallyKeys(rows);
    forall l | l in LensList(m)
      ensures l.shortName == ShortenLens(l.name) && l.count == SumFor(rows, l.name)
    {
      InTakeSorted(entries, LensCount, MaxLenses, l);
      var i :| 0 <= i < |entries| && entries[i] == l;
      GetAt(m, i);
      TallySums(rows, l.name);
    }
  }

  /** The focal lengths: at most ten, by non-increasing count. */
  lemma FocalLengthsCorrect(cam: string, lensRows: seq<Row<string>>, focalRows: seq<Row<int>>,
                            isoRows: seq<Row<string>>, categoryRows: seq<CategoryRow>)
    ensures var focal := StatsFor(cam, lensRows, focalRows, isoRows, categoryRows).focalLengths;
      && |focal| <= MaxFocalLengths
      && SortedDesc(focal, BarCount)
      && forall b :: b in focal ==>
           exists mm :: b.labelText == IntToString(mm) + "mm" && b.count == SumFor(Pairs(Only(cam, focalRows)), mm)
  {
    var rows := Pairs(Only(cam, focalRows));
    var m := Tally(rows);
    var entries := FocalEntries(m);
    TakeSorted(entries, BarCount, MaxFocalLengths);
    TallyKeys(rows);
    forall b | b in FocalList(m)
      ensures exists mm :: b.labelText == IntToString(mm) + "mm" && b.count == SumFor(rows, mm)
    {
      InTakeSorted(entries, BarCount, MaxFocalLengths, b);
      var i :| 0 <= i < |entries| && entries[i] == b;
      GetAt(m, i);
      TallySums(rows, m[i].0);
    }
  }

  /**
   * The ISO buckets: exactly those with rows for the key, in `ISO_ORDER`,
   * each with the sum of its counts.
   */
  lemma IsoRangesCorrect(cam: string, lensRows: seq<Row<string>>, focalRows: seq<Row<int>>,
                         isoRows: seq<Row<string>>, categoryRows: seq<CategoryRow>)
    ensures var iso := StatsFor(cam, lensRows, focalRows, isoRows, categoryRows).isoRanges;
      var rows := Pairs(Only(cam, isoRows));
      && |iso| == |Filter(IsoOrder, (l: string) => l in Keys(rows))|
      && (forall i :: 0 <= i < |iso| ==>
            iso[i].labelText == Filter(IsoOrder, (l: string) => l in Keys(rows))[i]
            && iso[i].count == SumFor(rows, iso[i].labelText))
  {
    var rows := Pairs(Only(cam, isoRows));
    var m := Tally(rows);
    TallyKeys(rows);
    forall i | 0 <= i < |IsoOrder| ensures Get(m, IsoOrder[i]).Some? <==> IsoOrder[i] in Keys(rows) {
      GetSome(m, IsoOrder[i]);
    }
    FilterSame(IsoOrder, (l: string) => Get(m, l).Some?, (l: string) => l in Keys(rows));
    var present := Filter(IsoOrder, (l: string) => l in Keys(rows));
    forall i | 0 <= i < |present| ensures Get(m, present[i]).GetOr(0) == SumFor(rows, present[i]) {
      TallySums(rows, present[i]);
    }
  }

  /**
   * The categories: every category named by any row, under every key, by
   * non-increasing count, with the sum of that key's rows for it (0 when it
   * has none).
   */
  lemma CategoriesCorrect(cam: string, lensRows: seq<Row<string>>, focalRows: seq<Row<int>>,
                          isoRows: seq<Row<string>>, categoryRows: seq<CategoryRow>)
    ensures var cats := StatsFor(cam, lensRows, focalRows, isoRows, categoryRows).categories;
      var rows := CategoryPairs(CategoriesOf(cam, categoryRows));
      && SortedDesc(cats, CategoryCount)
      && (forall r :: r in categoryRows ==> exists c :: c in cats && c.name == r.name)
      && (forall c :: c in cats ==> c.count == SumFor(rows, c.name))
  {
    var rows := CategoryPairs(CategoriesOf(cam, categoryRows));
    var all := Assign(NameSlugs(categoryRows));
    var m := Tally(rows);
    var cats := CategoryList(all, m);
    SortDescCorrect(CategoryEntries(all, m), CategoryCount);
    forall r | r in categoryRows ensures exists c :: c in cats && c.name == r.name {
      var j :| 0 <= j < |categoryRows| && categoryRows[j] == r;
      assert Keys(NameSlugs(categoryRows))[j] == r.name;
      AssignCorrect(NameSlugs(categoryRows), r.name);
      LastForSome(NameSlugs(categoryRows), r.name);
      GetSome(all, r.name);
      assert r.name in Keys(all);
      var i :| 0 <= i < |all| && all[i].0 == r.name;
      CategoryListHas(all, m, i);
    }
    forall c | c in cats ensures c.count == SumFor(rows, c.name) {
      CategoryListCount(all, m, c);
      TallySums(rows, c.name);
      if c.name !in Keys(rows) {
        SumForAbsent(rows, c.name);
      }
    }
  }

  // ---------------------------------------------------------------------------
  // `yearsActive`
  // ---------------------------------------------------------------------------

  /** `s.split("-")[0]`. */
  function BeforeDash(s: string): (r: string)
    ensures |r| <= |s| && r == s[..|r|]
    ensures forall i :: 0 <= i < |r| ==> r[i] != '-'
    ensures |r| == |s| || s[|r|] == '-'
  {
    if s == [] || s[0] == '-' then [] else [s[0]] + BeforeDash(s[1..])
  }

  /**
   * `yearsActive` from the timeline's "YYYY-MM" months, oldest first: last
   * year minus first year plus one, or 1 when there is no timeline. `None`
   * stands for `NaN`, when a year does not parse.
   */
  function YearsActive(months: seq<string>): (r: Option<int>)
    ensures months == [] ==> r == Some(1)
  {
    if months == [] then Some(1)
    else YearSpan(BeforeDash(months[0]), BeforeDash(months[|months| - 1]))
  }

  /** The span between two year strings; 1 when either is empty. */
  function YearSpan(first: string, last: string): Option<int> {
    if first == [] || last == [] then Some(1)
    else if ParseInt(last).Some? && ParseInt(first).Some? then Some(ParseInt(last).value - ParseInt(first).value + 1)
    else None
  }

  lemma {:induction false} BeforeDashOf(year: string, rest: string)
    requires forall i :: 0 <= i < |year| ==> year[i] != '-'
    ensures BeforeDash(year + "-" + rest) == year
  {
    if year == [] {
      assert (year + "-" + rest)[0] == '-';
    } else {
      assert (year + "-" + rest)[1..] == year[1..] + "-" + rest;
      BeforeDashOf(year[1..], rest);
    }
  }

  /**
   * For months written "<year>-<month>", the span counts both end years, so
   * a timeline within one year gives 1.
   */
  lemma YearsActiveSpan(months: seq<string>, firstYear: nat, lastYear: nat, firstMonth: string, lastMonth: string)
    requires months != []
    requires months[0] == NatToString(firstYear) + "-" + firstMonth
    requires months[|months| - 1] == NatToString(lastYear) + "-" + lastMonth
    ensures YearsActive(months) == Some(lastYear - firstYear + 1)
  {
    var first, last := NatToString(firstYear), NatToString(lastYear);
    assert BeforeDash(months[0]) == first by { BeforeDashOf(first, firstMonth); }
    assert BeforeDash(months[|months| - 1]) == last by { BeforeDashOf(last, lastMonth); }
    assert ParseInt(first) == Some(firstYear) by {
      ParseIntOfNat(firstYear, []);
      assert first + [] == first;
    }
    assert ParseInt(last) == Some(lastYear) by {
      ParseIntOfNat(lastYear, []);
      assert last + [] == last;
    }
  }
}
