/**
 * The client side of the statistics page (src/components/stats/StatsCharts.tsx):
 * camera display labels, the choice of statistics for the selected camera,
 * and the category chart's bars.
 */
module StatsCharts {
  import opened Wrappers
  import opened Text
  import opened Seqs
  import opened Stats

  // ---------------------------------------------------------------------------
  // `cameraLabel`
  // ---------------------------------------------------------------------------

  /** The numerals `["I", "II", "III", "IV"]` a trailing "_1" to "_4" becomes. */
  const Numerals: seq<string> := ["I", "II", "III", "IV"]

  /** `.replace(/_(\d)$/, …)`: the digit after a final underscore, if any. */
  function SuffixDigit(model: string): (r: Option<char>)
    ensures r.Some? ==> |model| >= 2 && model[|model| - 2] == '_' && model[|model| - 1] == r.value && IsDigit(r.value)
    ensures r.None? ==> |model| < 2 || model[|model| - 2] != '_' || !IsDigit(model[|model| - 1])
  {
    if |model| >= 2 && model[|model| - 2] == '_' && IsDigit(model[|model| - 1]) then Some(model[|model| - 1]) else None
  }

  /** The replacement for the digit `d`: its numeral for 1 to 4, else the digit itself. */
  function NumeralFor(d: char): (r: string)
    requires IsDigit(d)
    ensures '1' <= d <= '4' ==> r == Numerals[d as int - '1' as int]
    ensures !('1' <= d <= '4') ==> r == [d]
  {
    var i := d as int - '1' as int;
    if 0 <= i < |Numerals| then Numerals[i] else [d]
  }

  /** The first replacement: a final "_<digit>" becomes the digit's numeral. */
  function ReplaceSuffix(model: string): (r: string)
    ensures SuffixDigit(model).None? ==> r == model
    ensures SuffixDigit(model).Some? ==> r == model[..|model| - 2] + NumeralFor(SuffixDigit(model).value)
  {
    match SuffixDigit(model)
    case None => model
    case Some(d) => model[..|model| - 2] + NumeralFor(d)
  }

  /** A lower-case ASCII letter directly followed by an upper-case one. */
  predicate CaseBreak(a: char, b: char) { IsAsciiLower(a) && IsAsciiUpper(b) }

  /** No lower-case letter is directly followed by an upper-case letter. */
  predicate NoCaseBreak(s: string) {
    forall i :: 0 <= i < |s| - 1 ==> !CaseBreak(s[i], s[i + 1])
  }

  /**
   * `.replace(/([a-z])([A-Z])/g, "$1 $2")`: the global replacement scans left
   * to right and resumes after each match.
   */
  function SplitCase(s: string): (r: string)
    ensures NoCaseBreak(r)
    ensures s != [] ==> r != [] && r[0] == s[0]
    ensures |r| >= |s|
    decreases |s|
  {
    if |s| < 2 then s
    else if CaseBreak(s[0], s[1]) then [s[0], ' '] + SplitCase(s[1..])
    else [s[0]] + SplitCase(s[1..])
  }

  /**
   * The same text built pair by pair from the end: a space between every
   * adjacent lower-case, upper-case pair of the input.
   */
  function SpacedPairs(s: string): string
    decreases |s|
  {
    if |s| < 2 then s
    else SpacedPairs(s[..|s| - 1]) + (if CaseBreak(s[|s| - 2], s[|s| - 1]) then " " else "") + [s[|s| - 1]]
  }

  lemma {:induction false} SpacedPairsCons(a: char, t: string)
    ensures SpacedPairs([a] + t) == [a] + (if t != [] && CaseBreak(a, t[0]) then " " else "") + SpacedPairs(t)
    decreases |t|
  {
    var s := [a] + t;
    if |t| >= 2 {
      assert s[..|s| - 1] == [a] + t[..|t| - 1];
      SpacedPairsCons(a, t[..|t| - 1]);
      assert t[..|t| - 1][0] == t[0];
    } else if |t| == 1 {
      assert s[..|s| - 1] == [a];
    }
  }

  /** The left-to-right scan inserts exactly one space inside every lower-upper pair. */
  lemma {:induction false} SplitCaseIsSpacedPairs(s: string)
    ensures SplitCase(s) == SpacedPairs(s)
    decreases |s|
  {
    if |s| >= 2 {
      var t := s[1..];
      SplitCaseIsSpacedPairs(t);
      SpacedPairsCons(s[0], t);
      assert [s[0]] + t == s;
      if CaseBreak(s[0], s[1]) {
        assert [s[0], ' '] == [s[0]] + " ";
      } else {
        assert [s[0]] == [s[0]] + "";
      }
    }
  }

  /** Splitting twice changes nothing more. */
  lemma {:induction false} SplitCaseIdempotent(s: string)
    ensures SplitCase(SplitCase(s)) == SplitCase(s)
  {
    SplitCaseNoBreak(SplitCase(s));
  }

  lemma {:induction false} SplitCaseNoBreak(s: string)
    requires NoCaseBreak(s)
    ensures SplitCase(s) == s
    decreases |s|
  {
    if |s| >= 2 {
      assert !CaseBreak(s[0], s[1]);
      SplitCaseNoBreak(s[1..]);
    }
  }

  /** `cameraLabel(model)`: the numeral replacement, then the case split. */
  function CameraLabel(model: string): (r: string)
    ensures NoCaseBreak(r)
    ensures SuffixDigit(model).None? ==> r == SpacedPairs(model)
    ensures SuffixDigit(model).Some? ==>
      r == SpacedPairs(model[..|model| - 2] + NumeralFor(SuffixDigit(model).value))
  {
    SplitCaseIsSpacedPairs(ReplaceSuffix(model));
    SplitCase(ReplaceSuffix(model))
  }

  /** A final "_2" reads as "II", and so on up to "_4". */
  lemma RomanSuffix(stem: string, d: char)
    requires '1' <= d <= '4'
    ensures CameraLabel(stem + ['_', d]) == SpacedPairs(stem + Numerals[d as int - '1' as int])
  {
    var m := stem + ['_', d];
    assert SuffixDigit(m) == Some(d);
    assert m[..|m| - 2] == stem;
  }

  /** Any other final digit just loses its underscore. */
  lemma PlainDigitSuffix(stem: string, d: char)
    requires IsDigit(d) && !('1' <= d <= '4')
    ensures CameraLabel(stem + ['_', d]) == SpacedPairs(stem + [d])
  {
    var m := stem + ['_', d];
    assert SuffixDigit(m) == Some(d);
    assert m[..|m| - 2] == stem;
  }

  // ---------------------------------------------------------------------------
  // The statistics shown for the selected camera
  // ---------------------------------------------------------------------------

  /**
   * What the charts read as `filtered`: a camera's statistics, or the literal
   * fallback object, whose lens, focal-length and ISO lists are empty and
   * which has no `categories` field at all.
   */
  datatype Filtered = CameraShown(stats: CameraStats) | LiteralFallback

  /** `data.byCamera[selectedCamera] ?? data.byCamera["all"] ?? {…}`. */
  function Selected(byCamera: map<string, CameraStats>, cam: string): (r: Filtered)
    ensures cam in byCamera ==> r == CameraShown(byCamera[cam])
    ensures cam !in byCamera && All in byCamera ==> r == CameraShown(byCamera[All])
    ensures r.LiteralFallback? <==> cam !in byCamera && All !in byCamera
  {
    if cam in byCamera then CameraShown(byCamera[cam])
    else if All in byCamera then CameraShown(byCamera[All])
    else LiteralFallback
  }

  /**
   * The bars of the category chart for what is shown; `None` where the chart
   * would call `filter` on the fallback's missing `categories` and throw.
   */
  function FilteredCategoryBars(filtered: Filtered, catNames: map<string, string>): (r: Option<seq<CategoryBar>>)
    ensures r.None? <==> filtered.LiteralFallback?
    ensures r.Some? ==> |r.value| == |Filter(filtered.stats.categories, HasPhotos)|
  {
    match filtered
    case CameraShown(stats) => Some(CategoryBars(stats.categories, catNames))
    case LiteralFallback => None
  }

  /**
   * With the map the page builds, a listed camera shows its own statistics
   * and any other selection shows those of every camera: the literal fallback
   * is never used, so the category chart never throws.
   */
  lemma SelectedFromBuilt(byCamera: map<string, CameraStats>, cameras: seq<string>, cam: string, catNames: map<string, string>,
                          lensRows: seq<Row<string>>, focalRows: seq<Row<int>>,
                          isoRows: seq<Row<string>>, categoryRows: seq<CategoryRow>)
    requires forall k :: k in byCamera <==> k == All || k in cameras
    requires forall k :: k in byCamera ==> byCamera[k] == StatsFor(k, lensRows, focalRows, isoRows, categoryRows)
    ensures cam == All || cam in cameras ==>
      Selected(byCamera, cam) == CameraShown(StatsFor(cam, lensRows, focalRows, isoRows, categoryRows))
    ensures !(cam == All || cam in cameras) ==>
      Selected(byCamera, cam) == CameraShown(StatsFor(All, lensRows, focalRows, isoRows, categoryRows))
    ensures FilteredCategoryBars(Selected(byCamera, cam), catNames).Some?
  {
    assert All in byCamera;
  }

  // ---------------------------------------------------------------------------
  // The category chart
  // ---------------------------------------------------------------------------

  /** A bar of the category chart: the display name and the count. */
  datatype CategoryBar = CategoryBar(name: string, slug: string, count: int)

  function HasPhotos(c: CategoryStat): bool { c.count > 0 }

  /** The categories with photos, each under its translated name when there is one. */
  function CategoryBars(categories: seq<CategoryStat>, catNames: map<string, string>): (r: seq<CategoryBar>)
    ensures |r| == |Filter(categories, HasPhotos)|
    ensures forall i :: 0 <= i < |r| ==> r[i].count > 0
  {
    var shown := Filter(categories, HasPhotos);
    seq(|shown|, i requires 0 <= i < |shown| =>
      var c := shown[i];
      CategoryBar(if c.slug in catNames then catNames[c.slug] else c.name, c.slug, c.count))
  }

  /** Exactly the categories with a positive count get a bar, under the right name. */
  lemma CategoryBarsComplete(categories: seq<CategoryStat>, catNames: map<string, string>, c: CategoryStat)
    requires c in categories
    ensures c.count > 0 <==>
      CategoryBar(if c.slug in catNames then catNames[c.slug] else c.name, c.slug, c.count) in CategoryBars(categories, catNames)
  {
    FilterMembers(categories, HasPhotos);
    var shown := Filter(categories, HasPhotos);
    var bar := CategoryBar(if c.slug in catNames then catNames[c.slug] else c.name, c.slug, c.count);
    if c.count > 0 {
      var i :| 0 <= i < |shown| && shown[i] == c;
      assert CategoryBars(categories, catNames)[i] == bar;
    }
  }
}
