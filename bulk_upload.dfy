/**
 * The bulk upload form (src/components/admin/BulkUploadForm.tsx): the list of
 * queued files, its edit operations, the sequential upload of the pending
 * entries, and the helpers for titles, progress and remaining time.
 */
module BulkUpload {
  import opened Wrappers
  import opened Text
  import opened Seqs

  // ---------------------------------------------------------------------------
  // `formatTime`
  // ---------------------------------------------------------------------------

  const Calculating := "obliczanie…"
  const AlmostDone := "za chwilę"

  /** `${s < 10 ? "0" : ""}${s}`: two digits, with a leading zero below 10. */
  function Pad2(n: nat): (r: string)
    requires n < 100
    ensures |r| == 2 && AllDigits(r) && DigitsValue(r) == n
  {
    NatToStringRoundTrip(n);
    if n < 10 then
      var d := NatToString(n);
      assert d == [DigitChar(n)];
      assert DigitsValue("0" + d) == DigitsValue("0") * 10 + DigitsValue(d) by {
        assert ("0" + d)[..1] == "0";
      }
      "0" + d
    else
      assert NatToString(n) == NatToString(n / 10) + [DigitChar(n % 10)];
      NatToString(n)
  }

  /**
   * `formatTime(seconds)` for the whole seconds the upload loop computes:
   * "obliczanie…" before an estimate exists, "za chwilę" under 5 seconds,
   * "<n> s" under a minute, else "<m> min <ss> s" with two-digit seconds.
   */
  function FormatTime(seconds: Option<int>): (r: string)
    ensures seconds.None? ==> r == Calculating
    ensures seconds.Some? && seconds.value < 5 ==> r == AlmostDone
    ensures seconds.Some? && 5 <= seconds.value < 60 ==> r == NatToString(seconds.value) + " s"
    ensures seconds.Some? && 60 <= seconds.value ==>
      r == NatToString(seconds.value / 60) + " min " + Pad2(seconds.value % 60) + " s"
  {
    match seconds
    case None => Calculating
    case Some(s) =>
      if s < 5 then AlmostDone
      else if s < 60 then IntToString(s) + " s"
      else
        IntToString(s / 60) + " min " + Pad2(s % 60) + " s"
  }

  /** From a minute on, the minutes and the two-digit seconds add back up to the input. */
  lemma FormatTimeMinutes(m: nat, ss: nat)
    requires 1 <= m && ss < 60
    ensures FormatTime(Some(60 * m + ss)) == NatToString(m) + " min " + Pad2(ss) + " s"
  {
    MinutesAndSeconds(m, ss);
  }

  lemma MinutesAndSeconds(m: nat, ss: nat)
    requires ss < 60
    ensures (60 * m + ss) / 60 == m && (60 * m + ss) % 60 == ss
  {
  }

  // ---------------------------------------------------------------------------
  // Titles
  // ---------------------------------------------------------------------------

  /** `buildTitle(prefix, base)`. */
  function BuildTitle(prefix: string, base: string): (r: string)
    ensures EndsWith(r, base)
    ensures Trim(prefix) == [] ==> r == base
    ensures Trim(prefix) != [] ==> StartsWith(r, Trim(prefix) + ", ") && |r| == |Trim(prefix)| + 2 + |base|
  {
    var p := Trim(prefix);
    if p != [] then
      var r := p + ", " + base;
      assert r[|r| - |base|..] == base;
      assert r[..|p| + 2] == p + ", ";
      r
    else base
  }

  predicate IsDashOrUnderscore(c: char) { c == '-' || c == '_' }

  /** `.replace(/\.[^.]+$/, "")`: a final '.' followed by at least one non-dot character goes. */
  function StripExtension(s: string): (r: string)
    ensures |r| <= |s| && r == s[..|r|]
  {
    match LastDot(s)
    case Some(p) => if p + 1 < |s| then s[..p] else s
    case None => s
  }

  /** A name "<stem>.<ext>", with a non-empty extension free of dots, loses ".<ext>". */
  lemma ExtensionStripped(stem: string, ext: string)
    requires ext != [] && forall i :: 0 <= i < |ext| ==> ext[i] != '.'
    ensures StripExtension(stem + "." + ext) == stem
  {
    var s := stem + "." + ext;
    var p := |stem|;
    assert s[p] == '.';
    assert forall i :: p < i < |s| ==> s[i] == ext[i - p - 1];
    assert LastDot(s) == Some(p);
    assert s[..p] == stem;
  }

  /** A name without a dot, or ending in one, is kept whole. */
  lemma NoExtensionKept(s: string)
    requires (forall i :: 0 <= i < |s| ==> s[i] != '.') || (s != [] && s[|s| - 1] == '.')
    ensures StripExtension(s) == s
  {
  }

  /** A word character with no word character before it: where `\b\w` matches. */
  predicate WordStart(s: string, i: nat)
    requires i < |s|
  {
    IsWordChar(s[i]) && (i == 0 || !IsWordChar(s[i - 1]))
  }

  /**
   * `.replace(/\b\w/g, c => c.toUpperCase())` as written: JavaScript's `\w`
   * and `\b` know only ASCII letters, digits and '_', so a Polish letter ends
   * a word and the letter after it is upper-cased.
   */
  function CapitalizeWords(s: string): (r: string)
    ensures |r| == |s|
    ensures forall i :: 0 <= i < |s| && WordStart(s, i) ==> r[i] == UpperChar(s[i])
    ensures forall i :: 0 <= i < |s| && !WordStart(s, i) ==> r[i] == s[i]
  {
    seq(|s|, i requires 0 <= i < |s| => if WordStart(s, i) then UpperChar(s[i]) else s[i])
  }

  /** "zęc" becomes "ZęC": the 'c' after 'ę' is taken for the start of a word. */
  lemma CapitalizeWordsSplitsAtPolishLetters()
    ensures CapitalizeWords("zęc") == "ZęC"
  {
    assert WordStart("zęc", 0) && !WordStart("zęc", 1) && WordStart("zęc", 2);
  }

  /** The Polish lower-case letters outside ASCII. */
  predicate IsPolishLower(c: char) {
    c == 'ą' || c == 'ć' || c == 'ę' || c == 'ł' || c == 'ń' || c == 'ó' || c == 'ś' || c == 'ź' || c == 'ż'
  }

  /** The Polish upper-case letters outside ASCII. */
  predicate IsPolishUpper(c: char) {
    c == 'Ą' || c == 'Ć' || c == 'Ę' || c == 'Ł' || c == 'Ń' || c == 'Ó' || c == 'Ś' || c == 'Ź' || c == 'Ż'
  }

  predicate IsPolishLetter(c: char) { IsPolishLower(c) || IsPolishUpper(c) }

  /** A letter or digit of a title word: the ASCII word characters and the Polish letters. */
  predicate IsTitleLetter(c: char) { IsWordChar(c) || IsPolishLetter(c) }

  /** `toUpperCase` on a Polish lower-case letter. */
  function PolishUpper(c: char): (r: char)
    requires IsPolishLower(c)
    ensures IsPolishUpper(r)
  {
    match c
    case 'ą' => 'Ą' case 'ć' => 'Ć' case 'ę' => 'Ę' case 'ł' => 'Ł' case 'ń' => 'Ń'
    case 'ó' => 'Ó' case 'ś' => 'Ś' case 'ź' => 'Ź' case 'ż' => 'Ż'
  }

  /** `toUpperCase` on the letters of `IsTitleLetter`. */
  function TitleUpper(c: char): (r: char)
    ensures IsTitleLetter(c) ==> IsTitleLetter(r)
  {
    if IsAsciiLower(c) then UpperChar(c)
    else if IsPolishLower(c) then PolishUpper(c)
    else c
  }

  predicate LetterStart(s: string, i: nat)
    requires i < |s|
  {
    IsTitleLetter(s[i]) && (i == 0 || !IsTitleLetter(s[i - 1]))
  }

  /**
   * The evident intent: upper-case the first letter of every word, where
   * Polish letters belong to words. A character that follows a letter is
   * never changed.
   */
  function CapitalizeTitleWords(s: string): (r: string)
    ensures |r| == |s|
    ensures forall i :: 0 <= i < |s| && LetterStart(s, i) ==> r[i] == TitleUpper(s[i])
    ensures forall i :: 0 < i < |s| && IsTitleLetter(s[i - 1]) ==> r[i] == s[i]
  {
    seq(|s|, i requires 0 <= i < |s| => if LetterStart(s, i) then TitleUpper(s[i]) else s[i])
  }

  /** Capitalising a capitalised title changes nothing more. */
  lemma CapitalizeTitleWordsIdempotent(s: string)
    ensures CapitalizeTitleWords(CapitalizeTitleWords(s)) == CapitalizeTitleWords(s)
  {
    var r := CapitalizeTitleWords(s);
    forall i | 0 <= i < |s| ensures IsTitleLetter(r[i]) == IsTitleLetter(s[i]) {
      if LetterStart(s, i) {
        TitleUpperIdempotent(s[i]);
      }
    }
    forall i | 0 <= i < |s| && LetterStart(r, i) ensures TitleUpper(r[i]) == r[i] {
      TitleUpperIdempotent(s[i]);
    }
  }

  lemma TitleUpperIdempotent(c: char)
    ensures TitleUpper(TitleUpper(c)) == TitleUpper(c)
    ensures IsTitleLetter(TitleUpper(c)) == IsTitleLetter(c)
  {
  }

  /**
   * `titleFromFilename(name)`: drop the extension, turn each run of '-' and
   * '_' into one space, upper-case each `\b\w` (the ASCII rule as written),
   * trim. The result has no '-' or '_' and no white space at either end.
   */
  function TitleFromFilename(name: string): (r: string)
    ensures forall i :: 0 <= i < |r| ==> !IsDashOrUnderscore(r[i])
    ensures r == [] || (!IsSpace(r[0]) && !IsSpace(r[|r| - 1]))
  {
    var spaced := CollapseRuns(StripExtension(name), IsDashOrUnderscore, ' ');
    var capital := CapitalizeWords(spaced);
    CapitalizeKeepsNoDash(spaced);
    TrimKeepsNoDash(capital);
    Trim(capital)
  }

  /** The same title with the intended capitalisation, where Polish letters belong to words. */
  function TitleFromFilenameIntended(name: string): (r: string)
    ensures forall i :: 0 <= i < |r| ==> !IsDashOrUnderscore(r[i])
    ensures r == [] || (!IsSpace(r[0]) && !IsSpace(r[|r| - 1]))
  {
    var spaced := CollapseRuns(StripExtension(name), IsDashOrUnderscore, ' ');
    var capital := CapitalizeTitleWords(spaced);
    CapitalizeTitleKeepsNoDash(spaced);
    TrimKeepsNoDash(capital);
    Trim(capital)
  }

  /** A word of lower-case letters, ASCII or Polish. */
  predicate LowerWord(w: string) {
    w != [] && forall k :: 0 <= k < |w| ==> IsAsciiLower(w[k]) || IsPolishLower(w[k])
  }

  /** A file extension after the last dot: non-empty and free of dots. */
  predicate PlainExtension(ext: string) {
    ext != [] && forall i :: 0 <= i < |ext| ==> ext[i] != '.'
  }

  /** `w` with its first letter upper-cased by `toUpperCase`. */
  function Capitalized(w: string): (r: string)
    requires w != []
    ensures |r| == |w| && r[1..] == w[1..] && r[0] == TitleUpper(w[0])
  {
    [TitleUpper(w[0])] + w[1..]
  }

  /**
   * Two ASCII words joined by a run of '-' and '_', with an extension, give
   * both words capitalised with one space between them ("my__photo.jpg"
   * becomes "My Photo"), under either rule.
   */
  lemma TitleFromTwoWords(w1: string, run: string, w2: string, ext: string)
    requires w1 != [] && forall k :: 0 <= k < |w1| ==> IsAsciiLower(w1[k])
    requires w2 != [] && forall k :: 0 <= k < |w2| ==> IsAsciiLower(w2[k])
    requires run != [] && forall k :: 0 <= k < |run| ==> IsDashOrUnderscore(run[k])
    requires PlainExtension(ext)
    ensures TitleFromFilename(w1 + run + w2 + "." + ext) == Capitalized(w1) + " " + Capitalized(w2)
    ensures TitleFromFilenameIntended(w1 + run + w2 + "." + ext) == Capitalized(w1) + " " + Capitalized(w2)
  {
    SpacedWords(w1, run, w2, ext);
    CapitalizeTwoWords(w1, w2);
    TrimUnspaced(Capitalized(w1) + " " + Capitalized(w2));
  }

  /** Both rules upper-case exactly the first letter of each of two ASCII words. */
  lemma CapitalizeTwoWords(w1: string, w2: string)
    requires w1 != [] && forall k :: 0 <= k < |w1| ==> IsAsciiLower(w1[k])
    requires w2 != [] && forall k :: 0 <= k < |w2| ==> IsAsciiLower(w2[k])
    ensures CapitalizeWords(w1 + " " + w2) == Capitalized(w1) + " " + Capitalized(w2)
    ensures CapitalizeTitleWords(w1 + " " + w2) == Capitalized(w1) + " " + Capitalized(w2)
    ensures var e := Capitalized(w1) + " " + Capitalized(w2); !IsSpace(e[0]) && !IsSpace(e[|e| - 1])
  {
    var spaced := w1 + " " + w2;
    var e := Capitalized(w1) + " " + Capitalized(w2);
    forall k | 0 <= k < |spaced| ensures CapitalizeWords(spaced)[k] == e[k] && CapitalizeTitleWords(spaced)[k] == e[k] {
      if k < |w1| {
        assert spaced[k] == w1[k];
        if k > 0 { assert spaced[k - 1] == w1[k - 1]; }
      } else if k > |w1| {
        assert spaced[k] == w2[k - |w1| - 1];
        if k > |w1| + 1 { assert spaced[k - 1] == w2[k - |w1| - 2]; }
      }
    }
    assert e[|e| - 1] == Capitalized(w2)[|w2| - 1];
  }

  /**
   * In a word of lower-case letters, an ASCII letter right after a Polish
   * letter is upper-cased by the rule as written: "zdjęcie_morza.jpg" is
   * titled "ZdjęCie Morza".
   */
  lemma TitleSplitsAfterPolishLetter(w: string, ext: string, i: nat)
    requires LowerWord(w) && PlainExtension(ext)
    requires i + 1 < |w| && IsPolishLower(w[i]) && IsAsciiLower(w[i + 1])
    ensures TitleFromFilename(w + "." + ext) == CapitalizeWords(w)
    ensures TitleFromFilename(w + "." + ext)[i + 1] == UpperChar(w[i + 1]) != w[i + 1]
  {
    assert TitleFromFilename(w + "." + ext) == CapitalizeWords(w) by {
      StemOnly(w, ext);
      LowerWordCapitalized(w);
    }
    CapitalizeAfterPolishLetter(w, i);
  }

  /** Under the intended rule the same letter is kept: "Zdjęcie Morza". */
  lemma TitleKeepsAfterPolishLetter(w: string, ext: string, i: nat)
    requires LowerWord(w) && PlainExtension(ext)
    requires i + 1 < |w| && IsPolishLower(w[i]) && IsAsciiLower(w[i + 1])
    ensures TitleFromFilenameIntended(w + "." + ext) == CapitalizeTitleWords(w)
    ensures TitleFromFilenameIntended(w + "." + ext)[i + 1] == w[i + 1]
  {
    assert TitleFromFilenameIntended(w + "." + ext) == CapitalizeTitleWords(w) by {
      StemOnly(w, ext);
      LowerWordTitled(w);
    }
    CapitalizeAfterPolishLetter(w, i);
  }

  /** The two rules part at an ASCII letter that follows a Polish letter. */
  lemma CapitalizeAfterPolishLetter(w: string, i: nat)
    requires i + 1 < |w| && IsPolishLower(w[i]) && IsAsciiLower(w[i + 1])
    ensures CapitalizeWords(w)[i + 1] == UpperChar(w[i + 1]) != w[i + 1]
    ensures CapitalizeTitleWords(w)[i + 1] == w[i + 1]
  {
    PolishLetterNotWordChar(w[i]);
    assert WordStart(w, i + 1);
  }

  lemma PolishLetterNotWordChar(c: char)
    requires IsPolishLower(c)
    ensures !IsWordChar(c) && IsTitleLetter(c)
  {
  }

  /** A single word with an extension loses only the extension before capitalising. */
  lemma StemOnly(w: string, ext: string)
    requires LowerWord(w) && PlainExtension(ext)
    ensures CollapseRuns(StripExtension(w + "." + ext), IsDashOrUnderscore, ' ') == w
  {
    ExtensionStripped(w, ext);
    CollapseRunsNone(w, IsDashOrUnderscore, ' ');
  }

  /** Capitalising a word of letters leaves nothing for `trim` to remove. */
  lemma LowerWordCapitalized(w: string)
    requires LowerWord(w)
    ensures Trim(CapitalizeWords(w)) == CapitalizeWords(w)
  {
    CapitalizedFirstNotSpace(w);
    CapitalizedLastNotSpace(w);
    TrimUnspaced(CapitalizeWords(w));
  }

  lemma CapitalizedFirstNotSpace(w: string)
    requires LowerWord(w)
    ensures !IsSpace(CapitalizeWords(w)[0])
  {
    var c := CapitalizeWords(w);
    LetterNotSpace(w[0]);
    assert c[0] == w[0] || c[0] == UpperChar(w[0]);
  }

  lemma CapitalizedLastNotSpace(w: string)
    requires LowerWord(w)
    ensures !IsSpace(CapitalizeWords(w)[|w| - 1])
  {
    var c := CapitalizeWords(w);
    LetterNotSpace(w[|w| - 1]);
    assert c[|w| - 1] == w[|w| - 1] || c[|w| - 1] == UpperChar(w[|w| - 1]);
  }

  /** The same under the intended rule. */
  lemma LowerWordTitled(w: string)
    requires LowerWord(w)
    ensures Trim(CapitalizeTitleWords(w)) == CapitalizeTitleWords(w)
  {
    var d := CapitalizeTitleWords(w);
    assert !IsSpace(d[0]) by {
      LetterNotSpace(w[0]);
      assert d[0] == TitleUpper(w[0]);
    }
    assert !IsSpace(d[|d| - 1]) by {
      LetterNotSpace(w[|w| - 1]);
      assert d[|d| - 1] == w[|w| - 1] || d[|d| - 1] == TitleUpper(w[|w| - 1]);
    }
    TrimUnspaced(d);
  }

  lemma LetterNotSpace(c: char)
    requires IsAsciiLower(c) || IsPolishLower(c)
    ensures !IsSpace(c) && !IsSpace(UpperChar(c)) && !IsSpace(TitleUpper(c))
  {
  }

  /** Stripping the extension and collapsing the run leaves the words around one space. */
  lemma SpacedWords(w1: string, run: string, w2: string, ext: string)
    requires forall k :: 0 <= k < |w1| ==> !IsDashOrUnderscore(w1[k])
    requires w2 != [] && forall k :: 0 <= k < |w2| ==> !IsDashOrUnderscore(w2[k])
    requires run != [] && forall k :: 0 <= k < |run| ==> IsDashOrUnderscore(run[k])
    requires PlainExtension(ext)
    ensures CollapseRuns(StripExtension(w1 + run + w2 + "." + ext), IsDashOrUnderscore, ' ') == w1 + " " + w2
  {
    ExtensionStripped(w1 + run + w2, ext);
    assert w1 + run + w2 == w1 + (run + w2);
    CollapseRunsNone(w2, IsDashOrUnderscore, ' ');
    CollapseRunsRun(run, w2, IsDashOrUnderscore, ' ');
    CollapseRunsPrefix(w1, run + w2, IsDashOrUnderscore, ' ');
  }

  /** A text with no white space at either end is its own trim. */
  lemma TrimUnspaced(s: string)
    requires s != [] && !IsSpace(s[0]) && !IsSpace(s[|s| - 1])
    ensures Trim(s) == s
  {
    TrimStartNoSpace(s);
    TrimEndNoSpace(s);
  }

  lemma CapitalizeKeepsNoDash(s: string)
    requires forall i :: 0 <= i < |s| ==> !IsDashOrUnderscore(s[i])
    ensures forall i :: 0 <= i < |CapitalizeWords(s)| ==> !IsDashOrUnderscore(CapitalizeWords(s)[i])
  {
  }

  lemma CapitalizeTitleKeepsNoDash(s: string)
    requires forall i :: 0 <= i < |s| ==> !IsDashOrUnderscore(s[i])
    ensures forall i :: 0 <= i < |CapitalizeTitleWords(s)| ==> !IsDashOrUnderscore(CapitalizeTitleWords(s)[i])
  {
    var r := CapitalizeTitleWords(s);
    forall i | 0 <= i < |r| ensures !IsDashOrUnderscore(r[i]) {
      if LetterStart(s, i) {
        TitleUpperNoDash(s[i]);
      }
    }
  }

  lemma TitleUpperNoDash(c: char)
    requires !IsDashOrUnderscore(c)
    ensures !IsDashOrUnderscore(TitleUpper(c))
  {
  }

  lemma TrimKeepsNoDash(s: string)
    requires forall i :: 0 <= i < |s| ==> !IsDashOrUnderscore(s[i])
    ensures forall i :: 0 <= i < |Trim(s)| ==> !IsDashOrUnderscore(Trim(s)[i])
  {
    forall i | 0 <= i < |Trim(s)| ensures !IsDashOrUnderscore(Trim(s)[i]) {
      TrimChars(s, i);
    }
  }

  // ---------------------------------------------------------------------------
  // Upload progress
  // ---------------------------------------------------------------------------

  /** `Math.round`: halves round up. */
  function Round(x: real): int {
    (x + 0.5).Floor
  }

  /**
   * `Math.min(100, Math.round(part / whole * 100))`; `None` is `NaN`, which a
   * zero `whole` with a zero `part` gives, and a zero `whole` with a positive
   * `part` gives 100 (the minimum of 100 and infinity).
   */
  function Percent(part: nat, whole: nat): (r: Option<int>)
    ensures r.Some? ==> 0 <= r.value <= 100
    ensures whole > 0 && part >= whole ==> r == Some(100)
    ensures whole > 0 ==> r.Some?
  {
    if whole == 0 then (if part == 0 then None else Some(100))
    else
      var x := part as real / whole as real * 100.0;
      assert x >= 0.0;
      if part >= whole then assert x >= 100.0; Some(100)
      else Some(if Round(x) < 100 then Round(x) else 100)
  }

  /** The overlay after a progress event of the current request. */
  datatype Progress = Progress(
    currentFileName: string,
    currentFilePercent: Option<int>,
    overallPercent: Option<int>,
    filesTotal: nat,
    filesDone: nat)

  /**
   * The progress handler: bytes of earlier files plus the bytes of this
   * request give the overall share, this request's bytes the file's share;
   * both are capped at 100.
   */
  function OnProgress(name: string, cumulativeBytes: nat, loaded: nat, requestSize: nat,
                      totalBytes: nat, filesTotal: nat, filesDone: nat): (r: Progress)
    ensures r.currentFilePercent == Percent(loaded, requestSize)
    ensures r.overallPercent == Percent(cumulativeBytes + loaded, totalBytes)
    ensures r.overallPercent.Some? ==> 0 <= r.overallPercent.value <= 100
    ensures r.currentFilePercent.Some? ==> 0 <= r.currentFilePercent.value <= 100
  {
    Progress(name, Percent(loaded, requestSize), Percent(cumulativeBytes + loaded, totalBytes), filesTotal, filesDone)
  }

  // ---------------------------------------------------------------------------
  // The queue
  // ---------------------------------------------------------------------------

  datatype Status = Pending | Uploading | Done | Failed

  /** The fields of a `File` the form reads. */
  datatype FileInfo = FileInfo(name: string, mimeType: string, size: nat)

  datatype Entry = Entry(
    id: string,
    file: FileInfo,
    baseTitle: string,
    title: string,
    categoryId: string,
    status: Status,
    error: Option<string>)

  /** A `Partial<FileEntry>` of the fields the form patches. */
  datatype Patch = Patch(title: Option<string>, categoryId: Option<string>, status: Option<Status>, error: Option<string>)

  /** `{ ...e, ...patch }`. */
  function Patched(e: Entry, p: Patch): (r: Entry)
    ensures r.id == e.id && r.file == e.file && r.baseTitle == e.baseTitle
    ensures r.title == p.title.GetOr(e.title) && r.categoryId == p.categoryId.GetOr(e.categoryId)
    ensures r.status == p.status.GetOr(e.status) && r.error == (if p.error.Some? then p.error else e.error)
  {
    e.(title := p.title.GetOr(e.title), categoryId := p.categoryId.GetOr(e.categoryId),
       status := p.status.GetOr(e.status), error := if p.error.Some? then p.error else e.error)
  }

  function Ids(es: seq<Entry>): (r: seq<string>)
    ensures |r| == |es| && forall i :: 0 <= i < |es| ==> r[i] == es[i].id
  {
    seq(|es|, i requires 0 <= i < |es| => es[i].id)
  }

  function IsImage(f: FileInfo): bool { StartsWith(f.mimeType, "image/") }

  function IsPending(e: Entry): bool { e.status == Pending }

  /**
   * The entries `addFiles` appends for the image files, in order: pending,
   * with no category, titled from the capture date when the EXIF data has
   * one and from the file name otherwise, with the current prefix.
   */
  function NewEntries(images: seq<FileInfo>, ids: seq<string>, dateTitles: seq<Option<string>>, prefix: string): (r: seq<Entry>)
    requires |ids| == |images| && |dateTitles| == |images|
    ensures |r| == |images| && Ids(r) == ids
    ensures forall i :: 0 <= i < |r| ==>
      && r[i].file == images[i]
      && r[i].status == Pending && r[i].categoryId == [] && r[i].error.None?
      && r[i].baseTitle == dateTitles[i].GetOr(TitleFromFilename(images[i].name))
      && r[i].title == BuildTitle(prefix, r[i].baseTitle)
  {
    seq(|images|, i requires 0 <= i < |images| =>
      var base := dateTitles[i].GetOr(TitleFromFilename(images[i].name));
      Entry(ids[i], images[i], base, BuildTitle(prefix, base), "", Pending, None))
  }

  function WithoutId(id: string): Entry -> bool {
    (e: Entry) => e.id != id
  }

  /** `prev.map(e => e.id === id ? { ...e, ...patch } : e)`. */
  function PatchId(es: seq<Entry>, id: string, p: Patch): (r: seq<Entry>)
    ensures |r| == |es| && Ids(r) == Ids(es)
    ensures forall i :: 0 <= i < |es| ==> r[i] == if es[i].id == id then Patched(es[i], p) else es[i]
  {
    seq(|es|, i requires 0 <= i < |es| => if es[i].id == id then Patched(es[i], p) else es[i])
  }

  /** Every entry under one category. */
  function WithCategory(es: seq<Entry>, category: string): (r: seq<Entry>)
    ensures |r| == |es| && Ids(r) == Ids(es)
    ensures forall i :: 0 <= i < |es| ==> r[i] == es[i].(categoryId := category)
  {
    seq(|es|, i requires 0 <= i < |es| => es[i].(categoryId := category))
  }

  /** Pending entries retitled from their base title; the others as they were. */
  function WithPrefix(es: seq<Entry>, prefix: string): (r: seq<Entry>)
    ensures |r| == |es| && Ids(r) == Ids(es)
    ensures forall i :: 0 <= i < |es| ==>
      r[i] == if IsPending(es[i]) then es[i].(title := BuildTitle(prefix, es[i].baseTitle)) else es[i]
  {
    seq(|es|, i requires 0 <= i < |es| =>
      if IsPending(es[i]) then es[i].(title := BuildTitle(prefix, es[i].baseTitle)) else es[i])
  }

  /** Applying a prefix twice is applying it once: titles come from the base title, not the shown one. */
  lemma WithPrefixIdempotent(es: seq<Entry>, prefix: string)
    ensures WithPrefix(WithPrefix(es, prefix), prefix) == WithPrefix(es, prefix)
  {
  }

  /** How an upload ended: the server's answer, or an exception with an optional message. */
  datatype UploadOutcome = Accepted | Rejected(error: Option<string>) | Threw(message: Option<string>)

  const UploadError := "Błąd uploadu"
  const UnknownError := "Nieznany błąd"

  const MarkUploading := Patch(None, None, Some(Uploading), None)

  /** The patch applied once the upload of an entry has ended. */
  function Finish(o: UploadOutcome): Patch {
    match o
    case Accepted => Patch(None, None, Some(Done), None)
    case Rejected(e) => Patch(None, None, Some(Failed), Some(e.GetOr(UploadError)))
    case Threw(m) => Patch(None, None, Some(Failed), Some(m.GetOr(UnknownError)))
  }

  /** A pending entry after its upload: done, or failed with a message. */
  function Settle(e: Entry, o: UploadOutcome): (r: Entry)
    ensures r.id == e.id && r.file == e.file && r.title == e.title && r.categoryId == e.categoryId
    ensures r.status == Done <==> o.Accepted?
    ensures r.status == Failed <==> !o.Accepted?
    ensures r.status == Failed ==> r.error.Some?
  {
    Patched(Patched(e, MarkUploading), Finish(o))
  }

  /** The place of the entry at `j` among the pending entries before it. */
  function PendingIndex(es: seq<Entry>, j: nat): nat
    requires j <= |es|
  {
    |Filter(es[..j], IsPending)|
  }

  lemma PendingAt(es: seq<Entry>, j: nat)
    requires j < |es| && IsPending(es[j])
    ensures PendingIndex(es, j) < |Filter(es, IsPending)|
    ensures Filter(es, IsPending)[PendingIndex(es, j)] == es[j]
  {
    assert es == es[..j] + [es[j]] + es[j + 1..];
    FilterConcat(es[..j] + [es[j]], es[j + 1..], IsPending);
    FilterConcat(es[..j], [es[j]], IsPending);
  }

  /** Pending entries further down the list come later in the pending list. */
  lemma PendingIndexIncreases(es: seq<Entry>, j: nat, k: nat)
    requires j < k <= |es| && IsPending(es[j])
    ensures PendingIndex(es, j) < PendingIndex(es, k)
  {
    assert es[..k] == es[..j] + [es[j]] + es[j + 1..k];
    FilterConcat(es[..j] + [es[j]], es[j + 1..k], IsPending);
    FilterConcat(es[..j], [es[j]], IsPending);
  }

  /**
   * The state after the first `n` pending entries have been uploaded: each of
   * them settled by its outcome, every other entry as it was.
   */
  function Progressed(es: seq<Entry>, outcomes: seq<UploadOutcome>, n: nat): (r: seq<Entry>)
    requires |outcomes| == |Filter(es, IsPending)|
    ensures |r| == |es| && Ids(r) == Ids(es)
  {
    seq(|es|, j requires 0 <= j < |es| =>
      if IsPending(es[j]) && PendingIndex(es, j) < n then
        PendingAt(es, j);
        Settle(es[j], outcomes[PendingIndex(es, j)])
      else es[j])
  }

  /** The outcome of `uploadAll`: every pending entry settled, in list order. */
  function Settled(es: seq<Entry>, outcomes: seq<UploadOutcome>): seq<Entry>
    requires |outcomes| == |Filter(es, IsPending)|
  {
    Progressed(es, outcomes, |outcomes|)
  }

  /**
   * After the upload every entry that was pending is done or failed, as its
   * own outcome says, and every other entry is untouched.
   */
  lemma SettledCorrect(es: seq<Entry>, outcomes: seq<UploadOutcome>, j: nat)
    requires |outcomes| == |Filter(es, IsPending)| && j < |es|
    ensures IsPending(es[j]) ==>
      PendingIndex(es, j) < |outcomes| && Settled(es, outcomes)[j] == Settle(es[j], outcomes[PendingIndex(es, j)])
    ensures IsPending(es[j]) ==> Settled(es, outcomes)[j].status in {Done, Failed}
    ensures !IsPending(es[j]) ==> Settled(es, outcomes)[j] == es[j]
  {
    if IsPending(es[j]) {
      PendingAt(es, j);
    }
  }

  /** Uploading the next pending entry, found by its id, moves the state one step. */
  lemma StepSettles(es: seq<Entry>, outcomes: seq<UploadOutcome>, i: nat)
    requires |outcomes| == |Filter(es, IsPending)| && i < |outcomes|
    requires Distinct(Ids(es))
    ensures var id := Filter(es, IsPending)[i].id;
      PatchId(PatchId(Progressed(es, outcomes, i), id, MarkUploading), id, Finish(outcomes[i]))
        == Progressed(es, outcomes, i + 1)
  {
    var j :| 0 <= j < |es| && IsPending(es[j]) && PendingIndex(es, j) == i by {
      PendingSource(es, i);
    }
    PendingAt(es, j);
    StepSettlesFrom(es, outcomes, i, j);
  }

  /** The same, once the entry `j` being uploaded is known. */
  lemma StepSettlesFrom(es: seq<Entry>, outcomes: seq<UploadOutcome>, i: nat, j: nat)
    requires |outcomes| == |Filter(es, IsPending)| && i < |outcomes|
    requires Distinct(Ids(es))
    requires j < |es| && IsPending(es[j]) && PendingIndex(es, j) == i && Filter(es, IsPending)[i] == es[j]
    ensures PatchId(PatchId(Progressed(es, outcomes, i), es[j].id, MarkUploading), es[j].id, Finish(outcomes[i]))
      == Progressed(es, outcomes, i + 1)
  {
    var after := PatchId(PatchId(Progressed(es, outcomes, i), es[j].id, MarkUploading), es[j].id, Finish(outcomes[i]));
    var next := Progressed(es, outcomes, i + 1);
    forall k | 0 <= k < |es| ensures after[k] == next[k] {
      StepSettlesAt(es, outcomes, i, j, k);
    }
  }

  /** The same, entry by entry: `j` is the entry being uploaded, `k` any entry. */
  lemma StepSettlesAt(es: seq<Entry>, outcomes: seq<UploadOutcome>, i: nat, j: nat, k: nat)
    requires |outcomes| == |Filter(es, IsPending)| && i < |outcomes|
    requires Distinct(Ids(es))
    requires j < |es| && IsPending(es[j]) && PendingIndex(es, j) == i && Filter(es, IsPending)[i] == es[j]
    requires k < |es|
    ensures PatchId(PatchId(Progressed(es, outcomes, i), es[j].id, MarkUploading), es[j].id, Finish(outcomes[i]))[k]
      == Progressed(es, outcomes, i + 1)[k]
  {
    var cur := Progressed(es, outcomes, i);
    assert cur[k].id == es[k].id;
    if k != j {
      assert Ids(es)[k] != Ids(es)[j];
      if IsPending(es[k]) {
        if k < j {
          PendingIndexIncreases(es, k, j);
        } else {
          PendingIndexIncreases(es, j, k);
        }
      }
    }
  }

  /** Every place in the pending list comes from some pending entry. */
  lemma {:induction false} PendingSource(es: seq<Entry>, i: nat)
    requires i < |Filter(es, IsPending)|
    ensures exists j :: 0 <= j < |es| && IsPending(es[j]) && PendingIndex(es, j) == i
    decreases |es|
  {
    var n := |es| - 1;
    var init := es[..n];
    assert es == init + [es[n]];
    FilterConcat(init, [es[n]], IsPending);
    if i < |Filter(init, IsPending)| {
      PendingSource(init, i);
      var j :| 0 <= j < |init| && IsPending(init[j]) && PendingIndex(init, j) == i;
      assert es[..j] == init[..j];
    } else {
      assert es[..n] == init;
      assert IsPending(es[n]) && PendingIndex(es, n) == i;
    }
  }

  /** The total size of the files of some entries, `reduce((s, e) => s + e.file.size, 0)`. */
  function TotalSize(es: seq<Entry>): nat {
    if es == [] then 0 else TotalSize(es[..|es| - 1]) + es[|es| - 1].file.size
  }

  /** The form's list of entries and its two inputs. */
  class BulkForm {
    var entries: seq<Entry>
    var globalCategory: string
    var titlePrefix: string

    /** Entry ids are unique; the upload finds an entry by its id. */
    predicate Valid()
      reads this
    {
      Distinct(Ids(entries))
    }

    constructor ()
      ensures entries == [] && globalCategory == [] && titlePrefix == []
      ensures Valid()
    {
      entries, globalCategory, titlePrefix := [], [], [];
    }

    /**
     * `addFiles`: only image files are queued, appended in order. `ids` are
     * the generated ids and `dateTitles` the capture-date titles read from
     * EXIF, one per image file.
     */
    method AddFiles(files: seq<FileInfo>, ids: seq<string>, dateTitles: seq<Option<string>>)
      requires Valid()
      requires |ids| == |Filter(files, IsImage)| && |dateTitles| == |ids|
      requires Distinct(Ids(entries) + ids)
      modifies this
      ensures entries == old(entries) + NewEntries(Filter(files, IsImage), ids, dateTitles, titlePrefix)
      ensures globalCategory == old(globalCategory) && titlePrefix == old(titlePrefix)
      ensures Valid()
    {
      var images := Filter(files, IsImage);
      if |images| == 0 {
        return;
      }
      var added := NewEntries(images, ids, dateTitles, titlePrefix);
      assert Ids(entries + added) == Ids(entries) + ids;
      entries := entries + added;
    }

    /** `removeEntry(id)`. */
    method RemoveEntry(id: string)
      requires Valid()
      modifies this
      ensures entries == Filter(old(entries), WithoutId(id))
      ensures globalCategory == old(globalCategory) && titlePrefix == old(titlePrefix)
      ensures Valid()
    {
      FilterDistinctIds(entries, WithoutId(id));
      entries := Filter(entries, WithoutId(id));
    }

    /** `updateEntry(id, patch)`. */
    method UpdateEntry(id: string, patch: Patch)
      requires Valid()
      modifies this
      ensures entries == PatchId(old(entries), id, patch)
      ensures globalCategory == old(globalCategory) && titlePrefix == old(titlePrefix)
      ensures Valid()
    {
      entries := PatchId(entries, id, patch);
    }

    /** `applyGlobalCategory`: nothing without a chosen category, else every entry takes it. */
    method ApplyGlobalCategory()
      requires Valid()
      modifies this
      ensures globalCategory == [] ==> entries == old(entries)
      ensures globalCategory != [] ==> entries == WithCategory(old(entries), globalCategory)
      ensures globalCategory == old(globalCategory) && titlePrefix == old(titlePrefix)
      ensures Valid()
    {
      if globalCategory == [] {
        return;
      }
      entries := WithCategory(entries, globalCategory);
    }

    /** `applyTitlePrefix`: pending entries are retitled from their base title. */
    method ApplyTitlePrefix()
      requires Valid()
      modifies this
      ensures entries == WithPrefix(old(entries), titlePrefix)
      ensures globalCategory == old(globalCategory) && titlePrefix == old(titlePrefix)
      ensures Valid()
    {
      entries := WithPrefix(entries, titlePrefix);
    }

    /**
     * `uploadAll`: the pending entries, as they stand when it starts, are
     * uploaded one after another in list order; `outcomes` are the uploads'
     * results, one per pending entry. Returns the final `cumulativeBytes`.
     */
    method UploadAll(outcomes: seq<UploadOutcome>) returns (cumulativeBytes: nat)
      requires Valid()
      requires |outcomes| == |Filter(entries, IsPending)|
      modifies this
      ensures entries == Settled(old(entries), outcomes)
      ensures cumulativeBytes == TotalSize(Filter(old(entries), IsPending))
      ensures globalCategory == old(globalCategory) && titlePrefix == old(titlePrefix)
      ensures Valid()
    {
      var start := entries;
      var pending := Filter(entries, IsPending);
      cumulativeBytes := 0;
      if |pending| == 0 {
        assert Progressed(start, outcomes, 0) == start;
        return;
      }
      assert Progressed(start, outcomes, 0) == start;
      for i := 0 to |pending|
        invariant entries == Progressed(start, outcomes, i)
        invariant cumulativeBytes == TotalSize(pending[..i])
        invariant globalCategory == old(globalCategory) && titlePrefix == old(titlePrefix)
        invariant Valid()
      {
        var entry := pending[i];
        StepSettles(start, outcomes, i);
        UpdateEntry(entry.id, MarkUploading);
        assert pending[..i + 1][..i] == pending[..i];
        // The `try` and the `catch` end alike: both add the file's size and
        // settle the entry; only the patch `Finish` builds tells them apart.
        cumulativeBytes := cumulativeBytes + entry.file.size;
        UpdateEntry(entry.id, Finish(outcomes[i]));
      }
      assert pending[..|pending|] == pending;
    }
  }

  /** Filtering keeps ids unique. */
  lemma {:induction false} FilterDistinctIds(es: seq<Entry>, p: Entry -> bool)
    requires Distinct(Ids(es))
    ensures Distinct(Ids(Filter(es, p)))
  {
    if es != [] {
      DistinctIdsTail(es);
      FilterDistinctIds(es[1..], p);
      if p(es[0]) {
        IdAbsentAfterFilter(es[1..], p, es[0].id);
        DistinctIdsCons(es[0], Filter(es[1..], p));
        assert Filter(es, p) == [es[0]] + Filter(es[1..], p);
      }
    }
  }

  lemma DistinctIdsTail(es: seq<Entry>)
    requires es != [] && Distinct(Ids(es))
    ensures Distinct(Ids(es[1..]))
    ensures forall k :: 0 <= k < |es| - 1 ==> es[1..][k].id != es[0].id
  {
    forall a, b | 0 <= a < b < |es| - 1 ensures Ids(es[1..])[a] != Ids(es[1..])[b] {
      assert Ids(es)[a + 1] != Ids(es)[b + 1];
    }
    forall k | 0 <= k < |es| - 1 ensures es[1..][k].id != es[0].id {
      assert Ids(es)[0] != Ids(es)[k + 1];
    }
  }

  lemma IdAbsentAfterFilter(es: seq<Entry>, p: Entry -> bool, id: string)
    requires forall k :: 0 <= k < |es| ==> es[k].id != id
    ensures forall k :: 0 <= k < |Filter(es, p)| ==> Filter(es, p)[k].id != id
  {
    FilterMembers(es, p);
    forall k | 0 <= k < |Filter(es, p)| ensures Filter(es, p)[k].id != id {
      var x := Filter(es, p)[k];
      assert x in es;
    }
  }

  lemma DistinctIdsCons(e: Entry, rest: seq<Entry>)
    requires Distinct(Ids(rest))
    requires forall k :: 0 <= k < |rest| ==> rest[k].id != e.id
    ensures Distinct(Ids([e] + rest))
  {
    var s := [e] + rest;
    forall a, b | 0 <= a < b < |s| ensures Ids(s)[a] != Ids(s)[b] {
      assert s[b] == rest[b - 1];
      if a > 0 {
        assert s[a] == rest[a - 1];
        assert Ids(rest)[a - 1] != Ids(rest)[b - 1];
      }
    }
  }
}
