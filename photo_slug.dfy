/**
 * The photo slug (`generateSlug` in src/lib/utils/photo.ts): a chain of
 * string transforms that turns a title into a URL path segment, with a
 * timestamp fallback when there is no title.
 */
module PhotoSlug {
  import opened Wrappers
  import opened Text
  import opened Seqs

  /** The slug's length bound, `slice(0, 80)`. */
  const MaxLength: nat := 80

  /** Characters that `.replace(/[^a-z0-9\s-]/g, "")` keeps. */
  predicate IsKept(c: char) { IsSlugChar(c) || IsSpace(c) }

  /** The shape every photo slug has: the slug alphabet and no "--". */
  predicate IsSlugShaped(s: string) {
    AllSlugChars(s) && NoAdjacent(s, IsHyphen)
  }

  /** The transform chain applied to a non-empty title. */
  function Slugify(text: string): (r: string)
    ensures IsSlugShaped(r) && |r| <= MaxLength
  {
    var kept := Filter(Fold(text), IsKept);
    var trimmed := Trim(kept);
    var spaced := CollapseRuns(trimmed, IsSpace, '-');
    var hyphened := CollapseRuns(spaced, IsHyphen, '-');
    KeptTrimmed(kept);
    CollapseRunsPreserves(trimmed, IsSpace, '-', IsKept);
    assert AllSlugChars(spaced);
    CollapseRunsPreserves(spaced, IsHyphen, '-', IsSlugChar);
    Take(hyphened, MaxLength)
  }

  lemma KeptTrimmed(kept: string)
    requires forall i :: 0 <= i < |kept| ==> IsKept(kept[i])
    ensures forall i :: 0 <= i < |Trim(kept)| ==> IsKept(Trim(kept)[i])
  {
    var k := |kept| - |TrimStart(kept)|;
    forall i | 0 <= i < |Trim(kept)| ensures IsKept(Trim(kept)[i]) {
      assert Trim(kept)[i] == kept[k + i];
    }
  }

  /** The timestamp fallback, `photo-${Date.now()}`; the clock reading is a parameter. */
  function Fallback(now: nat): (r: string)
    ensures IsSlugShaped(r)
  {
    var r := "photo-" + NatToString(now);
    assert forall i :: 6 <= i < |r| ==> IsDigit(r[i]) by {
      forall i | 6 <= i < |r| ensures IsDigit(r[i]) { assert r[i] == NatToString(now)[i - 6]; }
    }
    r
  }

  /**
   * `generateSlug(text)`: a truthy title (present and non-empty) goes through
   * the transform chain, anything else gives the timestamp fallback.
   */
  function GenerateSlug(text: Option<string>, now: nat): (r: string)
    ensures IsSlugShaped(r)
    ensures text.Some? && text.value != [] ==> |r| <= MaxLength
    ensures text.None? || text.value == [] ==> r == "photo-" + NatToString(now)
  {
    if text.Some? && text.value != [] then Slugify(text.value) else Fallback(now)
  }

  /** The fallback reads back as the clock value it was built from. */
  lemma FallbackRoundTrip(text: Option<string>, now: nat)
    requires text.None? || text.value == []
    ensures StartsWith(GenerateSlug(text, now), "photo-")
    ensures ParseInt(GenerateSlug(text, now)[6..]) == Some(now)
  {
    var r := GenerateSlug(text, now);
    assert r[6..] == NatToString(now) + [];
    ParseIntOfNat(now, []);
  }

  /** A string that already has the shape of a slug goes through the chain unchanged. */
  lemma SlugifyFixpoint(s: string)
    requires IsSlugShaped(s) && |s| <= MaxLength
    ensures Slugify(s) == s
  {
    FoldSlugChars(s);
    assert forall i :: 0 <= i < |s| ==> IsKept(s[i]) && !IsSpace(s[i]);
    FilterAll(s, IsKept);
    assert Filter(Fold(s), IsKept) == s;
    TrimStartNoSpace(s);
    TrimEndNoSpace(s);
    assert Trim(s) == s;
    CollapseRunsNone(s, IsSpace, '-');
    CollapseRunsSingle(s, IsHyphen, '-');
  }

  /**
   * Whenever the slug is non-empty, generating a slug from it gives it back
   * (for the fallback, as long as the clock value has at most 74 digits and so
   * survives the 80-character cut).
   */
  lemma GenerateSlugIdempotent(text: Option<string>, now: nat, later: nat)
    requires GenerateSlug(text, now) != []
    requires (text.Some? && text.value != []) || |NatToString(now)| <= MaxLength - 6
    ensures GenerateSlug(Some(GenerateSlug(text, now)), later) == GenerateSlug(text, now)
  {
    SlugifyFixpoint(GenerateSlug(text, now));
  }

  /**
   * A title whose folded characters are all dropped or white space gives the
   * empty slug, not the fallback: the fallback depends on the input only.
   */
  lemma NothingKeptGivesEmpty(text: string, now: nat)
    requires text != []
    requires forall i :: 0 <= i < |Filter(Fold(text), IsKept)| ==> IsSpace(Filter(Fold(text), IsKept)[i])
    ensures GenerateSlug(Some(text), now) == []
  {
    TrimEndAllSpace(TrimStart(Filter(Fold(text), IsKept)));
  }

  /** White space around a title never reaches the slug. */
  lemma SurroundingSpace(pre: string, text: string, post: string, now: nat)
    requires text != []
    requires forall i :: 0 <= i < |pre| ==> IsSpace(pre[i])
    requires forall i :: 0 <= i < |post| ==> IsSpace(post[i])
    ensures GenerateSlug(Some(pre + text + post), now) == GenerateSlug(Some(text), now)
  {
    FoldConcat(pre + text, post);
    FoldConcat(pre, text);
    FoldSpaces(pre);
    FoldSpaces(post);
    var f := Fold(text);
    FilterConcat(pre + f, post, IsKept);
    FilterConcat(pre, f, IsKept);
    FilterAll(pre, IsKept);
    FilterAll(post, IsKept);
    TrimSurrounded(pre, Filter(f, IsKept), post);
  }

  /** A hyphen at the start of the title is not trimmed: it survives as the slug's first character. */
  lemma LeadingHyphenKept(rest: string, now: nat)
    ensures var r := GenerateSlug(Some("-" + rest), now); r != [] && r[0] == '-'
  {
    FoldConcat("-", rest);
    FoldSlugChars("-");
    SlugifyHead("-" + rest);
  }

  lemma SlugifyHead(text: string)
    requires Fold(text) != [] && Fold(text)[0] == '-'
    ensures Slugify(text) != [] && Slugify(text)[0] == '-'
  {
    HyphenHeadKept(Fold(text));
    var trimmed := Trim(Filter(Fold(text), IsKept));
    var spaced := CollapseRuns(trimmed, IsSpace, '-');
    assert spaced != [] && spaced[0] == '-';
    var hyphened := CollapseRuns(spaced, IsHyphen, '-');
    assert hyphened != [] && hyphened[0] == '-';
    assert Slugify(text) == Take(hyphened, MaxLength);
  }

  lemma HyphenHeadKept(f: string)
    requires f != [] && f[0] == '-'
    ensures var t := Trim(Filter(f, IsKept)); t != [] && t[0] == '-'
  {
    assert f == [f[0]] + f[1..];
    FilterConcat([f[0]], f[1..], IsKept);
    var kept := Filter(f, IsKept);
    assert kept != [] && kept[0] == '-';
    TrimStartNoSpace(kept);
    TrimEndKeepsHead(kept);
  }

  lemma {:induction false} TrimEndKeepsHead(s: string)
    requires s != [] && !IsSpace(s[0])
    ensures TrimEnd(s) != [] && TrimEnd(s)[0] == s[0]
  {
    if IsSpace(s[|s| - 1]) {
      TrimEndKeepsHead(s[..|s| - 1]);
    }
  }

  /** Two pieces of a title that fold alike can replace each other without changing the slug. */
  lemma SameFoldSameSlug(a: string, x: string, y: string, b: string, now: nat)
    requires Fold(x) == Fold(y)
    requires a + x + b != [] && a + y + b != []
    ensures GenerateSlug(Some(a + x + b), now) == GenerateSlug(Some(a + y + b), now)
  {
    FoldConcat(a + x, b);
    FoldConcat(a, x);
    FoldConcat(a + y, b);
    FoldConcat(a, y);
  }

  /**
   * A character whose folding leaves nothing the filter keeps vanishes from
   * the slug: it neither separates words nor becomes a hyphen.
   */
  lemma DroppedCharInvisible(a: string, c: char, b: string, now: nat)
    requires forall i :: 0 <= i < |Fold([c])| ==> !IsKept(Fold([c])[i])
    requires a + b != []
    ensures GenerateSlug(Some(a + [c] + b), now) == GenerateSlug(Some(a + b), now)
  {
    DroppedCharFiltered(a, c, b);
  }

  lemma DroppedCharFiltered(a: string, c: char, b: string)
    requires forall i :: 0 <= i < |Fold([c])| ==> !IsKept(Fold([c])[i])
    ensures Filter(Fold(a + [c] + b), IsKept) == Filter(Fold(a + b), IsKept)
  {
    var fa, fc, fb := Fold(a), Fold([c]), Fold(b);
    assert Fold(a + [c] + b) == fa + fc + fb by {
      FoldConcat(a + [c], b);
      FoldConcat(a, [c]);
    }
    assert Fold(a + b) == fa + fb by {
      FoldConcat(a, b);
    }
    FilterNone(fc, IsKept);
    calc {
      Filter(fa + fc + fb, IsKept);
      { FilterConcat(fa + fc, fb, IsKept); }
      Filter(fa + fc, IsKept) + Filter(fb, IsKept);
      { FilterConcat(fa, fc, IsKept); assert Filter(fa, IsKept) + [] == Filter(fa, IsKept); }
      Filter(fa, IsKept) + Filter(fb, IsKept);
      { FilterConcat(fa, fb, IsKept); }
      Filter(fa + fb, IsKept);
    }
  }

  lemma FoldOne(c: char)
    ensures Fold([c]) == StripMarks(Decompose(LowerChar(c)))
  {
    var l := LowerChar(c);
    assert Lower([c]) == [l];
    assert [l][1..] == [];
    assert Nfd([l]) == Decompose(l) + Nfd([]);
    assert Decompose(l) + [] == Decompose(l);
  }

  /** A letter with a canonical decomposition folds to its base letter. */
  lemma FoldAccented(c: char)
    requires |Decompose(LowerChar(c))| == 2
    ensures Fold([c]) == [Decompose(LowerChar(c))[0]]
  {
    FoldOne(c);
    var d := Decompose(LowerChar(c));
    assert d == [d[0], d[1]];
    assert [d[0], d[1]][1..] == [d[1]];
    assert [d[1]][1..] == [];
    assert StripMarks([d[1]]) == [];
  }

  /** 'ó' and 'Ó' fold to 'o'. */
  lemma AccentedOFolds()
    ensures Fold("ó") == Fold("o") && Fold("Ó") == Fold("o")
  {
    FoldAccented('ó');
    FoldAccented('Ó');
    FoldSlugChars("o");
  }

  /** 'ń' and 'Ń' fold to 'n'. */
  lemma AccentedNFolds()
    ensures Fold("ń") == Fold("n") && Fold("Ń") == Fold("n")
  {
    FoldAccented('ń');
    FoldAccented('Ń');
    FoldSlugChars("n");
  }

  /** 'ł' and 'Ł' have no decomposition: they fold to 'ł', which the filter deletes. */
  lemma StrokedLDropped()
    ensures forall i :: 0 <= i < |Fold("ł")| ==> !IsKept(Fold("ł")[i])
    ensures Fold("Ł") == Fold("ł")
  {
    FoldOne('ł');
    FoldOne('Ł');
    assert StripMarks("ł") == "ł" + StripMarks([]);
  }
}
