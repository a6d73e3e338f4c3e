/**
 * Category management (src/app/actions/categories.ts): the category slug
 * rule and the add and delete actions on the category table.
 */
module Categories {
  import opened Wrappers
  import opened Text
  import opened Seqs
  import opened Catalogue

  /** `.replace(/ł/g, "l")`. */
  function ReplaceStroke(s: string): (r: string)
    ensures |r| == |s|
    ensures forall i :: 0 <= i < |s| ==> r[i] == if s[i] == 'ł' then 'l' else s[i]
  {
    seq(|s|, i requires 0 <= i < |s| => if s[i] == 'ł' then 'l' else s[i])
  }

  predicate NotSlugAlnum(c: char) { !IsSlugAlnum(c) }

  /** `.replace(/^-+|-+$/g, "")`. */
  function TrimHyphens(s: string): (r: string)
    ensures r == [] || (r[0] != '-' && r[|r| - 1] != '-')
  {
    DropLastWhile(DropWhile(s, IsHyphen), IsHyphen)
  }

  /** The shape of every category slug. */
  predicate IsCategorySlug(s: string) {
    && AllSlugChars(s)
    && (s == [] || (s[0] != '-' && s[|s| - 1] != '-'))
    && NoAdjacent(s, IsHyphen)
  }

  /**
   * `toSlug(name)`: fold, turn 'ł' into 'l', replace each run of characters
   * outside `[a-z0-9]` by one hyphen, and strip hyphens at both ends.
   */
  function ToSlug(name: string): (r: string)
    ensures IsCategorySlug(r)
  {
    var runs := CollapseRuns(ReplaceStroke(Fold(name)), NotSlugAlnum, '-');
    RunsAreSlugShaped(runs);
    TrimHyphensShape(runs);
    TrimHyphens(runs)
  }

  lemma RunsAreSlugShaped(runs: string)
    requires forall i :: 0 <= i < |runs| ==> runs[i] == '-' || !NotSlugAlnum(runs[i])
    requires NoAdjacent(runs, NotSlugAlnum)
    ensures AllSlugChars(runs) && NoAdjacent(runs, IsHyphen)
  {
    forall i | 0 <= i < |runs| - 1 ensures !(IsHyphen(runs[i]) && IsHyphen(runs[i + 1])) {
      assert !(NotSlugAlnum(runs[i]) && NotSlugAlnum(runs[i + 1]));
    }
  }

  lemma TrimHyphensShape(s: string)
    requires AllSlugChars(s) && NoAdjacent(s, IsHyphen)
    ensures IsCategorySlug(TrimHyphens(s))
  {
    var d := DropWhile(s, IsHyphen);
    var r := DropLastWhile(d, IsHyphen);
    var k := |s| - |d|;
    assert r == TrimHyphens(s);
    assert d == s[k..|s|];
    assert r == d[0..|r|];
    NoAdjacentSlice(s, IsHyphen, k, |s|);
    NoAdjacentSlice(d, IsHyphen, 0, |r|);
    forall i | 0 <= i < |r|
      ensures IsSlugChar(r[i])
    {
      assert r[i] == s[k + i];
    }
  }

  /** A string that already is a category slug is its own slug. */
  lemma ToSlugFixpoint(s: string)
    requires IsCategorySlug(s)
    ensures ToSlug(s) == s
  {
    FoldSlugChars(s);
    assert ReplaceStroke(s) == s;
    assert NoAdjacent(s, NotSlugAlnum) by {
      forall i | 0 <= i < |s| - 1 ensures !(NotSlugAlnum(s[i]) && NotSlugAlnum(s[i + 1])) {
        assert !(IsHyphen(s[i]) && IsHyphen(s[i + 1]));
      }
    }
    CollapseRunsSingle(s, NotSlugAlnum, '-');
    assert CollapseRuns(ReplaceStroke(Fold(s)), NotSlugAlnum, '-') == s;
    assert DropWhile(s, IsHyphen) == s;
    assert DropLastWhile(s, IsHyphen) == s;
  }

  /** Making a slug twice gives the same slug. */
  lemma ToSlugIdempotent(name: string)
    ensures ToSlug(ToSlug(name)) == ToSlug(name)
  {
    ToSlugFixpoint(ToSlug(name));
  }

  /** 'ł', and 'Ł' after lower-casing, count as 'l' in a category slug. */
  lemma StrokedLIsL(a: string, b: string)
    ensures ToSlug(a + "ł" + b) == ToSlug(a + "l" + b)
    ensures ToSlug(a + "Ł" + b) == ToSlug(a + "l" + b)
  {
    StrokeFold('ł');
    StrokeFold('Ł');
    FoldSlugChars("l");
    assert ReplaceStroke("ł") == "l";
    assert ReplaceStroke("l") == "l";
    ReplacedSplit(a, "ł", b);
    ReplacedSplit(a, "Ł", b);
    ReplacedSplit(a, "l", b);
  }

  lemma ReplacedSplit(a: string, x: string, b: string)
    ensures ReplaceStroke(Fold(a + x + b)) == ReplaceStroke(Fold(a)) + ReplaceStroke(Fold(x)) + ReplaceStroke(Fold(b))
  {
    FoldConcat(a + x, b);
    FoldConcat(a, x);
    ReplaceStrokeConcat(Fold(a) + Fold(x), Fold(b));
    ReplaceStrokeConcat(Fold(a), Fold(x));
  }

  lemma ReplaceStrokeConcat(u: string, v: string)
    ensures ReplaceStroke(u + v) == ReplaceStroke(u) + ReplaceStroke(v)
  {
  }

  lemma StrokeFold(c: char)
    requires c == 'ł' || c == 'Ł'
    ensures Fold([c]) == "ł"
  {
    assert Lower([c]) == "ł";
    assert Nfd("ł") == "ł" + Nfd([]);
    assert StripMarks("ł") == "ł" + StripMarks([]);
  }

  // ---------------------------------------------------------------------------
  // Actions
  // ---------------------------------------------------------------------------

  /** The submitted name after `?.trim()`; a missing field reads as empty. */
  function SubmittedName(raw: Option<string>): string {
    if raw.Some? then Trim(raw.value) else []
  }

  const NoSession := "Brak autoryzacji"
  const NameRequired := "Nazwa jest wymagana"
  const NoSlug := "Nie można wygenerować slug z tej nazwy"
  const AlreadyExists := "Kategoria z tą nazwą już istnieje"
  const DatabaseError := "Błąd bazy danych"

  /**
   * `addCategory`: the session, the name and the slug are checked in this
   * order; a clash with an existing id, name or slug is the unique-constraint
   * error, and `dbError` stands for any other failure of the insert.
   */
  method AddCategory(db: Catalogue, session: bool, rawName: Option<string>, id: string, dbError: bool)
    returns (out: Outcome)
    requires db.Valid()
    modifies db
    ensures db.Valid()
    ensures out != Done ==> unchanged(db)
    ensures !session ==> out == Error(NoSession)
    ensures session && SubmittedName(rawName) == [] ==> out == Error(NameRequired)
    ensures session && SubmittedName(rawName) != [] && ToSlug(SubmittedName(rawName)) == [] ==> out == Error(NoSlug)
    ensures session && SubmittedName(rawName) != [] && ToSlug(SubmittedName(rawName)) != [] ==>
      var c := Category(SubmittedName(rawName), ToSlug(SubmittedName(rawName)));
      && (CategoryClash(old(db.categories), id, c) ==> out == Error(AlreadyExists))
      && (!CategoryClash(old(db.categories), id, c) && dbError ==> out == Error(DatabaseError))
      && (!CategoryClash(old(db.categories), id, c) && !dbError ==>
            out == Done && db.categories == old(db.categories)[id := c]
            && db.photos == old(db.photos) && db.comments == old(db.comments) && db.ratings == old(db.ratings))
  {
    if !session {
      return Error(NoSession);
    }
    var name := SubmittedName(rawName);
    if name == [] {
      return Error(NameRequired);
    }
    var slug := ToSlug(name);
    if slug == [] {
      return Error(NoSlug);
    }
    var c := Category(name, slug);
    if CategoryClash(db.categories, id, c) {
      return Error(AlreadyExists);
    }
    if dbError {
      return Error(DatabaseError);
    }
    InsertCategoryConsistent(db.categories, db.photos, db.comments, db.ratings, id, c);
    db.categories := db.categories[id := c];
    out := Done;
  }

  /** The refusal message, with the Polish plural the source picks. */
  function InUseMessage(count: nat): string {
    "Nie można usunąć — kategoria ma " + NatToString(count) + " " + (if count == 1 then "zdjęcie" else "zdjęcia/zdjęć")
  }

  /**
   * `deleteCategory`: refused while any photo is in the category; deleting an
   * id that does not exist throws.
   */
  method DeleteCategory(db: Catalogue, session: bool, id: string) returns (out: Outcome)
    requires db.Valid()
    modifies db
    ensures db.Valid()
    ensures out != Done ==> unchanged(db)
    ensures !session ==> out == Error(NoSession)
    ensures session && PhotoCount(old(db.photos), id) > 0 ==> out == Error(InUseMessage(PhotoCount(old(db.photos), id)))
    ensures session && PhotoCount(old(db.photos), id) == 0 && id !in old(db.categories) ==> out == Threw(RecordNotFound)
    ensures session && PhotoCount(old(db.photos), id) == 0 && id in old(db.categories) ==>
      && out == Done && db.categories == old(db.categories) - {id}
      && db.photos == old(db.photos) && db.comments == old(db.comments) && db.ratings == old(db.ratings)
  {
    if !session {
      return Error(NoSession);
    }
    var count := PhotoCount(db.photos, id);
    if count > 0 {
      return Error(InUseMessage(count));
    }
    if id !in db.categories {
      return Threw(RecordNotFound);
    }
    RemoveCategoryConsistent(db.categories, db.photos, db.comments, db.ratings, id);
    db.categories := db.categories - {id};
    out := Done;
  }
}
