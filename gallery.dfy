/**
 * The public gallery (src/app/gallery/page.tsx): which sort applies, the
 * ordering asked of the database, the re-sort by average rating, the photos
 * listed and the category filter links.
 */
module Gallery {
  import opened Wrappers
  import opened Seqs
  import opened Catalogue
  import opened SortSelect

  /** The sort in force: a known option from the query, else the default. */
  function SortFromParam(param: Option<string>): (r: string)
    ensures r in SortOptions
    ensures param.Some? && param.value in SortOptions ==> r == param.value
    ensures !(param.Some? && param.value in SortOptions) ==> r == DefaultSort
  {
    if param.Some? && param.value != [] && param.value in SortOptions then param.value else DefaultSort
  }

  datatype Field = TakenAt | CreatedAt
  datatype Direction = Asc | Desc

  /**
   * `getOrderBy`: the keys the database sorts by. Every ordering ends with
   * the upload time, uses one direction throughout, ascends only for
   * "dateAsc" and leaves out the capture date only for "uploadDesc".
   */
  function OrderBy(sort: string): (r: seq<(Field, Direction)>)
    ensures |r| == (if sort == "uploadDesc" then 1 else 2)
    ensures r[|r| - 1].0 == CreatedAt
    ensures forall i :: 0 <= i < |r| ==> r[i].1 == r[0].1
    ensures r[0].1 == Asc <==> sort == "dateAsc"
    ensures r[0].0 == TakenAt <==> sort != "uploadDesc"
  {
    if sort == "dateAsc" then [(TakenAt, Asc), (CreatedAt, Asc)]
    else if sort == "uploadDesc" then [(CreatedAt, Desc)]
    else [(TakenAt, Desc), (CreatedAt, Desc)]
  }

  /** The query's ordering: newest upload first when the page re-sorts by rating. */
  function QueryOrder(sort: string): (r: seq<(Field, Direction)>)
    ensures sort == "ratingDesc" ==> r == [(CreatedAt, Desc)]
    ensures sort != "ratingDesc" ==> r == OrderBy(sort)
  {
    if sort == "ratingDesc" then [(CreatedAt, Desc)] else OrderBy(sort)
  }

  /** A listed photo with its id. */
  type Listed = (string, Photo)

  /** The photo's category has the given slug. */
  predicate InCategory(p: Photo, categories: map<string, Category>, slug: string) {
    p.categoryId.Some? && p.categoryId.value in categories && categories[p.categoryId.value].slug == slug
  }

  function Wanted(categories: map<string, Category>, category: Option<string>): Listed -> bool {
    (row: Listed) => row.1.published && (category.None? || category.value == [] || InCategory(row.1, categories, category.value))
  }

  /** The `where` clause: published photos, of the chosen category when one is given. */
  function Shown(rows: seq<Listed>, categories: map<string, Category>, category: Option<string>): seq<Listed> {
    Filter(rows, Wanted(categories, category))
  }

  lemma ShownCorrect(rows: seq<Listed>, categories: map<string, Category>, category: Option<string>)
    ensures forall row :: row in Shown(rows, categories, category) <==>
      && row in rows
      && row.1.published
      && (category.None? || category.value == [] || InCategory(row.1, categories, category.value))
  {
    FilterMembers(rows, Wanted(categories, category));
  }

  /** `new Map(aggregates.map(r => [r.photoId, r._avg.value ?? 0]))`. */
  function AverageMap(aggregates: seq<(string, Option<real>)>): seq<(string, real)> {
    Assign(seq(|aggregates|, i requires 0 <= i < |aggregates| => (aggregates[i].0, aggregates[i].1.GetOr(0.0))))
  }

  /** A photo's average rating, 0 when it has none. */
  function RatingKey(aggregates: seq<(string, Option<real>)>): Listed -> real {
    (row: Listed) => Get(AverageMap(aggregates), row.0).GetOr(0.0)
  }

  /** The comparator sort: stable, highest average first. */
  function RatingSorted(rows: seq<Listed>, aggregates: seq<(string, Option<real>)>): seq<Listed> {
    SortDesc(rows, RatingKey(aggregates))
  }

  /** The order the page shows the photos the query returned in. */
  function Displayed(rows: seq<Listed>, sort: string, aggregates: seq<(string, Option<real>)>): seq<Listed> {
    if sort == "ratingDesc" then RatingSorted(rows, aggregates) else rows
  }

  /**
   * Under "ratingDesc" the photos are a permutation of the query's list, by
   * non-increasing average, and photos with equal averages keep the query's
   * (newest first) order; under any other sort the query's order stands.
   */
  lemma DisplayedCorrect(rows: seq<Listed>, sort: string, aggregates: seq<(string, Option<real>)>)
    ensures multiset(Displayed(rows, sort, aggregates)) == multiset(rows)
    ensures sort == "ratingDesc" ==> SortedDesc(Displayed(rows, sort, aggregates), RatingKey(aggregates))
    ensures sort == "ratingDesc" ==> forall v ::
      Filter(Displayed(rows, sort, aggregates), KeyIs(RatingKey(aggregates), v)) == Filter(rows, KeyIs(RatingKey(aggregates), v))
    ensures sort != "ratingDesc" ==> Displayed(rows, sort, aggregates) == rows
  {
    SortDescCorrect(rows, RatingKey(aggregates));
  }

  /** A photo without ratings sorts as an average of 0; a rated one by its last aggregate. */
  lemma RatingKeyCorrect(aggregates: seq<(string, Option<real>)>, row: Listed)
    ensures row.0 !in Keys(aggregates) ==> RatingKey(aggregates)(row) == 0.0
    ensures forall i ::
      (0 <= i < |aggregates| && aggregates[i].0 == row.0 && (forall j :: i < j < |aggregates| ==> aggregates[j].0 != row.0)) ==>
      RatingKey(aggregates)(row) == aggregates[i].1.GetOr(0.0)
  {
    var pairs := seq(|aggregates|, i requires 0 <= i < |aggregates| => (aggregates[i].0, aggregates[i].1.GetOr(0.0)));
    AssignCorrect(pairs, row.0);
    LastForSome(pairs, row.0);
    assert Keys(pairs) == Keys(aggregates);
    forall i | 0 <= i < |aggregates| && aggregates[i].0 == row.0 &&
      (forall j :: i < j < |aggregates| ==> aggregates[j].0 != row.0)
      ensures LastFor(pairs, row.0) == Some(aggregates[i].1.GetOr(0.0))
    {
      LastForIs(pairs, row.0, i);
    }
  }

  lemma {:induction false} LastForIs<V>(rows: seq<(string, V)>, k: string, i: nat)
    requires i < |rows| && rows[i].0 == k
    requires forall j :: i < j < |rows| ==> rows[j].0 != k
    ensures LastFor(rows, k) == Some(rows[i].1)
    decreases |rows|
  {
    if i < |rows| - 1 {
      LastForIs(rows[..|rows| - 1], k, i);
    }
  }

  const GalleryPath := "/gallery"
  const CategoryKey := "category"

  /** The "All" link, `/gallery?sort=<sort>` or `/gallery`: the sort only when it is not the default. */
  function AllHref(sort: string): string {
    if sort != DefaultSort then GalleryPath + "?" + SortKey + "=" + sort else GalleryPath
  }

  /** A category link, `/gallery?category=<slug>` then `&sort=<sort>` only when the sort is not the default. */
  function CategoryHref(slug: string, sort: string): string {
    GalleryPath + "?" + CategoryKey + "=" + slug + (if sort != DefaultSort then "&" + SortKey + "=" + sort else "")
  }

  /** The "All" link is the URL the sort buttons build from no parameters. */
  lemma AllHrefMatchesSortButtons(sort: string)
    ensures AllHref(sort) == Target(GalleryPath, Query(Updated([], sort)))
  {
    if sort != DefaultSort {
      assert SetParam([], SortKey, sort) == [(SortKey, sort)];
    }
  }

  /** A category link is the URL the sort buttons build from the category parameter alone. */
  lemma CategoryHrefMatchesSortButtons(slug: string, sort: string)
    ensures CategoryHref(slug, sort) == Target(GalleryPath, Query(Updated([(CategoryKey, slug)], sort)))
  {
    var cat: Params := [(CategoryKey, slug)];
    var pair := CategoryKey + "=" + slug;
    assert Query(cat) == pair;
    if sort == DefaultSort {
      assert Unnamed(SortKey)(cat[0]);
      assert Deleted(cat, SortKey) == cat;
    } else {
      assert Keys(cat) == [CategoryKey];
      assert SetParam(cat, SortKey, sort) == cat + [(SortKey, sort)];
      assert Query(cat + [(SortKey, sort)]) == pair + "&" + (SortKey + "=" + sort);
    }
  }
}
