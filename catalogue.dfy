/**
 * The database the server actions work on: one table per entity, each a map
 * from the row's id to the row. The rating table is keyed by the pair
 * (photo id, rating session id), its composite unique key.
 *
 * `Valid` holds the constraints the database enforces: every foreign key
 * points at an existing row, rating values lie in 1..5, and category names,
 * category slugs and photo slugs are unique.
 */
module Catalogue {
  import opened Wrappers

  datatype Category = Category(name: string, slug: string)

  /** The EXIF row stored with a photo (its integer and text columns). */
  datatype Exif = Exif(
    cameraMake: Option<string>,
    cameraModel: Option<string>,
    lens: Option<string>,
    iso: Option<int>,
    takenAt: Option<int>)

  datatype Photo = Photo(
    title: Option<string>,
    description: Option<string>,
    slug: string,
    filename: string,
    url: string,
    thumbnailUrl: string,
    width: nat,
    height: nat,
    categoryId: Option<string>,
    published: bool,
    createdAt: int,
    exif: Exif)

  datatype Comment = Comment(photoId: string, authorName: string, content: string, approved: bool)

  /**
   * The exceptions a server action lets escape: no session, a missing row, a
   * foreign key that names no row, or a value the column's type rejects.
   */
  datatype Failure = Unauthorized | RecordNotFound | ForeignKeyViolation | InvalidValue

  /** What a server action returns: `{}`, `{ error }`, or a thrown exception. */
  datatype Outcome = Done | Error(message: string) | Threw(failure: Failure)

  /** The number of photos in a category, `prisma.photo.count({ where: { categoryId } })`. */
  function PhotoCount(photos: map<string, Photo>, categoryId: string): nat {
    |set k | k in photos && photos[k].categoryId == Some(categoryId)|
  }

  /** Adding `c` under `id` would break the primary key or a unique column. */
  predicate CategoryClash(categories: map<string, Category>, id: string, c: Category) {
    id in categories || exists k :: k in categories && (categories[k].name == c.name || categories[k].slug == c.slug)
  }

  /** Adding `p` under `id` would break the primary key or the unique slug. */
  predicate PhotoClash(photos: map<string, Photo>, id: string, p: Photo) {
    id in photos || exists k :: k in photos && photos[k].slug == p.slug
  }

  /** The database constraints over the four tables. */
  predicate Consistent(
    categories: map<string, Category>,
    photos: map<string, Photo>,
    comments: map<string, Comment>,
    ratings: map<(string, string), int>)
  {
    && (forall k :: k in photos && photos[k].categoryId.Some? ==> photos[k].categoryId.value in categories)
    && (forall k :: k in comments ==> comments[k].photoId in photos)
    && (forall key :: key in ratings ==> key.0 in photos && 1 <= ratings[key] <= 5)
    && (forall a, b :: a in categories && b in categories && a != b ==>
          categories[a].name != categories[b].name && categories[a].slug != categories[b].slug)
    && (forall a, b :: a in photos && b in photos && a != b ==> photos[a].slug != photos[b].slug)
  }

  /** A category that clashes with nothing can be inserted without breaking a constraint. */
  lemma InsertCategoryConsistent(
    categories: map<string, Category>, photos: map<string, Photo>,
    comments: map<string, Comment>, ratings: map<(string, string), int>,
    id: string, c: Category)
    requires Consistent(categories, photos, comments, ratings)
    requires !CategoryClash(categories, id, c)
    ensures Consistent(categories[id := c], photos, comments, ratings)
  {
    var cs := categories[id := c];
    forall a, b | a in cs && b in cs && a != b
      ensures cs[a].name != cs[b].name && cs[a].slug != cs[b].slug
    {
      if a == id {
        assert b in categories;
      } else if b == id {
        assert a in categories;
      }
    }
  }

  /** A photo with a fresh id, a free slug and an existing category, if any, can be inserted. */
  lemma InsertPhotoConsistent(
    categories: map<string, Category>, photos: map<string, Photo>,
    comments: map<string, Comment>, ratings: map<(string, string), int>,
    id: string, p: Photo)
    requires Consistent(categories, photos, comments, ratings)
    requires !PhotoClash(photos, id, p)
    requires p.categoryId.Some? ==> p.categoryId.value in categories
    ensures Consistent(categories, photos[id := p], comments, ratings)
  {
    var ps := photos[id := p];
    forall a, b | a in ps && b in ps && a != b ensures ps[a].slug != ps[b].slug {
      if a == id {
        assert b in photos;
      } else if b == id {
        assert a in photos;
      }
    }
  }

  /** A category no photo points at can be removed without breaking a constraint. */
  lemma RemoveCategoryConsistent(
    categories: map<string, Category>, photos: map<string, Photo>,
    comments: map<string, Comment>, ratings: map<(string, string), int>,
    id: string)
    requires Consistent(categories, photos, comments, ratings)
    requires PhotoCount(photos, id) == 0
    ensures Consistent(categories - {id}, photos, comments, ratings)
  {
    PhotoCountZero(photos, id);
  }

  /** The count is zero exactly when no photo is in the category. */
  lemma PhotoCountZero(photos: map<string, Photo>, categoryId: string)
    ensures PhotoCount(photos, categoryId) == 0 <==> forall k :: k in photos ==> photos[k].categoryId != Some(categoryId)
  {
    var inCategory := set k | k in photos && photos[k].categoryId == Some(categoryId);
    if PhotoCount(photos, categoryId) == 0 {
      assert inCategory == {};
      forall k | k in photos ensures photos[k].categoryId != Some(categoryId) {
        assert k !in inCategory;
      }
    } else {
      var k :| k in inCategory;
    }
  }

  /** The comments left once a photo is gone (the cascade of its foreign key). */
  function CommentsWithout(comments: map<string, Comment>, photoId: string): (r: map<string, Comment>)
    ensures forall k :: k in r <==> k in comments && comments[k].photoId != photoId
    ensures forall k :: k in r ==> r[k] == comments[k]
  {
    map k | k in comments && comments[k].photoId != photoId :: comments[k]
  }

  /** The ratings left once a photo is gone. */
  function RatingsWithout(ratings: map<(string, string), int>, photoId: string): (r: map<(string, string), int>)
    ensures forall key :: key in r <==> key in ratings && key.0 != photoId
    ensures forall key :: key in r ==> r[key] == ratings[key]
  {
    map key | key in ratings && key.0 != photoId :: ratings[key]
  }

  /** Removing a photo together with its comments and ratings keeps every constraint. */
  lemma RemovePhotoConsistent(
    categories: map<string, Category>, photos: map<string, Photo>,
    comments: map<string, Comment>, ratings: map<(string, string), int>,
    id: string)
    requires Consistent(categories, photos, comments, ratings)
    ensures Consistent(categories, photos - {id}, CommentsWithout(comments, id), RatingsWithout(ratings, id))
  {
  }

  class Catalogue {
    var categories: map<string, Category>
    var photos: map<string, Photo>
    var comments: map<string, Comment>
    var ratings: map<(string, string), int>

    predicate Valid()
      reads this
    {
      Consistent(categories, photos, comments, ratings)
    }

    /** The slugs in use, the set `uniqueSlug` probes. */
    function PhotoSlugs(): set<string>
      reads this
    {
      set k | k in photos :: photos[k].slug
    }

    constructor ()
      ensures categories == map[] && photos == map[] && comments == map[] && ratings == map[]
      ensures Valid()
    {
      categories, photos, comments, ratings := map[], map[], map[], map[];
    }

    /** Deleting a photo row; the database cascades the delete to its comments and ratings. */
    method RemovePhoto(id: string)
      requires Valid()
      modifies this
      ensures Valid()
      ensures photos == old(photos) - {id} && categories == old(categories)
      ensures comments == CommentsWithout(old(comments), id) && ratings == RatingsWithout(old(ratings), id)
    {
      RemovePhotoConsistent(categories, photos, comments, ratings, id);
      photos, comments, ratings := photos - {id}, CommentsWithout(comments, id), RatingsWithout(ratings, id);
    }
  }
}
