/**
 * The upload endpoint (src/app/api/upload/route.ts): stores an image,
 * chooses a free slug for it and creates the photo row.
 */
module UploadRoute {
  import opened Wrappers
  import opened Text
  import opened Catalogue
  import opened PhotoSlug
  import opened Upload

  /** The last numbered candidate `uniqueSlug` tries. */
  const LastSuffix: nat := 99

  /** `${base}-${i}` */
  function Candidate(base: string, i: nat): string {
    base + "-" + NatToString(i)
  }

  /** Every candidate from `base-2` up to, but not including, `base-i` is taken. */
  predicate TakenBelow(base: string, taken: set<string>, i: nat) {
    forall j :: 2 <= j < i ==> Candidate(base, j) in taken
  }

  /** `base` and all of `base-2` … `base-99` are taken. */
  predicate AllTaken(base: string, taken: set<string>) {
    base in taken && TakenBelow(base, taken, LastSuffix + 1)
  }

  /**
   * The slug `uniqueSlug(base)` picks: `base` if free, else the first free
   * `base-i` for i in 2..99, else `base-<now>`, which is not checked.
   */
  predicate SlugChosen(base: string, taken: set<string>, now: nat, slug: string) {
    if base !in taken then slug == base
    else
      || (exists i :: 2 <= i <= LastSuffix && slug == Candidate(base, i) && slug !in taken && TakenBelow(base, taken, i))
      || (TakenBelow(base, taken, LastSuffix + 1) && slug == base + "-" + NatToString(now))
  }

  /** The choice leaves no freedom: at most one slug fits it. */
  lemma SlugChosenUnique(base: string, taken: set<string>, now: nat, s1: string, s2: string)
    requires SlugChosen(base, taken, now, s1) && SlugChosen(base, taken, now, s2)
    ensures s1 == s2
  {
  }

  /**
   * `uniqueSlug(base)`, where `taken` is the set of slugs in the photo table
   * and `now` the clock reading for the last resort.
   */
  method UniqueSlug(base: string, taken: set<string>, now: nat) returns (slug: string)
    ensures SlugChosen(base, taken, now, slug)
    ensures !AllTaken(base, taken) ==> slug !in taken
  {
    if base !in taken {
      return base;
    }
    var i := 2;
    while i <= LastSuffix
      invariant 2 <= i <= LastSuffix + 1
      invariant TakenBelow(base, taken, i)
    {
      var candidate := Candidate(base, i);
      if candidate !in taken {
        return candidate;
      }
      i := i + 1;
    }
    slug := base + "-" + NatToString(now);
  }

  // ---------------------------------------------------------------------------
  // `POST`
  // ---------------------------------------------------------------------------

  datatype UploadedFile = UploadedFile(name: string, image: ImageInfo)

  /** The form fields the route reads; an absent field is `None`. */
  datatype Form = Form(
    file: Option<UploadedFile>,
    title: Option<string>,
    description: Option<string>,
    categoryId: Option<string>)

  /** The JSON response: the created photo, or an error with its status. */
  datatype Response = Created(photoId: string, photo: Photo) | Rejected(status: nat, error: string)

  /** The clock readings the route makes, in order. */
  datatype Clock = Clock(mainName: nat, thumbName: nat, titleFallback: nat, slugFallback: nat, createdAt: int)

  /** `value || null`: an empty string is stored as null. */
  function NullIfEmpty(value: Option<string>): (r: Option<string>)
    ensures r.Some? <==> value.Some? && value.value != []
    ensures r.Some? ==> r == value
  {
    if value.Some? && value.value != [] then value else None
  }

  function DuplicateMessage(field: string): string {
    "Zdjęcie z tym samym " + field + " już istnieje. Zmień tytuł i spróbuj ponownie."
  }

  /** The slug a title gives before de-duplication: `generateSlug(title ?? filename)`. */
  function BaseSlug(title: Option<string>, filename: string, now: nat): string {
    GenerateSlug(Some(title.GetOr(filename)), now)
  }

  /**
   * An empty title is not replaced by the file name (`??` only replaces null),
   * so it gives the timestamp slug.
   */
  lemma EmptyTitleGivesTimestampSlug(filename: string, now: nat)
    ensures BaseSlug(Some([]), filename, now) == "photo-" + NatToString(now)
  {
  }

  /** A missing title falls back to the stored file name. */
  lemma MissingTitleUsesFilename(filename: string, now: nat)
    requires filename != []
    ensures BaseSlug(None, filename, now) == Slugify(filename)
  {
    var title: Option<string> := None;
    assert title.GetOr(filename) == filename;
    assert BaseSlug(title, filename, now) == GenerateSlug(Some(filename), now);
  }

  /** No category, or an existing one. */
  predicate KnownCategory(categoryId: Option<string>, categories: map<string, Category>) {
    categoryId.None? || categoryId.value in categories
  }

  /** The category field is empty, or names an existing category. */
  predicate CategoryExists(form: Form, categories: map<string, Category>) {
    KnownCategory(NullIfEmpty(form.categoryId), categories)
  }

  /** The name the web copy of the form's file is stored under. */
  function StoredName(form: Form, clock: Clock): string
    requires form.file.Some?
  {
    GenerateFilename(form.file.value.name, "", clock.mainName)
  }

  /** The name the thumbnail of the form's file is stored under. */
  function ThumbnailName(form: Form, clock: Clock): string
    requires form.file.Some?
  {
    GenerateFilename(form.file.value.name, ThumbnailSuffix, clock.thumbName)
  }

  /** The slug the route de-duplicates, from the title or the stored file name. */
  function RouteBaseSlug(form: Form, clock: Clock): string
    requires form.file.Some?
  {
    BaseSlug(form.title, GenerateFilename(form.file.value.name, "", clock.mainName), clock.titleFallback)
  }

  /**
   * `POST /api/upload`. `id` is the fresh key the database gives the row,
   * `fault` where the image processing throws, if it does, and
   * `dbMessage` the message of a database error other than a unique-constraint
   * violation (a missing category).
   */
  method Post(db: Catalogue, dir: UploadDirectory, session: bool, form: Form, id: string, clock: Clock,
              fault: Fault, dbMessage: string, publishedDefault: bool)
    returns (resp: Response)
    requires db.Valid() && id !in db.photos
    modifies db, dir
    ensures db.Valid()
    ensures !session ==> resp == Rejected(401, "Unauthorized") && unchanged(db) && unchanged(dir)
    ensures session && form.file.None? ==> resp == Rejected(400, "No file provided") && unchanged(db) && unchanged(dir)
    ensures session && form.file.Some? && !fault.NoFault? ==> resp == Rejected(500, fault.message) && unchanged(db)
    ensures session && form.file.Some? ==>
      && dir.present
      && dir.files == old(dir.files) + Written(fault, StoredName(form, clock), ThumbnailName(form, clock))
      && dir.log == old(dir.log) + ReadSteps + Completed(fault, StoredName(form, clock), ThumbnailName(form, clock))
    ensures resp.Rejected? ==> unchanged(db)
    ensures resp.Rejected? && resp.status == 409 ==>
      && resp.error == DuplicateMessage("slug")
      && form.file.Some? && AllTaken(RouteBaseSlug(form, clock), old(db.PhotoSlugs()))
    ensures resp.Rejected? && resp.status == 500 && fault.NoFault? ==>
      resp.error == dbMessage && !CategoryExists(form, old(db.categories))
    ensures resp.Rejected? ==> resp.status in {400, 401, 409, 500}
    ensures (&& session && form.file.Some? && fault.NoFault?
             && CategoryExists(form, old(db.categories))
             && !AllTaken(RouteBaseSlug(form, clock), old(db.PhotoSlugs()))) ==>
      resp.Created?
    ensures resp.Created? ==> session && form.file.Some? && fault.NoFault? && resp.photoId == id
    ensures resp.Created? ==>
      && db.photos == old(db.photos)[id := resp.photo]
      && db.categories == old(db.categories) && db.comments == old(db.comments) && db.ratings == old(db.ratings)
    ensures resp.Created? ==>
      && resp.photo.title == NullIfEmpty(form.title)
      && resp.photo.description == NullIfEmpty(form.description)
      && resp.photo.categoryId == NullIfEmpty(form.categoryId)
      && resp.photo.published == publishedDefault
      && resp.photo.createdAt == clock.createdAt
    ensures resp.Created? ==>
      && resp.photo.filename == GenerateFilename(form.file.value.name, "", clock.mainName)
      && resp.photo.url == "/uploads/" + resp.photo.filename
      && resp.photo.slug !in old(db.PhotoSlugs())
      && SlugChosen(RouteBaseSlug(form, clock), old(db.PhotoSlugs()), clock.slugFallback, resp.photo.slug)
    ensures resp.Created? ==>
      && resp.photo.thumbnailUrl == "/uploads/" + ThumbnailName(form, clock)
      && resp.photo.width == form.file.value.image.width.GetOr(0)
      && resp.photo.height == form.file.value.image.height.GetOr(0)
      && resp.photo.exif == form.file.value.image.exif
  {
    if !session {
      return Rejected(401, "Unauthorized");
    }
    if form.file.None? {
      return Rejected(400, "No file provided");
    }
    var file := form.file.value;
    var taken := db.PhotoSlugs();
    var upload := dir.ProcessUpload(file.image, file.name, clock.mainName, clock.thumbName, fault);
    if upload.Failed? {
      return Rejected(500, upload.message);
    }
    var u := upload.value;
    var base := BaseSlug(form.title, u.filename, clock.titleFallback);
    assert base == RouteBaseSlug(form, clock);
    var slug := UniqueSlug(base, taken, clock.slugFallback);
    var photo := Photo(
      NullIfEmpty(form.title), NullIfEmpty(form.description), slug, u.filename, u.url, u.thumbnailUrl,
      u.width, u.height, NullIfEmpty(form.categoryId), publishedDefault, clock.createdAt, u.exif);
    resp := CreatePhoto(db, id, photo, dbMessage);
  }

  /**
   * `prisma.photo.create` and the route's `catch`: a slug already in use is
   * the unique-constraint error (409, naming the `slug` column); a category
   * that does not exist is another database error (500 with its message).
   */
  method CreatePhoto(db: Catalogue, id: string, photo: Photo, dbMessage: string) returns (resp: Response)
    requires db.Valid() && id !in db.photos
    modifies db
    ensures db.Valid()
    ensures photo.slug in old(db.PhotoSlugs()) ==> resp == Rejected(409, DuplicateMessage("slug")) && unchanged(db)
    ensures photo.slug !in old(db.PhotoSlugs()) && !KnownCategory(photo.categoryId, old(db.categories)) ==>
      resp == Rejected(500, dbMessage) && unchanged(db)
    ensures photo.slug !in old(db.PhotoSlugs()) && KnownCategory(photo.categoryId, old(db.categories)) ==>
      && resp == Created(id, photo)
      && db.photos == old(db.photos)[id := photo]
      && db.categories == old(db.categories) && db.comments == old(db.comments) && db.ratings == old(db.ratings)
  {
    if photo.slug in db.PhotoSlugs() {
      return Rejected(409, DuplicateMessage("slug"));
    }
    if !KnownCategory(photo.categoryId, db.categories) {
      return Rejected(500, dbMessage);
    }
    assert !PhotoClash(db.photos, id, photo) by {
      forall k | k in db.photos ensures db.photos[k].slug != photo.slug {
        assert db.photos[k].slug in db.PhotoSlugs();
      }
    }
    InsertPhotoConsistent(db.categories, db.photos, db.comments, db.ratings, id, photo);
    db.photos := db.photos[id := photo];
    resp := Created(id, photo);
  }
}
