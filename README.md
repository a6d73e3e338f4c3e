# MK Shots photo portfolio — a verified model of its rules

This project models the deterministic rules of a Next.js photography portfolio, *MK Shots*. It covers:

- **Identifiers.** The slug a photo gets from its title, the slug a category gets from its name, the stored file names of an upload, the public id of a media-host URL, and the probe that makes a photo slug unique.
- **Server actions.** The guarded server actions on the catalogue tables: categories, photos, comments and ratings.
- **Upload endpoint.** The validation order and status codes of the upload endpoint.
- **Statistics.** The per-camera statistics of the stats page and the way its chart component picks and labels them.
- **Gallery.** Its sort whitelist, database ordering, rating re-sort and filter links.
- **Sort buttons.** The query-string update of the gallery's sort buttons.
- **Admin guard.** The redirect rule that guards the admin area.
- **Bulk-upload form.** Its queue of entries: pending, uploading, done or failed.

Each source file becomes one module:

| module | file | models |
|---|---|---|
| `PhotoSlug` | `photo_slug.dfy` | `generateSlug` |
| `Categories` | `categories.dfy` | `toSlug`, `addCategory`, `deleteCategory` |
| `Upload` | `upload.dfy` | `generateFilename`, `processUpload`, `deleteUpload` |
| `UploadRoute` | `upload_route.dfy` | `uniqueSlug` and `POST /api/upload` |
| `Photos` | `photos.dfy` | `extractPublicId` and `deletePhoto` |
| `Comments` | `comments.dfy` | the comment actions |
| `Ratings` | `ratings.dfy` | `submitRating` |
| `Stats` | `stats.dfy` | `shortenLens`, `buildByCamera`, the years-active figure |
| `StatsCharts` | `stats_charts.dfy` | `cameraLabel`, the stats fallback chain, the category bars |
| `Gallery` | `gallery.dfy` | the gallery page |
| `SortSelect` | `sort_select.dfy` | the sort buttons |
| `Proxy` | `proxy.dfy` | the admin redirect |
| `BulkUpload` | `bulk_upload.dfy` | the bulk-upload form |

Three modules are shared:

- `Catalogue` holds the database as a class with one map per table (categories, photos, comments, ratings) and the constraints that tie them together.
- `Text` holds characters, case folding, NFD decomposition, trimming and decimal conversion.
- `Seqs` holds filters, run collapsing, the stable descending sort, and JavaScript `Map`s as association lists in insertion order.

Inputs from outside the program become parameters:

- the clock, random ids and the session;
- whether the database, the media host or the image library fails;
- the outcome of each upload request.

### How each kind of code is modelled

- **Mutating actions** are methods on the `Catalogue` object. Each one states:
  - its whole new state;
  - that a refusal leaves every table unchanged;
  - that the table constraints still hold.
- **Stateful components** are classes whose fields the methods reassign:
  - the upload directory;
  - the media host;
  - the cookie store;
  - `URLSearchParams`;
  - the bulk-upload form.
- **Loops in the source** are `while` loops proved against a specification function: `uniqueSlug`, `buildByCamera` and its accumulating `Map`s, and `uploadAll`.
- **Pure transforms** are functions, with their properties proved as lemmas.

## Model

| member | source | states |
|---|---|---|
| PhotoSlug.Slugify | src/lib/utils/photo.ts:7-15 | A slug made from a title uses only `a-z`, `0-9` and `-`, never holds `--`, and has at most 80 characters |
| PhotoSlug.GenerateSlug | src/lib/utils/photo.ts:5-18 | Every result has the slug shape. A non-empty title gives at most 80 characters. A missing or empty title gives exactly `photo-` followed by the clock value |
| PhotoSlug.FallbackRoundTrip | src/lib/utils/photo.ts:17 | The fallback slug starts with `photo-`, and what follows parses back to the clock value it was built from |
| PhotoSlug.SlugifyFixpoint | src/lib/utils/photo.ts:7-15 | A string that already has the slug shape and at most 80 characters passes through the chain unchanged |
| PhotoSlug.GenerateSlugIdempotent | src/lib/utils/photo.ts:5-18 | A non-empty slug fed back in comes back unchanged, whatever the second clock reading. For the fallback this holds while the clock value fits the 80-character cut |
| PhotoSlug.NothingKeptGivesEmpty | src/lib/utils/photo.ts:6-15 | A non-empty title whose folded characters are all dropped or white space gives the empty slug, not the fallback |
| PhotoSlug.SurroundingSpace | src/lib/utils/photo.ts:12-13 | White space around a title never reaches the slug, so it never becomes an edge hyphen |
| PhotoSlug.LeadingHyphenKept | src/lib/utils/photo.ts:11-14 | A hyphen already at the start of a title survives at the start of the slug |
| PhotoSlug.SameFoldSameSlug | src/lib/utils/photo.ts:8-10 | Two pieces of a title that lower-case and decompose alike give the same slug |
| PhotoSlug.DroppedCharInvisible | src/lib/utils/photo.ts:9-11 | A character whose folding leaves nothing the filter keeps vanishes from the slug. It neither separates words nor becomes a hyphen |
| PhotoSlug.AccentedOFolds | src/lib/utils/photo.ts:8-10 | 'ó' and 'Ó' fold to plain 'o' |
| PhotoSlug.AccentedNFolds | src/lib/utils/photo.ts:8-10 | 'ń' and 'Ń' fold to plain 'n' |
| PhotoSlug.StrokedLDropped | src/lib/utils/photo.ts:9-11 | 'ł' has no decomposition and nothing of it survives the filter. 'Ł' folds the same way |
| Categories.ReplaceStroke | src/app/actions/categories.ts:12 | Every 'ł' becomes 'l' and every other character stays, position for position |
| Categories.TrimHyphens | src/app/actions/categories.ts:14 | The result neither starts nor ends with a hyphen |
| Categories.ToSlug | src/app/actions/categories.ts:7-15 | A category slug uses only `a-z`, `0-9` and `-`, has no hyphen at either end, and no `--` |
| Categories.TrimHyphensShape | src/app/actions/categories.ts:13-14 | Trimming the hyphens of a collapsed string gives the full category-slug shape |
| Categories.ToSlugFixpoint | src/app/actions/categories.ts:8-14 | A category slug is its own slug |
| Categories.ToSlugIdempotent | src/app/actions/categories.ts:8-14 | Making a slug from a slug changes nothing |
| Categories.StrokedLIsL | src/app/actions/categories.ts:8-12 | 'ł', and 'Ł' after lower-casing, give the same slug as 'l' anywhere in a name |
| Categories.AddCategory | src/app/actions/categories.ts:17-37 | The checks run in order: no session, then an empty trimmed name, then an empty slug; each refuses with nothing created. A clash with an existing id, name or slug is the "already exists" error. Any other insert failure is the generic error. On success exactly one category, named by the trimmed input with its `toSlug`, is added and every other table stays |
| Categories.DeleteCategory | src/app/actions/categories.ts:39-54 | No session, or photos still in the category, refuse with nothing changed; the message counts the photos. A missing id throws. Otherwise exactly that category goes |
| Catalogue.InsertCategoryConsistent | src/app/actions/categories.ts:27-31 | A category that clashes with no key, name or slug can be inserted without breaking a constraint |
| Catalogue.InsertPhotoConsistent | src/app/api/upload/route.ts:53-80 | A photo with a fresh id, a free slug and an existing or absent category keeps every constraint |
| Catalogue.RemoveCategoryConsistent | src/app/actions/categories.ts:43-49 | A category no photo refers to can be removed without breaking a constraint |
| Catalogue.PhotoCountZero | src/app/actions/categories.ts:43-44 | The count is zero exactly when no photo points at the category |
| Catalogue.CommentsWithout | src/app/actions/photos.ts:31-32 | The definition of the cascade on comments: exactly the comments of other photos stay, unchanged. Catalogue.Catalogue.RemovePhoto and Catalogue.RemovePhotoConsistent build on it |
| Catalogue.RatingsWithout | src/app/actions/photos.ts:31-32 | The definition of the cascade on ratings: exactly the ratings of other photos stay, unchanged. Catalogue.Catalogue.RemovePhoto and Catalogue.RemovePhotoConsistent build on it |
| Catalogue.RemovePhotoConsistent | src/app/actions/photos.ts:31-32 | Removing a photo together with its comments and ratings keeps every constraint |
| Catalogue.Catalogue.RemovePhoto | src/app/actions/photos.ts:32 | The photo, its comments and its ratings go; the categories stay |
| Comments.InputError | src/app/actions/comments.ts:12-16 | A blank name or content gives "All fields are required." A name over 100 characters gives "Name is too long." Content over 1000 gives "Comment is too long." Each holds exactly when the earlier checks pass. The lengths are measured before trimming |
| Comments.AcceptedCommentShape | src/app/actions/comments.ts:12-23 | What an accepted comment stores is trimmed, with a name of 1 to 100 and content of 1 to 1000 characters |
| Comments.SubmitComment | src/app/actions/comments.ts:7-31 | A rejected input gives its message. An insert that fails, on a missing photo or for any database error, gives the generic error. Both change nothing. Otherwise exactly one unapproved comment with the trimmed fields is added |
| Comments.ApproveComment | src/app/actions/comments.ts:33-38 | Without a session it throws and nothing changes; an unknown id throws too. Otherwise only that comment becomes approved |
| Comments.DeleteComment | src/app/actions/comments.ts:40-45 | Without a session, or for an unknown id, it throws and nothing changes. Otherwise only that comment goes |
| Ratings.SessionId | src/app/actions/ratings.ts:11-22 | The rating is filed under the carried session id when there is one, else under the fresh one |
| Ratings.IssueSession | src/app/actions/ratings.ts:14-22 | A cookie is set only when none was carried |
| Ratings.SessionIsReused | src/app/actions/ratings.ts:11-22 | Once a session is issued, later ratings from the same cookies are filed under it, and no new cookie is issued |
| Ratings.ResubmitReplaces | src/app/actions/ratings.ts:24-28 | Upserting an existing (photo, session) key keeps the set of keys and the number of ratings |
| Ratings.SubmitRating | src/app/actions/ratings.ts:8-31 | The value is a JavaScript number, `NaN` included. A value below 1 or above 5 changes nothing. Any other value, `NaN` and fractions included, gets the cookie store its session first. Then `NaN` or a fraction fails the upsert on the integer column, and a missing photo fails it on the foreign key; both leave the ratings unchanged. A whole value from 1 to 5 becomes the rating for (photo, session), and every other rating stays |
| Ratings.RangeCheckLetsThrough | src/app/actions/ratings.ts:9 | `NaN` and 2.5 both pass the range check, and neither is a whole number |
| Ratings.WholeValuesAccepted | src/app/actions/ratings.ts:9 | A whole number passes the check and is stored exactly when it lies in 1..5 |
| Photos.Capture | src/app/actions/photos.ts:9 | The lazy group `(.+?)` takes the shortest non-empty prefix whose rest is an optional final `.<word chars>` |
| Photos.ExtractPublicId | src/app/actions/photos.ts:8-11 | A found public id is never empty |
| Photos.ExtractPublicIdSome | src/app/actions/photos.ts:9-10 | There is an id exactly when the URL has `/upload/` followed by at least one character and no line break after it |
| Photos.LeftmostMatchDecides | src/app/actions/photos.ts:9 | The first `/upload/` that can match decides the id |
| Photos.DeliveryUrl | src/app/actions/photos.ts:9 | A delivery URL `…/upload/v<digits>/<path>.<ext>` gives back `<path>` |
| Photos.VersionDropped | src/app/actions/photos.ts:9 | A `v<digits>/` segment right after `/upload/` is not part of the id |
| Photos.NoVersionKept | src/app/actions/photos.ts:9 | Without such a segment the whole rest is the id's source |
| Photos.ExtensionDropped | src/app/actions/photos.ts:9 | Only the final `.<word chars>` goes; inner dots and folder slashes stay |
| Photos.NoDotKept | src/app/actions/photos.ts:9 | A path without a dot is kept whole |
| Photos.LocalUploadHasNoId | src/app/actions/photos.ts:9-10 | The `/uploads/<file>` URLs the upload endpoint stores never yield an id |
| Photos.MediaHost.Destroy | src/app/actions/photos.ts:24 | A successful destroy removes the asset; a failed one leaves the assets as they were |
| Photos.DeletePhoto | src/app/actions/photos.ts:13-39 | No session, or an unknown photo, returns an error and touches neither the database nor the media host. Otherwise the asset is destroyed when an id can be extracted and the call does not fail. The photo row, its comments and its ratings are removed in every case |
| Proxy.Decide | src/proxy.ts:5-25 | An admin path other than the login page, without a token, redirects to login with the path as `callbackUrl`. The login page with a token redirects to `/admin`. Nothing else redirects |
| Proxy.PassCases | src/proxy.ts:14-24 | Exactly these requests pass: a non-login path with a token, the login page without one, and every path outside `/admin` |
| Proxy.RedirectSettles | src/proxy.ts:14-22 | Following a redirect with the same token state is never redirected again |
| Upload.AfterLastShape | src/lib/upload.ts:32-33 | The text after the last separator is a suffix, holds no separator, and either is the whole string or follows a separator |
| Upload.ComponentHasNoSlash | src/lib/upload.ts:32-33 | The last path component holds no `/` |
| Upload.ExtNameShape | src/lib/upload.ts:31 | `path.extname` is empty, or a dot and dot-free text forming a proper suffix of the last component |
| Upload.BaseName | src/lib/upload.ts:32-33 | `path.basename(name, ext)` is empty when `ext` is the whole path. It is the last component with `ext` cut off its end exactly when `ext` is a non-empty proper suffix of that component. Otherwise it is the whole component |
| Upload.CutSuffix | src/lib/upload.ts:32-33 | Cutting the suffix gives the part that, followed by the suffix, is the component |
| Upload.Sanitize | src/lib/upload.ts:34-35 | One character out per character in. A character becomes `-` exactly when it is not an ASCII letter or digit; a letter is lower-cased |
| Upload.FileBase | src/lib/upload.ts:31-36 | The base of a stored name has at most 40 characters, all in `a-z0-9-` |
| Upload.FilenameShape | src/lib/upload.ts:37-38 | Of `Upload.GenerateFilename`, the `generateFilename` of upload.ts:31-38: a stored name is the timestamp, `-`, the base, the suffix and `.webp`, whatever the original extension. The timestamp parses back from the name |
| Upload.FilenameHasNoSlash | src/lib/upload.ts:30-38 | A stored name never holds `/`, so it stays inside the upload directory |
| Upload.MainAndThumbnailDiffer | src/lib/upload.ts:48-49 | The main file and the thumbnail never share a name, whatever the two clock readings |
| Upload.UpperCaseExtensionKept | src/lib/upload.ts:31-33 | An extension not already lower case is not cut, because the cut is case-sensitive against the lower-cased extension. So "IMG_1.JPG" keeps "-jpg" in its base |
| Upload.LowerCaseExtensionDropped | src/lib/upload.ts:31-33 | A lower-case extension is cut off the base |
| Upload.UploadDirectory.ProcessUpload | src/lib/upload.ts:45-80 | The directory exists afterwards. The EXIF and metadata reads come before either write, and the main file is written before the thumbnail. It succeeds exactly when nothing throws: then both names go under `/uploads/`, and a missing width or height reads as 0. An unreadable image or a failed web-copy write leaves no new file. A failed thumbnail write leaves the web copy on disk |
| Upload.Completed | src/lib/upload.ts:61-70 | The writes finished before a failure are a prefix of the two writes: both, the web copy only, or none |
| Upload.Written | src/lib/upload.ts:61-70 | The files left on disk are exactly those of the finished writes |
| Upload.UploadDirectory.DeleteUpload | src/lib/upload.ts:85-90 | Both files are gone afterwards, whether or not they existed; the call never fails |
| UploadRoute.UniqueSlug | src/app/api/upload/route.ts:13-25 | The result satisfies `SlugChosen`: a free base is kept. Otherwise the result is the first free `base-i` for i in 2..99, with all earlier candidates taken; failing that, `base-<now>` unchecked. Whenever some candidate is free, the result is free |
| UploadRoute.SlugChosenUnique | src/app/api/upload/route.ts:13-25 | That description leaves no choice: at most one slug satisfies it for a given base, set of taken slugs and clock reading |
| UploadRoute.NullIfEmpty | src/app/api/upload/route.ts:55-63 | An empty or missing field is stored as null; any other value as given |
| UploadRoute.EmptyTitleGivesTimestampSlug | src/app/api/upload/route.ts:51 | An empty title is not replaced by the file name, so the slug is the `photo-<now>` fallback |
| UploadRoute.MissingTitleUsesFilename | src/app/api/upload/route.ts:51 | A missing title makes the slug from the stored file name |
| UploadRoute.CreatePhoto | src/app/api/upload/route.ts:53-95 | A taken slug is a 409 naming `slug`. A category that does not exist is a 500 with the database's message. Otherwise exactly one photo row is added |
| UploadRoute.Post | src/app/api/upload/route.ts:27-96 | No session gives 401, then a missing file gives 400, with nothing changed. An image error gives 500. A 409 happens only when all 99 candidate slugs are taken. A rejection never changes the database. Once a file is sent, the upload directory exists afterwards, its log gains the reads and the writes performed before any fault, and it gains exactly the files processing wrote: both on success, and both also on a 409 or on a 500 from the database, since the route never deletes them. A valid request with a known category and a free candidate creates exactly one photo. It has null for empty fields, and the stored file's name, URL and thumbnail URL. Its width, height and EXIF data are those decoded from the image. Its slug is the one `uniqueSlug(generateSlug(title ?? filename))` picks (`SlugChosen`, which determines it), and it is fresh |
| Stats.LensSearch | src/app/stats/page.tsx:22 | A match has a focal group ending in "mm" and a non-empty aperture |
| Stats.ShortenLens | src/app/stats/page.tsx:21-25 | With a match, the result is `<focal> f/<aperture>` from the leftmost match. Otherwise a name over 22 characters becomes its first 20 and "…", and a shorter one is kept |
| Stats.NoDigitsShortened | src/app/stats/page.tsx:22-24 | A long name without digits is cut to 20 characters and "…" |
| Stats.StructuredLens | src/app/stats/page.tsx:22-23 | A name such as `OLYMPUS M.12mm F/4` (digits, "mm", white space, `F`/`f`, `/`, digits) shortens to `12mm f/4` |
| Stats.RangeMatchFromPositions | src/app/stats/page.tsx:22 | The optional parts of the pattern: a focal range "<digits>-<digits>mm", no '/', and an aperture with a fraction. The groups are the whole range with its "mm" and the whole aperture |
| Stats.OlympusZoomShortened | src/app/stats/page.tsx:20-23 | "OLYMPUS M.12-100mm F4.0" shortens to "12-100mm f/4.0" |
| Stats.SearchFindsAt | src/app/stats/page.tsx:22 | With no digit before it, a structured match is the one the search finds |
| Stats.MatchFromPositions | src/app/stats/page.tsx:22 | A match is described in terms of where its parts lie |
| Stats.IsoBucket | src/app/stats/page.tsx:138-144 | An ISO value falls in the one bucket whose bounds (400, 800, 1600, 3200) enclose it |
| Stats.Only | src/app/stats/page.tsx:41-42 | Under "all" the rows are kept as they are. Under a camera the kept rows come from the input and belong to that camera, and every row of that camera is kept |
| Stats.Accumulate | src/app/stats/page.tsx:46 | The loop that adds counts into a fresh `Map` builds the tally: one entry per key, in order of first appearance (with Seqs.TallyOrder), holding the key's total (with Seqs.TallySums) |
| Stats.StatsForKey | src/app/stats/page.tsx:40-86 | One loop iteration computes the lists the specification gives for that key |
| Stats.BuildByCamera | src/app/stats/page.tsx:29-89 | The result has exactly the keys "all" and the cameras. Each holds that key's statistics |
| Stats.LensesCorrect | src/app/stats/page.tsx:45-50 | At most seven lenses, by non-increasing count. Each has its shortened name and the sum of its rows' counts for the key |
| Stats.LensesAreTopSeven | src/app/stats/page.tsx:47-50 | A lens left out has no more photos than any lens shown, and then seven are shown |
| Stats.FocalLengthsCorrect | src/app/stats/page.tsx:52-58 | At most ten focal lengths, by non-increasing count. Each is labelled `<mm>mm` with the sum of its rows' counts |
| Stats.FocalLengthsAreTopTen | src/app/stats/page.tsx:55-58 | A focal length left out has no more photos than any shown, and then ten are shown |
| Stats.IsoRangesCorrect | src/app/stats/page.tsx:67-73 | Exactly the ISO buckets with rows appear, in `ISO_ORDER`, each with the sum of its counts |
| Stats.CategoriesCorrect | src/app/stats/page.tsx:75-84 | Every category of any row appears under every key, by non-increasing count, with that key's sum (0 when it has none) |
| Stats.CategoryListHas | src/app/stats/page.tsx:81-83 | Every category in the name-to-slug map has its entry, zero-filled |
| Stats.CategoryListCount | src/app/stats/page.tsx:83 | Every entry's count is the tally for its name, or 0 |
| Stats.BeforeDash | src/app/stats/page.tsx:193-194 | `split("-")[0]` is the dash-free prefix up to the first dash |
| Stats.YearsActive | src/app/stats/page.tsx:193-195 | An empty timeline gives 1 |
| Stats.YearsActiveSpan | src/app/stats/page.tsx:193-195 | For a timeline from `Y1-…` to `Y2-…` the figure is Y2 − Y1 + 1 |
| StatsCharts.SuffixDigit | src/components/stats/StatsCharts.tsx:90 | `_(\d)$` matches exactly when the name ends in an underscore and a digit |
| StatsCharts.NumeralFor | src/components/stats/StatsCharts.tsx:90 | 1 to 4 become "I" to "IV"; any other digit stays itself |
| StatsCharts.ReplaceSuffix | src/components/stats/StatsCharts.tsx:90 | A final `_<digit>` is replaced by its numeral; nothing else changes |
| StatsCharts.SplitCase | src/components/stats/StatsCharts.tsx:91 | After the split no lower-case letter is directly followed by an upper-case one. The first character stays and nothing is lost |
| StatsCharts.SplitCaseIsSpacedPairs | src/components/stats/StatsCharts.tsx:91 | The scan puts exactly one space inside every lower-then-upper pair of the input |
| StatsCharts.SplitCaseIdempotent | src/components/stats/StatsCharts.tsx:91 | Splitting twice changes nothing more |
| StatsCharts.CameraLabel | src/components/stats/StatsCharts.tsx:87-92 | The numeral replacement, then a space in every lower-upper pair |
| StatsCharts.RomanSuffix | src/components/stats/StatsCharts.tsx:90 | A final "_1" to "_4" reads as "I" to "IV" |
| StatsCharts.PlainDigitSuffix | src/components/stats/StatsCharts.tsx:90 | Any other final digit only loses its underscore |
| StatsCharts.Selected | src/components/stats/StatsCharts.tsx:135-141 | The chosen camera's stats if present, else those of "all"; the literal fallback object, which has no category list, exactly when neither key is in the map |
| StatsCharts.FilteredCategoryBars | src/components/stats/StatsCharts.tsx:237-247 | The category chart fails exactly on the fallback object, where `filtered.categories` is undefined and `filter` throws. Otherwise it has one bar per category with photos |
| StatsCharts.SelectedFromBuilt | src/components/stats/StatsCharts.tsx:135-141 | On `buildByCamera`'s result the fallback object is never reached, so the category chart never throws. "all" or a listed camera gets its own stats; any other choice gets those of "all" |
| StatsCharts.CategoryBars | src/components/stats/StatsCharts.tsx:245-247 | One bar per category with a positive count, and only those |
| StatsCharts.CategoryBarsComplete | src/components/stats/StatsCharts.tsx:245-247 | A category gets a bar exactly when its count is positive. The bar shows the translation for its slug when there is one, else its name |
| Gallery.SortFromParam | src/app/gallery/page.tsx:27-30 | A known option from the query is kept; anything else, or nothing, gives "dateDesc" |
| Gallery.OrderBy | src/app/gallery/page.tsx:13-23 | One key for "uploadDesc", two otherwise. "dateAsc" orders by capture date, then upload date, both ascending. "uploadDesc" orders by upload date, descending. Anything else orders by capture date, then upload date, both descending |
| Gallery.QueryOrder | src/app/gallery/page.tsx:40 | Under "ratingDesc" the query orders by newest upload; otherwise by `getOrderBy` |
| Gallery.ShownCorrect | src/app/gallery/page.tsx:32-35 | Exactly the published photos are listed, of the chosen category when one is given |
| Gallery.DisplayedCorrect | src/app/gallery/page.tsx:56-62 | The page shows a permutation of what the query returned. Under "ratingDesc" it is ordered by non-increasing average, and ties keep the query's order. Under any other sort it is unchanged |
| Gallery.RatingKeyCorrect | src/app/gallery/page.tsx:58-60 | An unrated photo sorts as 0; a rated one by its aggregate's average (0 when null) |
| Gallery.AllHrefMatchesSortButtons | src/app/gallery/page.tsx:73 | The "All" link is the URL the sort buttons build from no parameters. It has no category, and `sort=` only when the sort is not the default |
| Gallery.CategoryHrefMatchesSortButtons | src/app/gallery/page.tsx:85 | A category link is the URL the sort buttons build from the category alone |
| SortSelect.SortOptionsShape | src/components/gallery/SortSelect.tsx:6-8 | Four distinct options, the default "dateDesc" among them |
| SortSelect.Deleted | src/components/gallery/SortSelect.tsx:23 | After `delete` the name has no pair left |
| SortSelect.ReplaceFirstCorrect | src/components/gallery/SortSelect.tsx:25 | Replacing the first pair with the name leaves exactly one pair for it, with the value. The other pairs stay in order |
| SortSelect.SetParamCorrect | src/components/gallery/SortSelect.tsx:25 | After `set` the name has exactly one pair, holding the value. The other parameters stay in order |
| SortSelect.Query | src/components/gallery/SortSelect.tsx:27 | The query string is empty exactly when there are no parameters |
| SortSelect.SearchParams.Delete | src/components/gallery/SortSelect.tsx:23 | The copy's entries become those without the name |
| SortSelect.SearchParams.Set | src/components/gallery/SortSelect.tsx:25 | The copy's entries become the `set` of the name to the value |
| SortSelect.OnChange | src/components/gallery/SortSelect.tsx:20-28 | The router target is the path and the query of the updated copy |
| SortSelect.UpdatedCorrect | src/components/gallery/SortSelect.tsx:21-27 | The default removes `sort`. Any other option leaves exactly one `sort`, holding it. Every other parameter is kept. The target is the bare path exactly when no parameter remains |
| BulkUpload.Pad2 | src/components/admin/BulkUploadForm.tsx:58 | Two digits that read back as the number |
| BulkUpload.FormatTime | src/components/admin/BulkUploadForm.tsx:52-59 | Unknown gives "obliczanie…". Under 5 gives "za chwilę". Under 60 gives "<n> s". Otherwise "<m> min <ss> s", with the seconds padded to two digits |
| BulkUpload.FormatTimeMinutes | src/components/admin/BulkUploadForm.tsx:56-58 | From a minute on, the minutes and padded seconds shown add back up to the input |
| BulkUpload.BuildTitle | src/components/admin/BulkUploadForm.tsx:187-189 | A blank prefix leaves the base. Otherwise the result is the trimmed prefix, ", " and the base |
| BulkUpload.StripExtension | src/components/admin/BulkUploadForm.tsx:156 | The result is a prefix of the name |
| BulkUpload.ExtensionStripped | src/components/admin/BulkUploadForm.tsx:156 | A final "." and a dot-free, non-empty extension are removed |
| BulkUpload.NoExtensionKept | src/components/admin/BulkUploadForm.tsx:156 | A name without a dot, or ending in one, is kept |
| BulkUpload.CapitalizeWords | src/components/admin/BulkUploadForm.tsx:158 | As written: exactly the ASCII word characters with no ASCII word character before them are upper-cased; all others stay |
| BulkUpload.CapitalizeWordsSplitsAtPolishLetters | src/components/admin/BulkUploadForm.tsx:158 | "zęc" becomes "ZęC" |
| BulkUpload.CapitalizeTitleWords | src/components/admin/BulkUploadForm.tsx:158 | Corrected: letters including the Polish ones form words. The first letter of each word is upper-cased and letters inside a word stay |
| BulkUpload.CapitalizeTitleWordsIdempotent | src/components/admin/BulkUploadForm.tsx:158 | Capitalising twice changes nothing more |
| BulkUpload.TitleFromFilename | src/components/admin/BulkUploadForm.tsx:154-160 | The title the program gives, with `\b\w` as written. It has no '-' or '_' and no white space at either end |
| BulkUpload.TitleFromFilenameIntended | src/components/admin/BulkUploadForm.tsx:154-160 | The same title with Polish letters counted as word letters. It has the same shape |
| BulkUpload.TitleFromTwoWords | src/components/admin/BulkUploadForm.tsx:154-160 | Two ASCII words joined by a run of '-' and '_', plus an extension, give both words capitalised with one space between ("my__photo.jpg" gives "My Photo"). Both rules agree here |
| BulkUpload.TitleSplitsAfterPolishLetter | src/components/admin/BulkUploadForm.tsx:158 | In a title from one lower-case word, an ASCII letter right after a Polish letter is upper-cased by the program |
| BulkUpload.TitleKeepsAfterPolishLetter | src/components/admin/BulkUploadForm.tsx:158 | The intended rule keeps that letter lower-case |
| BulkUpload.Percent | src/components/admin/BulkUploadForm.tsx:290-291 | A percentage lies in 0..100, is 100 once the part reaches the whole, and is defined whenever the whole is positive |
| BulkUpload.OnProgress | src/components/admin/BulkUploadForm.tsx:288-305 | The file percentage is the loaded part of the request, and the overall one the cumulative bytes plus the loaded part of the total. Both are capped at 100 |
| BulkUpload.Patched | src/components/admin/BulkUploadForm.tsx:238 | `{ ...e, ...patch }`: fields in the patch win; id, file and base title stay |
| BulkUpload.NewEntries | src/components/admin/BulkUploadForm.tsx:193-210 | One pending entry per image, in order, with its id, an empty category, and its title built from the current prefix. Without an EXIF date the base title is the program's `TitleFromFilename` |
| BulkUpload.PatchId | src/components/admin/BulkUploadForm.tsx:237-239 | Only entries with that id are patched; every other entry and the order stay |
| BulkUpload.WithCategory | src/components/admin/BulkUploadForm.tsx:241-244 | Every entry gets the category and nothing else changes |
| BulkUpload.WithPrefix | src/components/admin/BulkUploadForm.tsx:246-252 | Pending entries are retitled from their base title; the others stay |
| BulkUpload.WithPrefixIdempotent | src/components/admin/BulkUploadForm.tsx:246-252 | Applying a prefix twice is applying it once |
| BulkUpload.Settle | src/components/admin/BulkUploadForm.tsx:309-316 | An accepted upload ends done. Any rejection or exception ends as an error, with a message |
| BulkUpload.SettledCorrect | src/components/admin/BulkUploadForm.tsx:255-317 | Each pending entry is settled by its own outcome, in list order, and ends done or failed. An entry that was not pending is untouched |
| BulkUpload.StepSettles | src/components/admin/BulkUploadForm.tsx:273-317 | Marking the next pending entry uploading and then finishing it, both by id, moves the list one step of the specification |
| BulkUpload.FilterDistinctIds | src/components/admin/BulkUploadForm.tsx:233 | Removing entries keeps ids unique |
| BulkUpload.BulkForm.AddFiles | src/components/admin/BulkUploadForm.tsx:191-216 | Only files whose type starts with "image/" are appended, in order, as new pending entries; the inputs stay |
| BulkUpload.BulkForm.RemoveEntry | src/components/admin/BulkUploadForm.tsx:229-235 | Exactly the entries with that id go; the rest keep their order |
| BulkUpload.BulkForm.UpdateEntry | src/components/admin/BulkUploadForm.tsx:237-239 | The list becomes the patch of that id |
| BulkUpload.BulkForm.ApplyGlobalCategory | src/components/admin/BulkUploadForm.tsx:241-244 | With no category chosen nothing changes; otherwise every entry gets it |
| BulkUpload.BulkForm.ApplyTitlePrefix | src/components/admin/BulkUploadForm.tsx:246-252 | Only pending entries are retitled, from their base title |
| BulkUpload.BulkForm.UploadAll | src/components/admin/BulkUploadForm.tsx:254-322 | The loop over the pending snapshot ends with the list the specification settles. The cumulative byte count is the total size of the pending files, on success and failure alike |
| Seqs.CollapseRunsPreserves | src/lib/utils/photo.ts:13-14 | Collapsing runs into a replacement keeps any property shared by the replacement and the input |
| Seqs.SortDescCorrect | src/app/stats/page.tsx:49 | The comparator sort orders by non-increasing key and is a permutation. It is stable: elements with equal keys keep their order |
| Seqs.TallyKeys | src/app/stats/page.tsx:46 | The tally has one entry per key, and exactly the keys of the rows |
| Seqs.TallyOrder | src/app/stats/page.tsx:46 | A `Map` iterates in insertion order, so the tally's keys are the rows' keys, each where it first occurs and repeats dropped |
| Seqs.TallySums | src/app/stats/page.tsx:46 | The tally's entry for a key is the sum of that key's counts |
| Seqs.AssignCorrect | src/app/stats/page.tsx:81 | `new Map(pairs)` has distinct keys, and each maps to the value of its last pair |
| Seqs.FilterMembers | src/components/admin/BulkUploadForm.tsx:233 | An element survives the filter exactly when it was there and passes the test |
| Text.Fold | src/lib/utils/photo.ts:8-10 | `toLowerCase().normalize("NFD").replace(/[\u0300-\u036f]/g, "")`, shared with the category slug of src/app/actions/categories.ts:9-11: no combining mark is left |
| Text.NatToStringRoundTrip | src/lib/utils/photo.ts:17 | The decimal text of a number reads back as the number |
| Text.ParseIntOfNat | src/app/stats/page.tsx:195 | `parseInt` on a number's decimal text, followed by a non-digit, gives back the number |
| Text.Trim | src/app/actions/comments.ts:12 | Trimming gives a contiguous slice with no white space at either end |
| Text.TrimRemovesOnlySpace | src/app/actions/comments.ts:12 | Everything trimming removes, before and after the kept slice, is white space, so trimming a non-blank text never gives the empty string |
| Text.LastDot | src/components/admin/BulkUploadForm.tsx:156 | The last dot of a string, or none when it has none |

## Left out

- **Character units.** Strings are sequences of Unicode scalar values. JavaScript's `length` and `slice` count UTF-16 units, so a name with characters outside the Basic Multilingual Plane has different lengths and cut points in the model.
- **Case folding and NFD.** `toLowerCase`, `toUpperCase` and `normalize("NFD")` are given by a finite table: ASCII, the Latin-1 letters and the Polish letters. Every other character folds to itself.
- **Locale date formatting.** `toLocaleDateString` formatting (`formatMonth` and `titleFromDate`) is not modelled. A title taken from EXIF dates is an input to `NewEntries`.
- **Floating point.**
  - `formatAperture` and `formatFocalLength` are not modelled.
  - The aperture list of the stats page, whose order comes from `parseFloat`, is not modelled. `CameraStats` has no aperture field.
  - The bar opacities are not modelled.
  - The upload rate and time estimate are not modelled; the seconds left are an input to `FormatTime`.
  - Rating averages are abstract `real` values.
  - `Math.round` in `FormatTime` is applied to whole seconds only.
  - Infinite ratings are not a separate `Ratings.Number`; like any value past 5 or below 1 they are turned away.
- **EXIF and image processing.** `src/lib/exif.ts` is not part of this model. Sharp's decode and resize, and exifr's parsing, are foreign calls. What they yield (size, EXIF fields, or an error) is an input. The written files are names in a set, not bytes.
- **Database queries.** The SQL grouping, the ISO bucketing in SQL and the category join are not evaluated. `buildByCamera` takes their rows as input. `Stats.IsoBucket` states the bucketing rule alone.
- **Unseen helpers.** `normalizeCameraModel` is not part of this model. Camera names reach `buildByCamera` already normalised.
- **Cache and rendering.** `revalidatePath`, logging and React rendering are not modelled.
- **Authentication.** `auth()`, `getToken`, bcrypt, JWT and the language cookie are not modelled. A session or token is a boolean input.
- **Concurrency.** The XHR requests, progress events, `Promise.all` and the check-then-insert race in `uniqueSlug` are not modelled. Every call is sequential.
- **Query strings.** Percent-encoding of query strings is not modelled, so values are joined as they are. `URLSearchParams` parsing of the current URL is taken as its list of pairs.
- **Presentation components.** These have only display logic and are not modelled: the navigation bar, hero slider, photo card and grid, EXIF panel, star rating, comment form and list, toggles, admin and about pages, `UploadForm` and `next.config.ts`.
- **Seed script.** `prisma/seed.ts` is a one-off seeding script with its own slug rule, and is not modelled.
- **Photo slug and 'ł'.** The photo slug deletes 'ł', so "Zachód słońca" gives "zachod-sonca", not the "zachod-slonca" that mapping 'ł' to 'l' would give. 'ł' has no NFD decomposition and is outside `[a-z0-9\s-]` (src/lib/utils/photo.ts:9-11). The category slug does map 'ł' to 'l' first (`Categories.StrokedLIsL`). The model follows the code (`PhotoSlug.StrokedLDropped`).
- **Database schema.** The Prisma schema is not part of this model. `Catalogue.Consistent` requires unique category names and slugs, unique photo slugs, the (photo, session) key of ratings, and foreign keys from photos to categories and from comments and ratings to photos. It also takes it that deleting a photo cascades to its comments and ratings.
- BulkUpload.BulkForm.AddFiles: the ids built from `Date.now()` and `Math.random()` are a parameter, and are required to be fresh and distinct. The source relies on this without checking it.
- Comments.SubmitComment: the fresh comment id the database assigns is a parameter, required to be unused. A database failure other than a missing photo is the boolean input `dbFails`.
- UploadRoute.Post: the fresh photo id is a parameter, required to be unused. A unique-constraint error is answered with the column `slug`, the only unique column a new photo can clash on. The category foreign-key failure is the only other database error modelled.
- BulkUpload.Percent: the quotient and the product by 100 are exact rationals, while the source computes them in IEEE doubles before `Math.round`. At a .5 boundary the two can round differently: 57 of 200 bytes is 28.5 exactly, so the model gives 29, while the double 28.499999999999996 gives 28. The 0..100 bounds hold either way.
- Upload.UploadDirectory.ProcessUpload: a failed write is taken to leave no file of its own; a partly written file is not modelled.
- Stats.YearsActive: states only the empty-timeline case itself. The span for well-formed months is `Stats.YearsActiveSpan`, and a year that does not parse (`NaN` in the source) is `None`.
- Photos.ExtractPublicId: states non-emptiness itself. When an id exists and what it is are the separate lemmas listed above.

## Findings

| source | as written | input that shows it | evidently intended | confidence | as-written member | corrected member |
|---|---|---|---|---|---|---|
| src/components/admin/BulkUploadForm.tsx:158 | `\b\w` treats only ASCII letters, digits and `_` as word characters, so a letter right after a Polish letter starts a new word and is upper-cased | "zęc" becomes "ZęC"; a file `zdjęcie_morza.jpg` is titled "ZdjęCie Morza" | Only the first letter of each word is upper-cased, with Polish letters counted as letters ("Zdjęcie Morza") | not executed; follows from the ECMAScript definition of `\b` without the `u` flag | BulkUpload.TitleFromFilename, BulkUpload.CapitalizeWords, BulkUpload.TitleSplitsAfterPolishLetter, BulkUpload.CapitalizeWordsSplitsAtPolishLetters | BulkUpload.TitleFromFilenameIntended, BulkUpload.CapitalizeTitleWords, BulkUpload.TitleKeepsAfterPolishLetter, BulkUpload.CapitalizeTitleWordsIdempotent |

The form state (`BulkUpload.NewEntries`, `BulkUpload.BulkForm.AddFiles`) uses the program's own `TitleFromFilename`, so it holds the titles the program shows. `TitleFromFilenameIntended` is the corrected title beside it.
