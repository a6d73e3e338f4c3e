/**
 * Visitor comments (src/app/actions/comments.ts): submission with its input
 * checks, and moderation (approve, delete) by a signed-in administrator.
 */
module Comments {
  import opened Wrappers
  import opened Text
  import opened Catalogue

  const MaxNameLength: nat := 100
  const MaxContentLength: nat := 1000

  const AllFieldsRequired := "All fields are required."
  const NameTooLong := "Name is too long."
  const CommentTooLong := "Comment is too long."
  const SomethingWentWrong := "Something went wrong. Please try again."

  /**
   * The first input check that fails, in the order the action runs them:
   * blank name or content, then the name's length, then the content's. The
   * lengths are those of the strings as submitted, before trimming.
   */
  function InputError(authorName: string, content: string): (r: Option<string>)
    ensures r == Some(AllFieldsRequired) <==> Trim(authorName) == [] || Trim(content) == []
    ensures r == Some(NameTooLong) <==>
      Trim(authorName) != [] && Trim(content) != [] && |authorName| > MaxNameLength
    ensures r == Some(CommentTooLong) <==>
      Trim(authorName) != [] && Trim(content) != [] && |authorName| <= MaxNameLength && |content| > MaxContentLength
    ensures r.None? || r == Some(AllFieldsRequired) || r == Some(NameTooLong) || r == Some(CommentTooLong)
  {
    if Trim(authorName) == [] || Trim(content) == [] then Some(AllFieldsRequired)
    else if |authorName| > MaxNameLength then Some(NameTooLong)
    else if |content| > MaxContentLength then Some(CommentTooLong)
    else None
  }

  /**
   * What an accepted submission stores is within the limits and carries no
   * surrounding white space: the name has 1..100 characters, the content
   * 1..1000.
   */
  lemma AcceptedCommentShape(authorName: string, content: string)
    requires InputError(authorName, content).None?
    ensures 1 <= |Trim(authorName)| <= MaxNameLength && 1 <= |Trim(content)| <= MaxContentLength
    ensures !IsSpace(Trim(authorName)[0]) && !IsSpace(Trim(authorName)[|Trim(authorName)| - 1])
    ensures !IsSpace(Trim(content)[0]) && !IsSpace(Trim(content)[|Trim(content)| - 1])
  {
  }

  /**
   * `submitComment`. The comment's id is the fresh key the database assigns;
   * the insert fails, and the generic error comes back, when the photo does
   * not exist or when the database fails for a reason of its own
   * (`dbFails`: a lost connection, a timeout).
   */
  method SubmitComment(db: Catalogue, photoId: string, authorName: string, content: string, id: string, dbFails: bool)
    returns (out: Outcome)
    requires db.Valid() && id !in db.comments
    modifies db
    ensures db.Valid()
    ensures out != Done ==> unchanged(db)
    ensures InputError(authorName, content).Some? ==> out == Error(InputError(authorName, content).value)
    ensures InputError(authorName, content).None? && (photoId !in old(db.photos) || dbFails) ==>
      out == Error(SomethingWentWrong)
    ensures InputError(authorName, content).None? && photoId in old(db.photos) && !dbFails ==>
      && out == Done
      && db.comments == old(db.comments)[id := Comment(photoId, Trim(authorName), Trim(content), false)]
      && db.categories == old(db.categories) && db.photos == old(db.photos) && db.ratings == old(db.ratings)
  {
    var err := InputError(authorName, content);
    if err.Some? {
      return Error(err.value);
    }
    if photoId !in db.photos || dbFails {
      return Error(SomethingWentWrong);
    }
    db.comments := db.comments[id := Comment(photoId, Trim(authorName), Trim(content), false)];
    out := Done;
  }

  /** `approveComment`: throws without a session, and for an id that does not exist. */
  method ApproveComment(db: Catalogue, session: bool, id: string) returns (out: Outcome)
    requires db.Valid()
    modifies db
    ensures db.Valid()
    ensures out != Done ==> unchanged(db)
    ensures !session ==> out == Threw(Unauthorized)
    ensures session && id !in old(db.comments) ==> out == Threw(RecordNotFound)
    ensures session && id in old(db.comments) ==>
      && out == Done
      && db.comments == old(db.comments)[id := old(db.comments)[id].(approved := true)]
      && db.categories == old(db.categories) && db.photos == old(db.photos) && db.ratings == old(db.ratings)
  {
    if !session {
      return Threw(Unauthorized);
    }
    if id !in db.comments {
      return Threw(RecordNotFound);
    }
    db.comments := db.comments[id := db.comments[id].(approved := true)];
    out := Done;
  }

  /** `deleteComment`: throws without a session, and for an id that does not exist. */
  method DeleteComment(db: Catalogue, session: bool, id: string) returns (out: Outcome)
    requires db.Valid()
    modifies db
    ensures db.Valid()
    ensures out != Done ==> unchanged(db)
    ensures !session ==> out == Threw(Unauthorized)
    ensures session && id !in old(db.comments) ==> out == Threw(RecordNotFound)
    ensures session && id in old(db.comments) ==>
      && out == Done
      && db.comments == old(db.comments) - {id}
      && db.categories == old(db.categories) && db.photos == old(db.photos) && db.ratings == old(db.ratings)
  {
    if !session {
      return Threw(Unauthorized);
    }
    if id !in db.comments {
      return Threw(RecordNotFound);
    }
    db.comments := db.comments - {id};
    out := Done;
  }
}
