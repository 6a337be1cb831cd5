/** `BlogCommentController`: listing the comments on a post, adding a
    comment as the caller, and editing or deleting one as its author or
    an administrator. Every action requires an authenticated caller; the
    audit write after a change is not guarded, so its failure (`audit`)
    turns into a 500 once the change is already saved. */
module CommentController {
  import opened Base
  import opened Text
  import opened Tables
  import opened Schema
  import opened Ordering
  import opened Claims

  /** A comment with its author, as `Include(c => c.User)` loads it. */
  datatype CommentView = CommentView(comment: Row<BlogComment>, user: Option<User>)

  datatype CommentSaveDto = CommentSaveDto(comment: string, blogId: int)

  datatype CommentEditDto = CommentEditDto(blogCommentId: int, comment: string)

  function OnPost(blogId: int): (p: Row<BlogComment> -> bool)
    ensures forall c :: p(c) <==> c.data.blogId == blogId
  {
    (c: Row<BlogComment>) => c.data.blogId == blogId
  }

  function CommentedAt(): (key: Row<BlogComment> -> int)
    ensures forall c :: key(c) == c.data.commentedAt
  {
    (c: Row<BlogComment>) => c.data.commentedAt
  }

  function WithAuthors(db: Db, rows: seq<Row<BlogComment>>): (r: seq<CommentView>)
    ensures |r| == |rows|
    ensures forall i :: 0 <= i < |r| ==> r[i].comment == rows[i] && r[i].user == Find(db.users, rows[i].data.userId)
  {
    seq(|rows|, i requires 0 <= i < |rows| => CommentView(rows[i], Find(db.users, rows[i].data.userId)))
  }

  /** The comment rows of a list of views, in order. */
  function Rows(vs: seq<CommentView>): (r: seq<Row<BlogComment>>)
    ensures |r| == |vs| && forall i :: 0 <= i < |vs| ==> r[i] == vs[i].comment
  {
    seq(|vs|, i requires 0 <= i < |vs| => vs[i].comment)
  }

  /** `GetCommentsByBlogId`. */
  function GetComments(db: Db, blogId: int): (r: Response<seq<CommentView>>)
    ensures r.Ok? && |r.body| <= |db.comments.rows|
  {
    Ok(WithAuthors(db, SelectDescending(db.comments.rows, OnPost(blogId), CommentedAt())))
  }

  /** The listing holds every comment on the post exactly as often as the
      table does and nothing else, newest first, each with its author. */
  lemma GetCommentsLists(db: Db, blogId: int)
    ensures var r := GetComments(db, blogId);
      && r.Ok?
      && (forall c :: multiset(Rows(r.body))[c] == if c.data.blogId == blogId then multiset(db.comments.rows)[c] else 0)
      && (forall c :: c in Rows(r.body) <==> c in db.comments.rows && c.data.blogId == blogId)
      && (forall i, j :: 0 <= i < j < |r.body| ==> r.body[i].comment.data.commentedAt >= r.body[j].comment.data.commentedAt)
      && (forall i :: 0 <= i < |r.body| ==> r.body[i].user == Find(db.users, r.body[i].comment.data.userId))
  {
    var rows := SelectDescending(db.comments.rows, OnPost(blogId), CommentedAt());
    SelectDescendingLists(db.comments.rows, OnPost(blogId), CommentedAt());
    assert Rows(GetComments(db, blogId).body) == rows;
  }

  /** The row `AddBlogComment` builds: the text and post from the request,
      the caller as author, stamped now. */
  function NewComment(caller: Principal, dto: CommentSaveDto, now: int): BlogComment {
    BlogComment(dto.comment, now, dto.blogId, CallerId(caller))
  }

  /** `AddBlogComment`. Nothing checks that the post exists before the
      save: a missing post, an unknown caller or an over-long text is a
      refused save, which escapes as a 500. */
  function AddComment(db: Db, caller: Principal, dto: CommentSaveDto, now: int, audit: Option<Exception>)
    : (o: Outcome<Row<BlogComment>>)
    ensures !IsRequiredText(dto.comment) ==> o == Outcome(BadRequest(ValidationFailedMessage), db)
    ensures o.response.Ok? ==> o.response.body == Row(db.comments.nextId, NewComment(caller, dto, now))
    ensures o.db == db || o.db == db.(comments := Insert(db.comments, NewComment(caller, dto, now)))
  {
    if !IsRequiredText(dto.comment) then Outcome(BadRequest(ValidationFailedMessage), db)
    else
      var c := NewComment(caller, dto, now);
      match SaveChanges(db.(comments := Insert(db.comments, c)))
      case Failure(e) => Outcome(ServerError(e.message), db)
      case Success(db1) =>
        if audit.Some? then Outcome(ServerError(audit.value.message), db1)
        else Outcome(Ok(Row(db.comments.nextId, c)), db1)
  }

  /** A valid request is stored iff the post and the caller exist and the
      text fits its column; the new comment is then found under the next
      key, and the response is `Ok` unless the audit write fails. */
  lemma AddCommentStored(db: Db, caller: Principal, dto: CommentSaveDto, now: int, audit: Option<Exception>)
    requires Valid(db)
    requires IsRequiredText(dto.comment)
    ensures var o := AddComment(db, caller, dto, now, audit);
      var accepted := dto.blogId in Ids(db.blogs) && CallerId(caller) in Ids(db.users) && Utf16Length(dto.comment) <= CommentMaxLength;
      && Valid(o.db)
      && (accepted ==> Find(o.db.comments, db.comments.nextId) == Some(BlogComment(dto.comment, now, dto.blogId, CallerId(caller))))
      && (accepted ==> (o.response.Ok? <==> audit.None?))
      && (accepted && audit.Some? ==> o.response == ServerError(audit.value.message))
      && (!accepted ==> o == Outcome(ServerError(DbUpdateMessage), db))
  {
    var c := NewComment(caller, dto, now);
    InsertCommentValid(db, c);
    InsertFound(db.comments, c, 0);
  }

  /** The 500-character limit counts UTF-16 code units: a comment of 300
      emoji is 600 units long, so the save is refused and the request
      answers 500, although the text has only 300 characters. */
  lemma WideCommentRefused(db: Db, caller: Principal, blogId: int, now: int, audit: Option<Exception>)
    requires Valid(db)
    ensures var text := seq(300, _ => '\U{1F600}');
      && |text| == 300
      && AddComment(db, caller, CommentSaveDto(text, blogId), now, audit) == Outcome(ServerError(DbUpdateMessage), db)
  {
    var text := seq(300, _ => '\U{1F600}');
    assert forall i :: 0 <= i < |text| ==> IsSupplementary(text[i]);
    Utf16LengthExtremes(text);
    assert !IsWhiteSpace(text[0]);
    AddCommentStored(db, caller, CommentSaveDto(text, blogId), now, audit);
  }

  /** `EditBlogComment`, parameterised by the claim type it reads the
      caller's role from. */
  function EditCommentReading(roleClaimType: string, db: Db, caller: Principal, dto: CommentEditDto, now: int,
                              audit: Option<Exception>): (o: Outcome<Row<BlogComment>>)
    ensures o.response.NotFound? <==> IsRequiredText(dto.comment) && dto.blogCommentId !in Ids(db.comments)
    ensures o.response.Forbid? <==>
      && IsRequiredText(dto.comment)
      && dto.blogCommentId in Ids(db.comments)
      && Find(db.comments, dto.blogCommentId).value.userId != CallerId(caller)
      && !FirstClaimIsAdmin(caller, roleClaimType)
    ensures o.response.NotFound? || o.response.Forbid? || o.response.BadRequest? ==> o.db == db
  {
    if !IsRequiredText(dto.comment) then Outcome(BadRequest(ValidationFailedMessage), db)
    else
      match Find(db.comments, dto.blogCommentId)
      case None => Outcome(NotFound(""), db)
      case Some(c) =>
        if c.userId == CallerId(caller) || FirstClaimIsAdmin(caller, roleClaimType) then
          var edited := c.(comment := dto.comment, commentedAt := now);
          match SaveChanges(db.(comments := Replace(db.comments, dto.blogCommentId, edited)))
          case Failure(e) => Outcome(ServerError(e.message), db)
          case Success(db1) =>
            if audit.Some? then Outcome(ServerError(audit.value.message), db1)
            else Outcome(Ok(Row(dto.blogCommentId, edited)), db1)
        else Outcome(Forbid, db)
  }

  /** The action as written: the administrator test looks for a claim
      typed `"role"`. */
  function EditCommentAsWritten(db: Db, caller: Principal, dto: CommentEditDto, now: int, audit: Option<Exception>)
    : (o: Outcome<Row<BlogComment>>)
    ensures o.response.Forbid? <==>
      && IsRequiredText(dto.comment)
      && dto.blogCommentId in Ids(db.comments)
      && Find(db.comments, dto.blogCommentId).value.userId != CallerId(caller)
      && !FirstClaimIsAdmin(caller, ShortRoleClaimType)
  {
    EditCommentReading(ShortRoleClaimType, db, caller, dto, now, audit)
  }

  /** The action as its documentation describes it: the author or an
      administrator may edit, the role read where the token puts it. */
  function EditComment(db: Db, caller: Principal, dto: CommentEditDto, now: int, audit: Option<Exception>)
    : (o: Outcome<Row<BlogComment>>)
    ensures o.response.Forbid? <==>
      && IsRequiredText(dto.comment)
      && dto.blogCommentId in Ids(db.comments)
      && Find(db.comments, dto.blogCommentId).value.userId != CallerId(caller)
      && !FirstClaimIsAdmin(caller, RoleClaimType)
  {
    EditCommentReading(RoleClaimType, db, caller, dto, now, audit)
  }

  /** A permitted edit changes only the text and the time of that one
      comment, and is saved iff the new text fits its column. */
  lemma EditCommentStored(roleClaimType: string, db: Db, caller: Principal, dto: CommentEditDto, now: int,
                          audit: Option<Exception>)
    requires Valid(db)
    requires IsRequiredText(dto.comment)
    requires dto.blogCommentId in Ids(db.comments)
    requires Find(db.comments, dto.blogCommentId).value.userId == CallerId(caller) || FirstClaimIsAdmin(caller, roleClaimType)
    ensures var o := EditCommentReading(roleClaimType, db, caller, dto, now, audit);
      var before := Find(db.comments, dto.blogCommentId).value;
      && Valid(o.db)
      && (Utf16Length(dto.comment) <= CommentMaxLength ==>
            && Find(o.db.comments, dto.blogCommentId) == Some(BlogComment(dto.comment, now, before.blogId, before.userId))
            && (forall other :: other != dto.blogCommentId ==> Find(o.db.comments, other) == Find(db.comments, other))
            && o.db.(comments := db.comments) == db
            && (o.response.Ok? <==> audit.None?))
      && (Utf16Length(dto.comment) > CommentMaxLength ==> o == Outcome(ServerError(DbUpdateMessage), db))
  {
    var id := dto.blogCommentId;
    var before := Find(db.comments, id).value;
    var edited := before.(comment := dto.comment, commentedAt := now);
    ReplaceCommentValid(db, id, edited);
    forall other | other != id ensures Find(Replace(db.comments, id, edited), other) == Find(db.comments, other) {
      ReplaceFound(db.comments, id, edited, other);
    }
    ReplaceFound(db.comments, id, edited, id);
  }

  /** An administrator signed in through the login endpoint cannot edit
      someone else's comment as written, since the token carries no claim
      typed `"role"`; the corrected action lets them. */
  lemma EditCommentAsWrittenRefusesAdmins(db: Db, adminId: int, name: string, dto: CommentEditDto, now: int,
                                         audit: Option<Exception>)
    requires Valid(db)
    requires IsRequiredText(dto.comment) && Utf16Length(dto.comment) <= CommentMaxLength
    requires dto.blogCommentId in Ids(db.comments)
    requires Find(db.comments, dto.blogCommentId).value.userId != adminId
    ensures var admin := IssuedPrincipal(adminId, name, AdminRole);
      && EditCommentAsWritten(db, admin, dto, now, audit).response == Forbid
      && EditComment(db, admin, dto, now, audit).response != Forbid
      && (audit.None? ==> EditComment(db, admin, dto, now, audit).response.Ok?)
  {
    var admin := IssuedPrincipal(adminId, name, AdminRole);
    IssuedPrincipalRoles(adminId, name, AdminRole);
    EditCommentStored(RoleClaimType, db, admin, dto, now, audit);
  }

  /** `DeleteBlogComment`: the role is read under the long claim type. */
  function DeleteComment(db: Db, caller: Principal, commentId: int, audit: Option<Exception>): (o: Outcome<()>)
    ensures o.response.NotFound? <==> commentId !in Ids(db.comments)
    ensures o.response.Forbid? <==>
      && commentId in Ids(db.comments)
      && Find(db.comments, commentId).value.userId != CallerId(caller)
      && !FirstClaimIsAdmin(caller, RoleClaimType)
    ensures o.response.NotFound? || o.response.Forbid? ==> o.db == db
  {
    match Find(db.comments, commentId)
    case None => Outcome(NotFound(""), db)
    case Some(c) =>
      if c.userId == CallerId(caller) || FirstClaimIsAdmin(caller, RoleClaimType) then
        match SaveChanges(db.(comments := RemoveId(db.comments, commentId)))
        case Failure(e) => Outcome(ServerError(e.message), db)
        case Success(db1) =>
          if audit.Some? then Outcome(ServerError(audit.value.message), db1)
          else Outcome(Ok(()), db1)
      else Outcome(Forbid, db)
  }

  /** A permitted delete removes exactly that comment and is always saved;
      asking again finds nothing. */
  lemma DeleteCommentRemoves(db: Db, caller: Principal, commentId: int, audit: Option<Exception>)
    requires Valid(db)
    requires commentId in Ids(db.comments)
    requires Find(db.comments, commentId).value.userId == CallerId(caller) || FirstClaimIsAdmin(caller, RoleClaimType)
    ensures var o := DeleteComment(db, caller, commentId, audit);
      && Valid(o.db)
      && (o.response.Ok? <==> audit.None?)
      && Ids(o.db.comments) == Ids(db.comments) - {commentId}
      && (forall other :: other != commentId ==> Find(o.db.comments, other) == Find(db.comments, other))
      && o.db.(comments := db.comments) == db
      && DeleteComment(o.db, caller, commentId, audit).response == NotFound("")
  {
    RemoveLeafValid(db, commentId);
    RemoveIdKeys(db.comments, commentId);
    forall other | other != commentId ensures Find(RemoveId(db.comments, commentId), other) == Find(db.comments, other) {
      RemoveIdFound(db.comments, commentId, other);
    }
  }
}
