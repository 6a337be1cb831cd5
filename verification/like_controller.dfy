/** `BlogLikeController`: listing the likes on a post, adding a like as
    the caller and withdrawing the caller's own like. The unique index on
    (post, user) is what stops a second like: nothing checks it first. */
module LikeController {
  import opened Base
  import opened Tables
  import opened Schema
  import opened Ordering
  import opened Claims

  /** A like with the user who gave it (`Include(c => c.User)`). */
  datatype LikeView = LikeView(like: Row<BlogLike>, user: Option<User>)

  datatype LikeSaveDto = LikeSaveDto(like: bool, blogId: int)

  function OnPost(blogId: int): (p: Row<BlogLike> -> bool)
    ensures forall l :: p(l) <==> l.data.blogId == blogId
  {
    (l: Row<BlogLike>) => l.data.blogId == blogId
  }

  function LikedAt(): (key: Row<BlogLike> -> int)
    ensures forall l :: key(l) == l.data.likedAt
  {
    (l: Row<BlogLike>) => l.data.likedAt
  }

  function WithUsers(db: Db, rows: seq<Row<BlogLike>>): (r: seq<LikeView>)
    ensures |r| == |rows|
    ensures forall i :: 0 <= i < |r| ==> r[i].like == rows[i] && r[i].user == Find(db.users, rows[i].data.userId)
  {
    seq(|rows|, i requires 0 <= i < |rows| => LikeView(rows[i], Find(db.users, rows[i].data.userId)))
  }

  /** The like rows of a list of views, in order. */
  function Rows(vs: seq<LikeView>): (r: seq<Row<BlogLike>>)
    ensures |r| == |vs| && forall i :: 0 <= i < |vs| ==> r[i] == vs[i].like
  {
    seq(|vs|, i requires 0 <= i < |vs| => vs[i].like)
  }

  /** `GetLikesByBlogId`. */
  function GetLikes(db: Db, blogId: int): (r: Response<seq<LikeView>>)
    ensures r.Ok? && |r.body| <= |db.likes.rows|
  {
    Ok(WithUsers(db, SelectDescending(db.likes.rows, OnPost(blogId), LikedAt())))
  }

  /** The listing holds every like on the post and nothing else, most
      recent first, each with its user. */
  lemma GetLikesLists(db: Db, blogId: int)
    ensures var r := GetLikes(db, blogId);
      && r.Ok?
      && (forall l :: multiset(Rows(r.body))[l] == if l.data.blogId == blogId then multiset(db.likes.rows)[l] else 0)
      && (forall l :: l in Rows(r.body) <==> l in db.likes.rows && l.data.blogId == blogId)
      && (forall i, j :: 0 <= i < j < |r.body| ==> r.body[i].like.data.likedAt >= r.body[j].like.data.likedAt)
      && (forall i :: 0 <= i < |r.body| ==> r.body[i].user == Find(db.users, r.body[i].like.data.userId))
  {
    var rows := SelectDescending(db.likes.rows, OnPost(blogId), LikedAt());
    SelectDescendingLists(db.likes.rows, OnPost(blogId), LikedAt());
    assert Rows(GetLikes(db, blogId).body) == rows;
  }

  function NewLike(caller: Principal, dto: LikeSaveDto, now: int): BlogLike {
    BlogLike(dto.like, now, dto.blogId, CallerId(caller))
  }

  /** `AddBlogLike`: a refused save escapes as a 500. */
  function AddLike(db: Db, caller: Principal, dto: LikeSaveDto, now: int, audit: Option<Exception>)
    : (o: Outcome<Row<BlogLike>>)
    ensures o.response.Ok? ==> o.response.body == Row(db.likes.nextId, NewLike(caller, dto, now))
    ensures o.db == db || o.db == db.(likes := Insert(db.likes, NewLike(caller, dto, now)))
    ensures o.response.Ok? || o.response.ServerError?
  {
    var l := NewLike(caller, dto, now);
    match SaveChanges(db.(likes := Insert(db.likes, l)))
    case Failure(e) => Outcome(ServerError(e.message), db)
    case Success(db1) =>
      if audit.Some? then Outcome(ServerError(audit.value.message), db1)
      else Outcome(Ok(Row(db.likes.nextId, l)), db1)
  }

  /** A like is stored iff the post and the caller exist and the caller
      has not liked that post yet; otherwise nothing changes. */
  lemma AddLikeStored(db: Db, caller: Principal, dto: LikeSaveDto, now: int, audit: Option<Exception>)
    requires Valid(db)
    ensures var o := AddLike(db, caller, dto, now, audit);
      var accepted := dto.blogId in Ids(db.blogs) && CallerId(caller) in Ids(db.users)
                      && LikeFree(db.likes, dto.blogId, CallerId(caller));
      && Valid(o.db)
      && (accepted ==> Find(o.db.likes, db.likes.nextId) == Some(BlogLike(dto.like, now, dto.blogId, CallerId(caller))))
      && (accepted ==> (o.response.Ok? <==> audit.None?))
      && (!accepted ==> o == Outcome(ServerError(DbUpdateMessage), db))
  {
    var l := NewLike(caller, dto, now);
    InsertLikeValid(db, l);
    InsertFound(db.likes, l, 0);
  }

  /** Liking the same post twice: the second request is refused and
      leaves the database as the first one left it. */
  lemma AddLikeTwiceRefused(db: Db, caller: Principal, dto: LikeSaveDto, now: int, later: int,
                            audit: Option<Exception>, audit2: Option<Exception>)
    requires Valid(db)
    ensures var o := AddLike(db, caller, dto, now, audit);
      var o2 := AddLike(o.db, caller, dto, later, audit2);
      o2 == Outcome(ServerError(DbUpdateMessage), o.db)
  {
    var l := NewLike(caller, dto, now);
    var o := AddLike(db, caller, dto, now, audit);
    AddLikeStored(db, caller, dto, now, audit);
    if o.db != db {
      var k := |db.likes.rows|;
      assert o.db.likes.rows[k] == Row(db.likes.nextId, l);
      assert !LikeFree(o.db.likes, dto.blogId, CallerId(caller));
    }
    InsertLikeValid(o.db, NewLike(caller, dto, later));
  }

  function Mine(blogId: int, userId: int): (p: Row<BlogLike> -> bool)
    ensures forall l :: p(l) <==> l.data.blogId == blogId && l.data.userId == userId
  {
    (l: Row<BlogLike>) => l.data.blogId == blogId && l.data.userId == userId
  }

  /** `DeleteBlogLike`: removes the caller's like on the post, if any. */
  function DeleteLike(db: Db, caller: Principal, blogId: int, audit: Option<Exception>): (o: Outcome<()>)
    ensures o.response.NotFound? <==> LikeFree(db.likes, blogId, CallerId(caller))
    ensures o.response.NotFound? ==> o.db == db
  {
    match FirstWhere(db.likes.rows, Mine(blogId, CallerId(caller)))
    case None => Outcome(NotFound(""), db)
    case Some(l) =>
      match SaveChanges(db.(likes := RemoveId(db.likes, l.id)))
      case Failure(e) => Outcome(ServerError(e.message), db)
      case Success(db1) =>
        if audit.Some? then Outcome(ServerError(audit.value.message), db1)
        else Outcome(Ok(()), db1)
  }

  /** In a table with unique (post, user) pairs, dropping the one row with
      a pair drops exactly the rows with that pair. */
  lemma RemoveMatching(likes: Table<BlogLike>, k: nat, blogId: int, userId: int)
    requires WellFormed(likes) && UniqueLikes(likes)
    requires k < |likes.rows| && likes.rows[k].data.blogId == blogId && likes.rows[k].data.userId == userId
    ensures forall x :: x in RemoveId(likes, likes.rows[k].id).rows <==>
      x in likes.rows && (x.data.blogId, x.data.userId) != (blogId, userId)
  {
    var id := likes.rows[k].id;
    forall x | x in likes.rows && x.id != id ensures (x.data.blogId, x.data.userId) != (blogId, userId) {
      var i :| 0 <= i < |likes.rows| && likes.rows[i] == x;
      assert i != k;
    }
  }

  /** Withdrawing a like always saves and removes exactly the caller's
      like on that post. */
  lemma DeleteLikeRemoves(db: Db, caller: Principal, blogId: int, audit: Option<Exception>)
    requires Valid(db)
    requires !LikeFree(db.likes, blogId, CallerId(caller))
    ensures var o := DeleteLike(db, caller, blogId, audit);
      && Valid(o.db)
      && (o.response.Ok? <==> audit.None?)
      && (forall x :: x in o.db.likes.rows <==> x in db.likes.rows && (x.data.blogId, x.data.userId) != (blogId, CallerId(caller)))
      && LikeFree(o.db.likes, blogId, CallerId(caller))
      && o.db.(likes := db.likes) == db
  {
    var l := FirstWhere(db.likes.rows, Mine(blogId, CallerId(caller))).value;
    var k :| 0 <= k < |db.likes.rows| && db.likes.rows[k] == l;
    var nl := RemoveId(db.likes, l.id);
    RemoveLeafValid(db, l.id);
    assert DeleteLike(db, caller, blogId, audit).db == db.(likes := nl);
    RemoveMatching(db.likes, k, blogId, CallerId(caller));
    forall i | 0 <= i < |nl.rows| ensures (nl.rows[i].data.blogId, nl.rows[i].data.userId) != (blogId, CallerId(caller)) {
      assert nl.rows[i] in nl.rows;
    }
  }

  /** After a withdrawal the caller has no like on the post, so a second
      withdrawal answers 404 and changes nothing. */
  lemma DeleteLikeTwiceNotFound(db: Db, caller: Principal, blogId: int, audit: Option<Exception>, audit2: Option<Exception>)
    requires Valid(db)
    ensures var o := DeleteLike(db, caller, blogId, audit);
      var o2 := DeleteLike(o.db, caller, blogId, audit2);
      o2 == Outcome(NotFound(""), o.db)
  {
    var o := DeleteLike(db, caller, blogId, audit);
    if !LikeFree(db.likes, blogId, CallerId(caller)) {
      DeleteLikeRemoves(db, caller, blogId, audit);
    }
  }
}
