/** `BloggingContext`: the tables, the constraints `OnModelCreating`
    configures (unique indexes, foreign keys with restrict or cascade
    delete, column lengths), and `SaveChanges`, which commits a proposed
    state only when every constraint holds. Timestamps are integer ticks. */
module Schema {
  import opened Base
  import opened Text
  import opened Tables

  datatype User = User(
    userName: string,
    passwordHash: string,
    email: string,
    website: Option<string>,
    profileImagePath: Option<string>,
    role: string,
    emailConfirmed: bool,
    emailConfirmationToken: Option<string>,
    emailConfirmationTokenExpires: Option<int>)

  datatype BlogCategory = BlogCategory(categoryName: string, description: string)

  datatype Blog = Blog(
    title: string,
    content: string,
    slug: string,
    createdAt: int,
    blogCategoryId: Option<int>,
    authorId: int)

  datatype BlogImage = BlogImage(blogId: int, imageUrl: string, altText: Option<string>, createdAt: int)

  datatype BlogComment = BlogComment(comment: string, commentedAt: int, blogId: int, userId: int)

  datatype BlogLike = BlogLike(like: bool, likedAt: int, blogId: int, userId: int)

  datatype ToDo = ToDo(
    task: string,
    taskDateTime: int,
    taskAssignedForDateTime: int,
    isCompleted: bool,
    entryByUserId: int)

  datatype Db = Db(
    users: Table<User>,
    categories: Table<BlogCategory>,
    blogs: Table<Blog>,
    images: Table<BlogImage>,
    comments: Table<BlogComment>,
    likes: Table<BlogLike>,
    todos: Table<ToDo>)

  /** What an action that only touches the database yields: its response
      and the database state afterwards. */
  datatype Outcome<+T> = Outcome(response: Response<T>, db: Db)

  /** Column sizes from the entity annotations and the fluent configuration. */
  const UserNameMaxLength := 30
  const EmailMaxLength := 50
  const WebsiteMaxLength := 30
  const EmailConfirmationTokenMaxLength := 100
  const CommentMaxLength := 500
  const AltTextMaxLength := 100
  /** `Blog.Slug` has no configured length, but it carries an index, and
      SQL Server maps an indexed string of unset length to nvarchar(450)
      (nvarchar(max) cannot be indexed). */
  const SlugMaxLength := 450

  /** What `DbUpdateException` says when the database refuses a save. */
  const DbUpdateMessage := "An error occurred while saving the entity changes. See the inner exception for details."

  predicate KeysWellFormed(db: Db) {
    && WellFormed(db.users) && WellFormed(db.categories) && WellFormed(db.blogs)
    && WellFormed(db.images) && WellFormed(db.comments) && WellFormed(db.likes)
    && WellFormed(db.todos)
  }

  /** Unique index on `Blog.Slug`. */
  predicate UniqueSlugs(blogs: Table<Blog>) {
    forall i, j :: 0 <= i < j < |blogs.rows| ==> blogs.rows[i].data.slug != blogs.rows[j].data.slug
  }

  /** Unique indexes on `User.Email` and `User.UserName`. */
  predicate UniqueUsers(users: Table<User>) {
    forall i, j :: 0 <= i < j < |users.rows| ==>
      && users.rows[i].data.email != users.rows[j].data.email
      && users.rows[i].data.userName != users.rows[j].data.userName
  }

  /** Unique index on `(BlogLike.BlogId, BlogLike.UserId)`. */
  predicate UniqueLikes(likes: Table<BlogLike>) {
    forall i, j :: 0 <= i < j < |likes.rows| ==>
      (likes.rows[i].data.blogId, likes.rows[i].data.userId) != (likes.rows[j].data.blogId, likes.rows[j].data.userId)
  }

  /** A post's author and (optional) category exist. */
  predicate BlogsResolve(blogs: Table<Blog>, users: Table<User>, categories: Table<BlogCategory>) {
    forall i :: 0 <= i < |blogs.rows| ==>
      && blogs.rows[i].data.authorId in Ids(users)
      && (blogs.rows[i].data.blogCategoryId.Some? ==> blogs.rows[i].data.blogCategoryId.value in Ids(categories))
  }

  predicate ImagesResolve(images: Table<BlogImage>, blogs: Table<Blog>) {
    forall i :: 0 <= i < |images.rows| ==> images.rows[i].data.blogId in Ids(blogs)
  }

  predicate CommentsResolve(comments: Table<BlogComment>, blogs: Table<Blog>, users: Table<User>) {
    forall i :: 0 <= i < |comments.rows| ==>
      comments.rows[i].data.blogId in Ids(blogs) && comments.rows[i].data.userId in Ids(users)
  }

  predicate LikesResolve(likes: Table<BlogLike>, blogs: Table<Blog>, users: Table<User>) {
    forall i :: 0 <= i < |likes.rows| ==>
      likes.rows[i].data.blogId in Ids(blogs) && likes.rows[i].data.userId in Ids(users)
  }

  predicate UserFits(u: User) {
    && Utf16Length(u.userName) <= UserNameMaxLength
    && Utf16Length(u.email) <= EmailMaxLength
    && (u.website.Some? ==> Utf16Length(u.website.value) <= WebsiteMaxLength)
    && (u.emailConfirmationToken.Some? ==> Utf16Length(u.emailConfirmationToken.value) <= EmailConfirmationTokenMaxLength)
  }

  predicate ImageFits(m: BlogImage) {
    m.altText.Some? ==> Utf16Length(m.altText.value) <= AltTextMaxLength
  }

  predicate SlugFits(slug: string) {
    Utf16Length(slug) <= SlugMaxLength
  }

  predicate BlogFits(b: Blog) {
    SlugFits(b.slug)
  }

  predicate CommentFits(c: BlogComment) {
    Utf16Length(c.comment) <= CommentMaxLength
  }

  predicate ColumnsFit(db: Db) {
    && (forall i :: 0 <= i < |db.users.rows| ==> UserFits(db.users.rows[i].data))
    && (forall i :: 0 <= i < |db.blogs.rows| ==> BlogFits(db.blogs.rows[i].data))
    && (forall i :: 0 <= i < |db.images.rows| ==> ImageFits(db.images.rows[i].data))
    && (forall i :: 0 <= i < |db.comments.rows| ==> CommentFits(db.comments.rows[i].data))
  }

  /** Every constraint the database enforces. */
  predicate Valid(db: Db) {
    && KeysWellFormed(db)
    && UniqueSlugs(db.blogs)
    && UniqueUsers(db.users)
    && UniqueLikes(db.likes)
    && BlogsResolve(db.blogs, db.users, db.categories)
    && ImagesResolve(db.images, db.blogs)
    && CommentsResolve(db.comments, db.blogs, db.users)
    && LikesResolve(db.likes, db.blogs, db.users)
    && ColumnsFit(db)
  }

  function EmptyDb(): Db {
    Db(Empty(), Empty(), Empty(), Empty(), Empty(), Empty(), Empty())
  }

  lemma EmptyDbValid()
    ensures Valid(EmptyDb())
  {
    EmptyWellFormed<User>();
    EmptyWellFormed<BlogCategory>();
    EmptyWellFormed<Blog>();
    EmptyWellFormed<BlogImage>();
    EmptyWellFormed<BlogComment>();
    EmptyWellFormed<BlogLike>();
    EmptyWellFormed<ToDo>();
  }

  /** `SaveChangesAsync`: the proposed state (the current one plus every
      tracked change) is committed atomically, or refused as a whole. */
  function SaveChanges(proposed: Db): (r: Result<Db>)
    ensures r.Success? <==> Valid(proposed)
    ensures r.Success? ==> r.value == proposed
    ensures r.Failure? ==> r.error == DbUpdateException(DbUpdateMessage)
  {
    if Valid(proposed) then Success(proposed) else Failure(DbUpdateException(DbUpdateMessage))
  }

  /** The image rows of a post (`Include(b => b.Images)`). */
  function ImagesOf(db: Db, blogId: int): (r: seq<Row<BlogImage>>)
    ensures forall x :: x in r <==> x in db.images.rows && x.data.blogId == blogId
  {
    FilterRows(db.images.rows, (x: Row<BlogImage>) => x.data.blogId == blogId)
  }

  // ---------------------------------------------------------------------
  // Deletion: cascade removes dependents, restrict leaves them dangling so
  // that the save is refused.
  // ---------------------------------------------------------------------

  /** Removing a post: its images, comments and likes go with it. */
  function RemoveBlog(db: Db, id: int): (r: Db)
    ensures r.users == db.users && r.categories == db.categories && r.todos == db.todos
    ensures forall x :: x in r.blogs.rows <==> x in db.blogs.rows && x.id != id
    ensures forall x :: x in r.images.rows <==> x in db.images.rows && x.data.blogId != id
    ensures forall x :: x in r.comments.rows <==> x in db.comments.rows && x.data.blogId != id
    ensures forall x :: x in r.likes.rows <==> x in db.likes.rows && x.data.blogId != id
  {
    db.(blogs := RemoveId(db.blogs, id),
        images := Filter(db.images, (x: Row<BlogImage>) => x.data.blogId != id),
        comments := Filter(db.comments, (x: Row<BlogComment>) => x.data.blogId != id),
        likes := Filter(db.likes, (x: Row<BlogLike>) => x.data.blogId != id))
  }

  /** Removing a user: their comments and likes go with them; their posts
      stay, which the author foreign key then refuses. */
  function RemoveUser(db: Db, id: int): (r: Db)
    ensures r.categories == db.categories && r.blogs == db.blogs && r.images == db.images
    ensures r.todos == db.todos
    ensures forall x :: x in r.users.rows <==> x in db.users.rows && x.id != id
    ensures forall x :: x in r.comments.rows <==> x in db.comments.rows && x.data.userId != id
    ensures forall x :: x in r.likes.rows <==> x in db.likes.rows && x.data.userId != id
  {
    db.(users := RemoveId(db.users, id),
        comments := Filter(db.comments, (x: Row<BlogComment>) => x.data.userId != id),
        likes := Filter(db.likes, (x: Row<BlogLike>) => x.data.userId != id))
  }

  /** Removing a category: nothing cascades. */
  function RemoveCategory(db: Db, id: int): (r: Db)
    ensures r == db.(categories := r.categories)
    ensures forall x :: x in r.categories.rows <==> x in db.categories.rows && x.id != id
  {
    db.(categories := RemoveId(db.categories, id))
  }

  predicate ReferencesBlog(db: Db, id: int) {
    || (exists i :: 0 <= i < |db.images.rows| && db.images.rows[i].data.blogId == id)
    || (exists i :: 0 <= i < |db.comments.rows| && db.comments.rows[i].data.blogId == id)
    || (exists i :: 0 <= i < |db.likes.rows| && db.likes.rows[i].data.blogId == id)
  }

  predicate CategoryInUse(db: Db, id: int) {
    exists i :: 0 <= i < |db.blogs.rows| && db.blogs.rows[i].data.blogCategoryId == Some(id)
  }

  predicate IsAuthor(db: Db, id: int) {
    exists i :: 0 <= i < |db.blogs.rows| && db.blogs.rows[i].data.authorId == id
  }

  /** Where a row sits in its table. */
  function Position<T(==)>(t: Table<T>, x: Row<T>): (k: nat)
    requires x in t.rows
    ensures k < |t.rows| && t.rows[k] == x
    decreases |t.rows|
  {
    if t.rows[0] == x then 0
    else
      assert x in t.rows[1..];
      1 + Position(Table(t.rows[1..], t.nextId), x)
  }

  /** Removing a key from a table leaves its other keys. */
  lemma RemovedIds<T(!new)>(t: Table<T>, id: int, k: int)
    requires WellFormed(t)
    ensures k in Ids(RemoveId(t, id)) <==> k in Ids(t) && k != id
  {
    RemoveIdKeys(t, id);
  }

  /** Filtering a table by a predicate on rows keeps it well formed. */
  lemma FilteredWellFormed<T(!new)>(t: Table<T>, keep: Row<T> -> bool)
    requires WellFormed(t)
    ensures WellFormed(Filter(t, keep))
  {
    FilterWellFormed(t, keep);
  }

  /** Deleting a post never violates a constraint: the cascade takes every
      row that pointed at it, and no other table refers to posts. */
  lemma RemoveBlogValid(db: Db, id: int)
    requires Valid(db)
    ensures Valid(RemoveBlog(db, id))
    ensures !ReferencesBlog(RemoveBlog(db, id), id)
    ensures Find(RemoveBlog(db, id).blogs, id).None?
  {
    var r := RemoveBlog(db, id);
    RemoveIdKeys(db.blogs, id);
    FilteredWellFormed(db.images, (x: Row<BlogImage>) => x.data.blogId != id);
    FilteredWellFormed(db.comments, (x: Row<BlogComment>) => x.data.blogId != id);
    FilteredWellFormed(db.likes, (x: Row<BlogLike>) => x.data.blogId != id);
    RemoveBlogUnique(db, id);
    RemoveBlogResolves(db, id);
    RemoveBlogFits(db, id);
  }

  lemma RemoveBlogUnique(db: Db, id: int)
    requires WellFormed(db.blogs) && WellFormed(db.likes)
    requires UniqueSlugs(db.blogs) && UniqueLikes(db.likes)
    ensures UniqueSlugs(RemoveBlog(db, id).blogs)
    ensures UniqueLikes(RemoveBlog(db, id).likes)
  {
    var r := RemoveBlog(db, id);
    RemoveIdKeys(db.blogs, id);
    FilteredWellFormed(db.likes, (x: Row<BlogLike>) => x.data.blogId != id);
    forall i, j | 0 <= i < j < |r.blogs.rows| ensures r.blogs.rows[i].data.slug != r.blogs.rows[j].data.slug {
      var a, b := Position(db.blogs, r.blogs.rows[i]), Position(db.blogs, r.blogs.rows[j]);
      assert a != b;
    }
    forall i, j | 0 <= i < j < |r.likes.rows|
      ensures (r.likes.rows[i].data.blogId, r.likes.rows[i].data.userId) != (r.likes.rows[j].data.blogId, r.likes.rows[j].data.userId)
    {
      var a, b := Position(db.likes, r.likes.rows[i]), Position(db.likes, r.likes.rows[j]);
      assert a != b;
    }
  }

  lemma RemoveBlogResolves(db: Db, id: int)
    requires Valid(db)
    ensures var r := RemoveBlog(db, id);
      && BlogsResolve(r.blogs, r.users, r.categories)
      && ImagesResolve(r.images, r.blogs)
      && CommentsResolve(r.comments, r.blogs, r.users)
      && LikesResolve(r.likes, r.blogs, r.users)
  {
    var r := RemoveBlog(db, id);
    RemoveIdKeys(db.blogs, id);
    forall i | 0 <= i < |r.blogs.rows| ensures r.blogs.rows[i].data.authorId in Ids(r.users)
      && (r.blogs.rows[i].data.blogCategoryId.Some? ==> r.blogs.rows[i].data.blogCategoryId.value in Ids(r.categories))
    {
      assert r.blogs.rows[i] in db.blogs.rows;
    }
    forall i | 0 <= i < |r.images.rows| ensures r.images.rows[i].data.blogId in Ids(r.blogs) {
      assert r.images.rows[i] in db.images.rows;
    }
    forall i | 0 <= i < |r.comments.rows|
      ensures r.comments.rows[i].data.blogId in Ids(r.blogs) && r.comments.rows[i].data.userId in Ids(r.users)
    {
      assert r.comments.rows[i] in db.comments.rows;
    }
    forall i | 0 <= i < |r.likes.rows|
      ensures r.likes.rows[i].data.blogId in Ids(r.blogs) && r.likes.rows[i].data.userId in Ids(r.users)
    {
      assert r.likes.rows[i] in db.likes.rows;
    }
  }

  lemma RemoveBlogFits(db: Db, id: int)
    requires Valid(db)
    ensures ColumnsFit(RemoveBlog(db, id))
  {
    var r := RemoveBlog(db, id);
    RemoveIdKeys(db.blogs, id);
    forall i | 0 <= i < |r.blogs.rows| ensures BlogFits(r.blogs.rows[i].data) {
      assert r.blogs.rows[i] in db.blogs.rows;
    }
    forall i | 0 <= i < |r.images.rows| ensures ImageFits(r.images.rows[i].data) {
      assert r.images.rows[i] in db.images.rows;
    }
    forall i | 0 <= i < |r.comments.rows| ensures CommentFits(r.comments.rows[i].data) {
      assert r.comments.rows[i] in db.comments.rows;
    }
  }

  /** Restrict on `Blog.BlogCategoryId`: deleting a category is saved iff
      no post refers to it. */
  lemma RemoveCategoryRestrict(db: Db, id: int)
    requires Valid(db)
    ensures Valid(RemoveCategory(db, id)) <==> !CategoryInUse(db, id)
  {
    var r := RemoveCategory(db, id);
    RemoveIdKeys(db.categories, id);
    if CategoryInUse(db, id) {
      var i :| 0 <= i < |db.blogs.rows| && db.blogs.rows[i].data.blogCategoryId == Some(id);
      assert id !in Ids(r.categories);
    } else {
      forall i | 0 <= i < |r.blogs.rows|
        ensures r.blogs.rows[i].data.blogCategoryId.Some? ==> r.blogs.rows[i].data.blogCategoryId.value in Ids(r.categories)
      {
        RemovedIds(db.categories, id, id);
      }
    }
  }

  /** Restrict on `Blog.AuthorId` with cascade on comments and likes:
      deleting a user is saved iff they author no post, and then takes
      their comments and likes. */
  lemma RemoveUserRestrict(db: Db, id: int)
    requires Valid(db)
    ensures Valid(RemoveUser(db, id)) <==> !IsAuthor(db, id)
  {
    var r := RemoveUser(db, id);
    RemoveIdKeys(db.users, id);
    if IsAuthor(db, id) {
      var i :| 0 <= i < |db.blogs.rows| && db.blogs.rows[i].data.authorId == id;
      assert id !in Ids(r.users);
    } else {
      FilteredWellFormed(db.comments, (x: Row<BlogComment>) => x.data.userId != id);
      FilteredWellFormed(db.likes, (x: Row<BlogLike>) => x.data.userId != id);
      RemoveUserUnique(db, id);
      RemoveUserResolves(db, id);
      RemoveUserFits(db, id);
    }
  }

  lemma RemoveUserUnique(db: Db, id: int)
    requires WellFormed(db.users) && WellFormed(db.likes)
    requires UniqueUsers(db.users) && UniqueLikes(db.likes)
    ensures UniqueUsers(RemoveUser(db, id).users)
    ensures UniqueLikes(RemoveUser(db, id).likes)
  {
    RemoveUserUniqueUsers(db.users, id);
    RemoveUserUniqueLikes(db.likes, id);
    assert RemoveUser(db, id).users == RemoveId(db.users, id);
    assert RemoveUser(db, id).likes == Filter(db.likes, (x: Row<BlogLike>) => x.data.userId != id);
  }

  lemma RemoveUserUniqueUsers(users: Table<User>, id: int)
    requires WellFormed(users) && UniqueUsers(users)
    ensures UniqueUsers(RemoveId(users, id))
  {
    var r := RemoveId(users, id);
    RemoveIdKeys(users, id);
    forall i, j | 0 <= i < j < |r.rows|
      ensures && r.rows[i].data.email != r.rows[j].data.email
              && r.rows[i].data.userName != r.rows[j].data.userName
    {
      var a, b := Position(users, r.rows[i]), Position(users, r.rows[j]);
      assert a != b;
    }
  }

  lemma RemoveUserUniqueLikes(likes: Table<BlogLike>, id: int)
    requires WellFormed(likes) && UniqueLikes(likes)
    ensures UniqueLikes(Filter(likes, (x: Row<BlogLike>) => x.data.userId != id))
  {
    var r := Filter(likes, (x: Row<BlogLike>) => x.data.userId != id);
    FilteredWellFormed(likes, (x: Row<BlogLike>) => x.data.userId != id);
    forall i, j | 0 <= i < j < |r.rows|
      ensures (r.rows[i].data.blogId, r.rows[i].data.userId) != (r.rows[j].data.blogId, r.rows[j].data.userId)
    {
      var a, b := Position(likes, r.rows[i]), Position(likes, r.rows[j]);
      assert a != b;
    }
  }

  lemma RemoveUserResolves(db: Db, id: int)
    requires Valid(db) && !IsAuthor(db, id)
    ensures var r := RemoveUser(db, id);
      && BlogsResolve(r.blogs, r.users, r.categories)
      && CommentsResolve(r.comments, r.blogs, r.users)
      && LikesResolve(r.likes, r.blogs, r.users)
  {
    var r := RemoveUser(db, id);
    RemoveIdKeys(db.users, id);
    forall i | 0 <= i < |r.blogs.rows| ensures r.blogs.rows[i].data.authorId in Ids(r.users) {
      RemovedIds(db.users, id, r.blogs.rows[i].data.authorId);
    }
    forall i | 0 <= i < |r.comments.rows| ensures r.comments.rows[i].data.userId in Ids(r.users) {
      assert r.comments.rows[i] in db.comments.rows;
      RemovedIds(db.users, id, r.comments.rows[i].data.userId);
    }
    forall i | 0 <= i < |r.comments.rows| ensures r.comments.rows[i].data.blogId in Ids(r.blogs) {
      assert r.comments.rows[i] in db.comments.rows;
    }
    forall i | 0 <= i < |r.likes.rows| ensures r.likes.rows[i].data.userId in Ids(r.users) {
      assert r.likes.rows[i] in db.likes.rows;
      RemovedIds(db.users, id, r.likes.rows[i].data.userId);
    }
    forall i | 0 <= i < |r.likes.rows| ensures r.likes.rows[i].data.blogId in Ids(r.blogs) {
      assert r.likes.rows[i] in db.likes.rows;
    }
  }

  lemma RemoveUserFits(db: Db, id: int)
    requires Valid(db)
    ensures ColumnsFit(RemoveUser(db, id))
  {
    var r := RemoveUser(db, id);
    forall i | 0 <= i < |r.users.rows| ensures UserFits(r.users.rows[i].data) {
      assert r.users.rows[i] in db.users.rows;
    }
    forall i | 0 <= i < |r.comments.rows| ensures CommentFits(r.comments.rows[i].data) {
      assert r.comments.rows[i] in db.comments.rows;
    }
  }

  // ---------------------------------------------------------------------
  // Insertion and update: when a save of one changed table is accepted.
  // ---------------------------------------------------------------------

  predicate SlugFree(blogs: Table<Blog>, slug: string) {
    forall i :: 0 <= i < |blogs.rows| ==> blogs.rows[i].data.slug != slug
  }

  predicate LikeFree(likes: Table<BlogLike>, blogId: int, userId: int) {
    forall i :: 0 <= i < |likes.rows| ==> (likes.rows[i].data.blogId, likes.rows[i].data.userId) != (blogId, userId)
  }

  /** Rows pointing at posts keep resolving when the set of post keys grows. */
  lemma ChildrenResolveWhenBlogsGrow(db: Db, blogs: Table<Blog>)
    requires ImagesResolve(db.images, db.blogs)
    requires CommentsResolve(db.comments, db.blogs, db.users)
    requires LikesResolve(db.likes, db.blogs, db.users)
    requires Ids(db.blogs) <= Ids(blogs)
    ensures ImagesResolve(db.images, blogs)
    ensures CommentsResolve(db.comments, blogs, db.users)
    ensures LikesResolve(db.likes, blogs, db.users)
  {
  }

  lemma InsertBlogUnique(blogs: Table<Blog>, b: Blog)
    requires UniqueSlugs(blogs)
    ensures UniqueSlugs(Insert(blogs, b)) <==> SlugFree(blogs, b.slug)
  {
    var nb := Insert(blogs, b);
    var n := |blogs.rows|;
    assert nb.rows == blogs.rows + [Row(blogs.nextId, b)];
    assert forall i :: 0 <= i < n ==> nb.rows[i] == blogs.rows[i];
    if SlugFree(blogs, b.slug) {
      forall i, j | 0 <= i < j < |nb.rows| ensures nb.rows[i].data.slug != nb.rows[j].data.slug {
        if j < n {
          assert nb.rows[j] == blogs.rows[j];
        }
      }
    }
    if UniqueSlugs(nb) {
      forall i | 0 <= i < n ensures blogs.rows[i].data.slug != b.slug {
        assert nb.rows[i].data.slug != nb.rows[n].data.slug;
      }
    }
  }

  lemma InsertBlogResolves(blogs: Table<Blog>, users: Table<User>, categories: Table<BlogCategory>, b: Blog)
    requires BlogsResolve(blogs, users, categories)
    ensures BlogsResolve(Insert(blogs, b), users, categories) <==>
      b.authorId in Ids(users) && (b.blogCategoryId.Some? ==> b.blogCategoryId.value in Ids(categories))
  {
    var nb := Insert(blogs, b);
    assert nb.rows == blogs.rows + [Row(blogs.nextId, b)];
    assert forall i :: 0 <= i < |blogs.rows| ==> nb.rows[i] == blogs.rows[i];
    assert nb.rows[|blogs.rows|].data == b;
  }

  lemma InsertBlogFits(blogs: Table<Blog>, b: Blog)
    requires forall i :: 0 <= i < |blogs.rows| ==> BlogFits(blogs.rows[i].data)
    ensures (forall i :: 0 <= i < |Insert(blogs, b).rows| ==> BlogFits(Insert(blogs, b).rows[i].data)) <==> BlogFits(b)
  {
    var nb := Insert(blogs, b);
    assert nb.rows == blogs.rows + [Row(blogs.nextId, b)];
    assert forall i :: 0 <= i < |blogs.rows| ==> nb.rows[i] == blogs.rows[i];
    assert nb.rows[|blogs.rows|].data == b;
  }

  /** Every stored post's slug fits its column. */
  lemma StoredSlugFits(db: Db, x: Row<Blog>)
    requires Valid(db) && x in db.blogs.rows
    ensures SlugFits(x.data.slug)
  {
    var i :| 0 <= i < |db.blogs.rows| && db.blogs.rows[i] == x;
  }

  /** Only the post constraints, and the children that point at posts,
      can change when only the posts do. */
  lemma BlogsSwapValid(db: Db, nb: Table<Blog>)
    requires Valid(db)
    requires Ids(db.blogs) <= Ids(nb)
    ensures Valid(db.(blogs := nb)) <==>
      && WellFormed(nb)
      && UniqueSlugs(nb)
      && BlogsResolve(nb, db.users, db.categories)
      && (forall i :: 0 <= i < |nb.rows| ==> BlogFits(nb.rows[i].data))
  {
    ChildrenResolveWhenBlogsGrow(db, nb);
  }

  /** Inserting a post is saved iff its slug is unused and fits its
      column, and its author and category exist. */
  lemma InsertBlogValid(db: Db, b: Blog)
    requires Valid(db)
    ensures Valid(db.(blogs := Insert(db.blogs, b))) <==>
      && SlugFree(db.blogs, b.slug)
      && SlugFits(b.slug)
      && b.authorId in Ids(db.users)
      && (b.blogCategoryId.Some? ==> b.blogCategoryId.value in Ids(db.categories))
  {
    var nb := Insert(db.blogs, b);
    InsertFound(db.blogs, b, 0);
    BlogsSwapValid(db, nb);
    InsertBlogUnique(db.blogs, b);
    InsertBlogResolves(db.blogs, db.users, db.categories, b);
    InsertBlogFits(db.blogs, b);
  }

  /** Replacing the image table is saved when its keys are well formed,
      every image points at an existing post and fits its columns. */
  lemma ReplaceImagesValid(db: Db, images: Table<BlogImage>)
    requires Valid(db)
    requires WellFormed(images)
    requires ImagesResolve(images, db.blogs)
    requires forall i :: 0 <= i < |images.rows| ==> ImageFits(images.rows[i].data)
    ensures Valid(db.(images := images))
  {
  }

  /** The position of the row with a given key. */
  lemma KeyPosition<T>(t: Table<T>, id: int) returns (k: nat)
    requires WellFormed(t) && id in Ids(t)
    ensures k < |t.rows| && t.rows[k] == Row(id, Find(t, id).value)
    ensures forall i :: 0 <= i < |t.rows| && i != k ==> t.rows[i].id != id
  {
    k :| 0 <= k < |t.rows| && t.rows[k] == Row(id, Find(t, id).value);
  }

  lemma ReplaceBlogUnique(blogs: Table<Blog>, id: int, b: Blog, k: nat)
    requires UniqueSlugs(blogs)
    requires k < |blogs.rows| && blogs.rows[k].id == id
    requires forall i :: 0 <= i < |blogs.rows| && i != k ==> blogs.rows[i].id != id
    ensures UniqueSlugs(Replace(blogs, id, b)) <==>
      forall i :: 0 <= i < |blogs.rows| && blogs.rows[i].id != id ==> blogs.rows[i].data.slug != b.slug
  {
    var nb := Replace(blogs, id, b);
    assert nb.rows[k] == Row(id, b);
    assert forall i :: 0 <= i < |nb.rows| && i != k ==> nb.rows[i] == blogs.rows[i];
    if forall i :: 0 <= i < |blogs.rows| && blogs.rows[i].id != id ==> blogs.rows[i].data.slug != b.slug {
      forall i, j | 0 <= i < j < |nb.rows| ensures nb.rows[i].data.slug != nb.rows[j].data.slug {
        if i != k && j != k {
          assert nb.rows[i] == blogs.rows[i] && nb.rows[j] == blogs.rows[j];
        }
      }
    }
    if UniqueSlugs(nb) {
      forall i | 0 <= i < |blogs.rows| && blogs.rows[i].id != id ensures blogs.rows[i].data.slug != b.slug {
        assert nb.rows[i] == blogs.rows[i];
        if i < k {
          assert nb.rows[i].data.slug != nb.rows[k].data.slug;
        } else {
          assert nb.rows[k].data.slug != nb.rows[i].data.slug;
        }
      }
    }
  }

  lemma ReplaceBlogResolves(blogs: Table<Blog>, users: Table<User>, categories: Table<BlogCategory>, id: int, b: Blog, k: nat)
    requires BlogsResolve(blogs, users, categories)
    requires k < |blogs.rows| && blogs.rows[k].id == id
    requires b.authorId == blogs.rows[k].data.authorId && b.blogCategoryId == blogs.rows[k].data.blogCategoryId
    ensures BlogsResolve(Replace(blogs, id, b), users, categories)
  {
    var nb := Replace(blogs, id, b);
    forall i | 0 <= i < |nb.rows|
      ensures && nb.rows[i].data.authorId in Ids(users)
              && (nb.rows[i].data.blogCategoryId.Some? ==> nb.rows[i].data.blogCategoryId.value in Ids(categories))
    {
      if blogs.rows[i].id == id {
        assert nb.rows[i].data == b;
        assert blogs.rows[k].data.authorId in Ids(users);
      } else {
        assert nb.rows[i] == blogs.rows[i];
      }
    }
  }

  lemma ReplaceBlogFits(blogs: Table<Blog>, id: int, b: Blog, k: nat)
    requires forall i :: 0 <= i < |blogs.rows| ==> BlogFits(blogs.rows[i].data)
    requires k < |blogs.rows| && blogs.rows[k].id == id
    requires forall i :: 0 <= i < |blogs.rows| && i != k ==> blogs.rows[i].id != id
    ensures (forall i :: 0 <= i < |Replace(blogs, id, b).rows| ==> BlogFits(Replace(blogs, id, b).rows[i].data)) <==> BlogFits(b)
  {
    var nb := Replace(blogs, id, b);
    assert nb.rows[k] == Row(id, b);
    assert forall i :: 0 <= i < |nb.rows| && i != k ==> nb.rows[i] == blogs.rows[i];
  }

  /** Changing the data of an existing post, keeping its author and
      category, is saved iff no other post has the new slug and the slug
      fits its column. */
  lemma ReplaceBlogValid(db: Db, id: int, b: Blog)
    requires Valid(db)
    requires Find(db.blogs, id).Some?
    requires b.authorId == Find(db.blogs, id).value.authorId
    requires b.blogCategoryId == Find(db.blogs, id).value.blogCategoryId
    ensures Valid(db.(blogs := Replace(db.blogs, id, b))) <==>
      && SlugFits(b.slug)
      && forall i :: 0 <= i < |db.blogs.rows| && db.blogs.rows[i].id != id ==> db.blogs.rows[i].data.slug != b.slug
  {
    var nb := Replace(db.blogs, id, b);
    ReplaceKeys(db.blogs, id, b);
    BlogsSwapValid(db, nb);
    var k := KeyPosition(db.blogs, id);
    ReplaceBlogUnique(db.blogs, id, b, k);
    ReplaceBlogResolves(db.blogs, db.users, db.categories, id, b, k);
    ReplaceBlogFits(db.blogs, id, b, k);
  }

  /** Inserting a comment is saved iff its post and author exist and the
      text fits the column. */
  /** Only the comment constraints can change when only the comments do. */
  lemma CommentsSwapValid(db: Db, nc: Table<BlogComment>)
    requires Valid(db)
    ensures Valid(db.(comments := nc)) <==>
      && WellFormed(nc)
      && CommentsResolve(nc, db.blogs, db.users)
      && (forall i :: 0 <= i < |nc.rows| ==> CommentFits(nc.rows[i].data))
  {
  }

  lemma InsertCommentValid(db: Db, c: BlogComment)
    requires Valid(db)
    ensures Valid(db.(comments := Insert(db.comments, c))) <==>
      c.blogId in Ids(db.blogs) && c.userId in Ids(db.users) && CommentFits(c)
  {
    var nc := Insert(db.comments, c);
    var n := |db.comments.rows|;
    CommentsSwapValid(db, nc);
    InsertFound(db.comments, c, 0);
    assert nc.rows == db.comments.rows + [Row(db.comments.nextId, c)];
    assert nc.rows[n] == Row(db.comments.nextId, c);
    assert forall i :: 0 <= i < n ==> nc.rows[i] == db.comments.rows[i];
  }

  lemma ReplaceCommentRows(comments: Table<BlogComment>, blogs: Table<Blog>, users: Table<User>, id: int, c: BlogComment, k: nat)
    requires CommentsResolve(comments, blogs, users)
    requires forall i :: 0 <= i < |comments.rows| ==> CommentFits(comments.rows[i].data)
    requires k < |comments.rows| && comments.rows[k].id == id
    requires forall i :: 0 <= i < |comments.rows| && i != k ==> comments.rows[i].id != id
    requires c.blogId == comments.rows[k].data.blogId && c.userId == comments.rows[k].data.userId
    ensures CommentsResolve(Replace(comments, id, c), blogs, users)
    ensures (forall i :: 0 <= i < |comments.rows| ==> CommentFits(Replace(comments, id, c).rows[i].data)) <==> CommentFits(c)
  {
    var nc := Replace(comments, id, c);
    assert nc.rows[k] == Row(id, c);
    assert forall i :: 0 <= i < |nc.rows| && i != k ==> nc.rows[i] == comments.rows[i];
  }

  /** Changing the data of an existing comment, keeping its post and
      author, is saved iff the new text fits the column. */
  lemma ReplaceCommentValid(db: Db, id: int, c: BlogComment)
    requires Valid(db)
    requires Find(db.comments, id).Some?
    requires c.blogId == Find(db.comments, id).value.blogId
    requires c.userId == Find(db.comments, id).value.userId
    ensures Valid(db.(comments := Replace(db.comments, id, c))) <==> CommentFits(c)
  {
    ReplaceKeys(db.comments, id, c);
    var k := KeyPosition(db.comments, id);
    ReplaceCommentRows(db.comments, db.blogs, db.users, id, c, k);
  }

  /** Inserting a like is saved iff its post and user exist and that user
      has no like on that post yet. */
  /** Only the like constraints can change when only the likes do. */
  lemma LikesSwapValid(db: Db, nl: Table<BlogLike>)
    requires Valid(db)
    ensures Valid(db.(likes := nl)) <==> WellFormed(nl) && UniqueLikes(nl) && LikesResolve(nl, db.blogs, db.users)
  {
  }

  /** The like constraints of a table with one appended like. */
  lemma AppendedLikeConstraints(likes: Table<BlogLike>, l: BlogLike, blogs: Table<Blog>, users: Table<User>)
    requires WellFormed(likes) && UniqueLikes(likes) && LikesResolve(likes, blogs, users)
    ensures var nl := Insert(likes, l);
      && WellFormed(nl)
      && (UniqueLikes(nl) <==> LikeFree(likes, l.blogId, l.userId))
      && (LikesResolve(nl, blogs, users) <==> l.blogId in Ids(blogs) && l.userId in Ids(users))
  {
    var nl := Insert(likes, l);
    var n := |likes.rows|;
    InsertFound(likes, l, 0);
    assert nl.rows == likes.rows + [Row(likes.nextId, l)];
    assert nl.rows[n] == Row(likes.nextId, l);
    assert forall i :: 0 <= i < n ==> nl.rows[i] == likes.rows[i];
    if UniqueLikes(nl) {
      forall i | 0 <= i < n ensures (likes.rows[i].data.blogId, likes.rows[i].data.userId) != (l.blogId, l.userId) {
        assert nl.rows[i] == likes.rows[i];
      }
    }
  }

  lemma InsertLikeValid(db: Db, l: BlogLike)
    requires Valid(db)
    ensures Valid(db.(likes := Insert(db.likes, l))) <==>
      l.blogId in Ids(db.blogs) && l.userId in Ids(db.users) && LikeFree(db.likes, l.blogId, l.userId)
  {
    LikesSwapValid(db, Insert(db.likes, l));
    AppendedLikeConstraints(db.likes, l, db.blogs, db.users);
  }

  /** Removing one row of a table nothing points at (a comment, a like,
      a to-do) is always saved. */
  lemma RemoveLeafValid(db: Db, id: int)
    requires Valid(db)
    ensures Valid(db.(comments := RemoveId(db.comments, id)))
    ensures Valid(db.(likes := RemoveId(db.likes, id)))
    ensures Valid(db.(todos := RemoveId(db.todos, id)))
  {
    RemoveIdKeys(db.comments, id);
    RemoveIdKeys(db.likes, id);
    RemoveIdKeys(db.todos, id);
    var nc := RemoveId(db.comments, id);
    var nl := RemoveId(db.likes, id);
    forall i | 0 <= i < |nc.rows| ensures
      nc.rows[i].data.blogId in Ids(db.blogs) && nc.rows[i].data.userId in Ids(db.users) && CommentFits(nc.rows[i].data)
    {
      assert nc.rows[i] in db.comments.rows;
    }
    forall i | 0 <= i < |nl.rows| ensures nl.rows[i].data.blogId in Ids(db.blogs) && nl.rows[i].data.userId in Ids(db.users) {
      assert nl.rows[i] in db.likes.rows;
    }
    forall i, j | 0 <= i < j < |nl.rows|
      ensures (nl.rows[i].data.blogId, nl.rows[i].data.userId) != (nl.rows[j].data.blogId, nl.rows[j].data.userId)
    {
      var a, b := Position(db.likes, nl.rows[i]), Position(db.likes, nl.rows[j]);
      assert a != b;
    }
  }

  /** To-do rows reference nothing the database checks: inserting or
      changing one is always saved. */
  lemma ToDoChangesValid(db: Db, t: ToDo, id: int)
    requires Valid(db)
    ensures Valid(db.(todos := Insert(db.todos, t)))
    ensures Valid(db.(todos := Replace(db.todos, id, t)))
  {
    InsertFound(db.todos, t, 0);
    ReplaceKeys(db.todos, id, t);
  }

  lemma ReplaceUserRows(users: Table<User>, id: int, u: User, k: nat)
    requires UniqueUsers(users)
    requires forall i :: 0 <= i < |users.rows| ==> UserFits(users.rows[i].data)
    requires k < |users.rows| && users.rows[k].id == id
    requires forall i :: 0 <= i < |users.rows| && i != k ==> users.rows[i].id != id
    requires u.userName == users.rows[k].data.userName && u.email == users.rows[k].data.email
    ensures UniqueUsers(Replace(users, id, u))
    ensures (forall i :: 0 <= i < |users.rows| ==> UserFits(Replace(users, id, u).rows[i].data)) <==> UserFits(u)
  {
    var nu := Replace(users, id, u);
    assert nu.rows[k] == Row(id, u);
    assert forall i :: 0 <= i < |nu.rows| && i != k ==> nu.rows[i] == users.rows[i];
  }

  /** Changing a user's data, keeping the user name and e-mail address,
      is saved iff the new data fits the columns. */
  lemma ReplaceUserValid(db: Db, id: int, u: User)
    requires Valid(db)
    requires Find(db.users, id).Some?
    requires u.userName == Find(db.users, id).value.userName && u.email == Find(db.users, id).value.email
    ensures Valid(db.(users := Replace(db.users, id, u))) <==> UserFits(u)
  {
    ReplaceKeys(db.users, id, u);
    var k := KeyPosition(db.users, id);
    ReplaceUserRows(db.users, id, u, k);
  }

  /** Categories carry no constraint of their own and only gain or keep
      keys here, so adding or renaming one is always saved. */
  lemma CategoryChangesValid(db: Db, c: BlogCategory, id: int)
    requires Valid(db)
    ensures Valid(db.(categories := Insert(db.categories, c)))
    ensures Valid(db.(categories := Replace(db.categories, id, c)))
  {
    InsertFound(db.categories, c, 0);
    ReplaceKeys(db.categories, id, c);
  }
}
