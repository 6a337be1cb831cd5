/** `BlogController`: the public listing and lookup of posts, and the
    admin-only create, edit and delete actions, each of which changes two
    stores — the database (inside a transaction) and the image files
    (outside it). */
module BlogController {
  import opened Base
  import opened Text
  import opened SlugHelper
  import opened FileService
  import opened ImageHelper
  import opened Tables
  import opened Schema
  import opened Ordering
  import opened Claims

  /** The database and the uploaded files after an action. */
  datatype BlogOutcome<+T> = BlogOutcome(response: Response<T>, db: Db, files: FileStore)

  // ---------------------------------------------------------------------
  // Listing
  // ---------------------------------------------------------------------

  const Int32Modulus := 0x1_0000_0000
  const DefaultPageSize := 10
  const MaxPageSize := 50

  predicate IsInt32(x: int) {
    -0x8000_0000 <= x < 0x8000_0000
  }

  /** C#'s unchecked `int` arithmetic: the result modulo 2^32, read as a
      signed 32-bit value. */
  function WrapInt32(x: int): (r: int)
    ensures IsInt32(r)
    ensures (x - r) % Int32Modulus == 0
    ensures IsInt32(x) ==> r == x
  {
    (x + 0x8000_0000) % Int32Modulus - 0x8000_0000
  }

  function NormalizePage(page: int): (p: int)
    ensures p >= 1
    ensures page >= 1 ==> p == page
    ensures page < 1 ==> p == 1
  {
    if page < 1 then 1 else page
  }

  /** A size below 1 means the default, and sizes are capped. */
  function NormalizePageSize(size: int): (s: int)
    ensures 1 <= s <= MaxPageSize
    ensures 1 <= size <= MaxPageSize ==> s == size
    ensures size > MaxPageSize ==> s == MaxPageSize
    ensures size < 1 ==> s == DefaultPageSize
  {
    var s := if size < 1 then DefaultPageSize else size;
    if s < MaxPageSize then s else MaxPageSize
  }

  /** `(int)Math.Ceiling(n / (double)k)`, exactly, for counts a double holds. */
  function CeilDiv(n: nat, k: int): (q: nat)
    requires k > 0
    ensures q * k >= n
    ensures q == 0 || (q - 1) * k < n
  {
    var q := (n + k - 1) / k;
    assert n + k - 1 == q * k + (n + k - 1) % k;
    q
  }

  /** Where a page starts in the ordered list. */
  function PageOffset(page: int, size: int): (offset: int)
    requires page >= 1 && size >= 1
    ensures offset >= 0
    ensures offset == 0 <==> page == 1
  {
    (page - 1) * size
  }

  /** The offset as the code computes it, in 32-bit arithmetic. */
  function PageOffsetAsWritten(page: int, size: int): (offset: int)
    ensures IsInt32(offset)
    ensures IsInt32((page - 1) * size) ==> offset == (page - 1) * size
  {
    WrapInt32((page - 1) * size)
  }

  /** A post with what the query includes: author, category and images. */
  datatype BlogView = BlogView(
    blog: Row<Blog>,
    author: Option<User>,
    category: Option<BlogCategory>,
    images: seq<Row<BlogImage>>)

  function View(db: Db, b: Row<Blog>): (v: BlogView)
    ensures v.blog == b
    ensures v.author == Find(db.users, b.data.authorId)
  {
    BlogView(b, Find(db.users, b.data.authorId),
             if b.data.blogCategoryId.Some? then Find(db.categories, b.data.blogCategoryId.value) else None,
             ImagesOf(db, b.id))
  }

  datatype BlogPage = BlogPage(data: seq<BlogView>, page: int, pageSize: int, totalCount: int, totalPages: int)

  predicate MatchesFilter(b: Row<Blog>, categoryId: Option<int>, authorId: Option<int>) {
    && (categoryId.Some? ==> b.data.blogCategoryId == categoryId)
    && (authorId.Some? ==> b.data.authorId == authorId.value)
  }

  /** `OrderByDescending(b => b.CreatedAt)`. */
  function Newest(): (le: (Row<Blog>, Row<Blog>) -> bool)
    ensures forall a, b :: le(a, b) <==> a.data.createdAt >= b.data.createdAt
  {
    Descending((b: Row<Blog>) => b.data.createdAt)
  }

  /** The posts the filters select, newest first. */
  function Listing(db: Db, categoryId: Option<int>, authorId: Option<int>): (posts: seq<Row<Blog>>)
    ensures |posts| <= |db.blogs.rows|
  {
    Sort(Where(db.blogs.rows, (b: Row<Blog>) => MatchesFilter(b, categoryId, authorId)), Newest())
  }

  function Views(db: Db, posts: seq<Row<Blog>>): (vs: seq<BlogView>)
    ensures |vs| == |posts|
    ensures forall i :: 0 <= i < |posts| ==> vs[i] == View(db, posts[i])
  {
    seq(|posts|, i requires 0 <= i < |posts| => View(db, posts[i]))
  }

  /** One page of `posts` starting at `start`, with the total count and
      the page count. */
  function Paged(db: Db, posts: seq<Row<Blog>>, page: int, size: int, start: nat): (r: BlogPage)
    requires size >= 1
    ensures r.page == page && r.pageSize == size && r.totalCount == |posts|
    ensures |r.data| <= size
    ensures r.totalPages == CeilDiv(|posts|, size)
    ensures forall i :: 0 <= i < |r.data| ==> start + i < |posts| && r.data[i].blog == posts[start + i]
  {
    var window := Window(posts, start, size);
    BlogPage(Views(db, window), page, size, |posts|, CeilDiv(|posts|, size))
  }

  /** Every entry of a page is the full view of its post. */
  lemma PagedViews(db: Db, posts: seq<Row<Blog>>, page: int, size: int, start: nat)
    requires size >= 1
    ensures var r := Paged(db, posts, page, size, start);
      forall i :: 0 <= i < |r.data| ==> r.data[i] == View(db, r.data[i].blog)
  {
  }

  /** `GetBlogs`, with the page offset computed without overflow. */
  function GetBlogs(db: Db, page: int, pageSize: int, categoryId: Option<int>, authorId: Option<int>): (r: Response<BlogPage>)
    ensures r.Ok?
    ensures r.body.page == NormalizePage(page) && r.body.pageSize == NormalizePageSize(pageSize)
    ensures r.body.page >= 1 && 1 <= r.body.pageSize <= MaxPageSize
    ensures |r.body.data| <= r.body.pageSize
    ensures r.body.totalCount == |Listing(db, categoryId, authorId)|
    ensures r.body.totalPages == CeilDiv(r.body.totalCount, r.body.pageSize)
  {
    var p := NormalizePage(page);
    var size := NormalizePageSize(pageSize);
    Ok(Paged(db, Listing(db, categoryId, authorId), p, size, PageOffset(p, size)))
  }

  /** A page built from a list is the list's slice `[start, start + size)`,
      cut short at the end of the list, each post with its view. */
  lemma PageWindow(db: Db, posts: seq<Row<Blog>>, p: int, size: int, start: nat, r: BlogPage)
    requires size >= 1 && r == Paged(db, posts, p, size, start)
    ensures r.page == p && r.pageSize == size
    ensures |r.data| == if start >= |posts| then 0 else if |posts| - start < size then |posts| - start else size
    ensures forall i :: 0 <= i < |r.data| ==> start + i < |posts| && r.data[i] == View(db, posts[start + i])
  {
    WindowLength(posts, start, size);
  }

  /** The page echoes the normalised page and size and holds exactly the
      listing's slice `[(page - 1) * pageSize, +pageSize)`, cut short at
      the end of the listing. */
  lemma GetBlogsWindow(db: Db, page: int, pageSize: int, categoryId: Option<int>, authorId: Option<int>)
    ensures var r := GetBlogs(db, page, pageSize, categoryId, authorId).body;
      var posts := Listing(db, categoryId, authorId);
      var p := NormalizePage(page);
      var size := NormalizePageSize(pageSize);
      var start := PageOffset(p, size);
      && r.page == p && r.pageSize == size
      && |r.data| == (if start >= |posts| then 0 else if |posts| - start < size then |posts| - start else size)
      && (forall i :: 0 <= i < |r.data| ==> start + i < |posts| && r.data[i] == View(db, posts[start + i]))
  {
    var r := GetBlogs(db, page, pageSize, categoryId, authorId).body;
    var p, size := NormalizePage(page), NormalizePageSize(pageSize);
    var posts := Listing(db, categoryId, authorId);
    assert r == Paged(db, posts, p, size, PageOffset(p, size));
    PageWindow(db, posts, p, size, PageOffset(p, size), r);
  }

  /** Each entry carries its post's author, category and images. */
  lemma GetBlogsViews(db: Db, page: int, pageSize: int, categoryId: Option<int>, authorId: Option<int>)
    ensures var r := GetBlogs(db, page, pageSize, categoryId, authorId).body;
      forall i :: 0 <= i < |r.data| ==> r.data[i] == View(db, r.data[i].blog)
  {
    var p := NormalizePage(page);
    var size := NormalizePageSize(pageSize);
    var r := Paged(db, Listing(db, categoryId, authorId), p, size, PageOffset(p, size));
    assert GetBlogs(db, page, pageSize, categoryId, authorId).body == r;
    PagedViews(db, Listing(db, categoryId, authorId), p, size, PageOffset(p, size));
  }

  /** What SQL Server answers to a negative `OFFSET`. */
  const NegativeOffsetMessage := "The offset specified in a OFFSET clause may not be negative."

  /** `GetBlogs` as written: the offset `(page - 1) * pageSize` is a
      32-bit product and wraps. A wrapped offset that is negative reaches
      the database, which refuses it; nothing catches that, so the answer
      is a 500. */
  function GetBlogsAsWritten(db: Db, page: int, pageSize: int, categoryId: Option<int>, authorId: Option<int>): (r: Response<BlogPage>)
    requires IsInt32(page) && IsInt32(pageSize)
    ensures r.Ok? || r.ServerError?
    ensures r.ServerError? ==> r.message == NegativeOffsetMessage
    ensures r.Ok? ==> r.body.page >= 1 && 1 <= r.body.pageSize <= MaxPageSize
    ensures r.Ok? ==> |r.body.data| <= r.body.pageSize
  {
    var p := NormalizePage(page);
    var size := NormalizePageSize(pageSize);
    var offset := PageOffsetAsWritten(p, size);
    if offset < 0 then ServerError(NegativeOffsetMessage)
    else Ok(Paged(db, Listing(db, categoryId, authorId), p, size, offset))
  }

  /** Whenever the product fits in 32 bits the code as written answers
      exactly what the corrected action answers. */
  lemma GetBlogsAsWrittenAgrees(db: Db, page: int, pageSize: int, categoryId: Option<int>, authorId: Option<int>)
    requires IsInt32(page) && IsInt32(pageSize)
    requires IsInt32((NormalizePage(page) - 1) * NormalizePageSize(pageSize))
    ensures GetBlogsAsWritten(db, page, pageSize, categoryId, authorId) == GetBlogs(db, page, pageSize, categoryId, authorId)
  {
  }

  /** The listing is a permutation of the stored posts that pass the
      filters: every one of them, each as often as stored. */
  lemma ListingIsPermutation(db: Db, categoryId: Option<int>, authorId: Option<int>)
    ensures var posts := Listing(db, categoryId, authorId);
      forall x :: multiset(posts)[x] == (if MatchesFilter(x, categoryId, authorId) then multiset(db.blogs.rows)[x] else 0)
  {
  }

  /** Every post of the listing is stored and passes the filters, and the
      listing is newest first. */
  lemma ListingSelects(db: Db, categoryId: Option<int>, authorId: Option<int>)
    ensures var posts := Listing(db, categoryId, authorId);
      && (forall k :: 0 <= k < |posts| ==> posts[k] in db.blogs.rows && MatchesFilter(posts[k], categoryId, authorId))
      && (forall k, l :: 0 <= k < l < |posts| ==> posts[k].data.createdAt >= posts[l].data.createdAt)
  {
    var matching := Where(db.blogs.rows, (b: Row<Blog>) => MatchesFilter(b, categoryId, authorId));
    DescendingIsTotalPreorder((b: Row<Blog>) => b.data.createdAt);
    SortSorted(matching, Newest());
    var posts := Listing(db, categoryId, authorId);
    forall k | 0 <= k < |posts| ensures posts[k] in db.blogs.rows && MatchesFilter(posts[k], categoryId, authorId) {
      assert posts[k] in multiset(posts);
      assert posts[k] in multiset(matching);
    }
    SortedDescendingKeys(posts, (b: Row<Blog>) => b.data.createdAt);
  }

  /** A page of a filtered list holds only stored posts that pass the
      filters. */
  lemma PagedFiltered(db: Db, posts: seq<Row<Blog>>, p: int, size: int, start: nat, categoryId: Option<int>, authorId: Option<int>)
    requires size >= 1
    requires forall k :: 0 <= k < |posts| ==> posts[k] in db.blogs.rows && MatchesFilter(posts[k], categoryId, authorId)
    ensures var data := Paged(db, posts, p, size, start).data;
      forall i :: 0 <= i < |data| ==> data[i].blog in db.blogs.rows && MatchesFilter(data[i].blog, categoryId, authorId)
  {
  }

  /** A page of a newest-first list is newest first. */
  lemma PagedNewestFirst(db: Db, posts: seq<Row<Blog>>, p: int, size: int, start: nat)
    requires size >= 1
    requires forall k, l :: 0 <= k < l < |posts| ==> posts[k].data.createdAt >= posts[l].data.createdAt
    ensures var data := Paged(db, posts, p, size, start).data;
      forall i, j :: 0 <= i < j < |data| ==> data[i].blog.data.createdAt >= data[j].blog.data.createdAt
  {
    var data := Paged(db, posts, p, size, start).data;
    forall i, j | 0 <= i < j < |data| ensures data[i].blog.data.createdAt >= data[j].blog.data.createdAt {
      assert data[i].blog == posts[start + i] && data[j].blog == posts[start + j];
    }
  }

  /** Every post on a page exists and passes the filters. */
  lemma GetBlogsFiltered(db: Db, page: int, pageSize: int, categoryId: Option<int>, authorId: Option<int>)
    ensures var data := GetBlogs(db, page, pageSize, categoryId, authorId).body.data;
      forall i :: 0 <= i < |data| ==> data[i].blog in db.blogs.rows && MatchesFilter(data[i].blog, categoryId, authorId)
  {
    var p, size := NormalizePage(page), NormalizePageSize(pageSize);
    ListingSelects(db, categoryId, authorId);
    PagedFiltered(db, Listing(db, categoryId, authorId), p, size, PageOffset(p, size), categoryId, authorId);
  }

  /** A page lists its posts newest first. */
  lemma GetBlogsNewestFirst(db: Db, page: int, pageSize: int, categoryId: Option<int>, authorId: Option<int>)
    ensures var data := GetBlogs(db, page, pageSize, categoryId, authorId).body.data;
      forall i, j :: 0 <= i < j < |data| ==> data[i].blog.data.createdAt >= data[j].blog.data.createdAt
  {
    var p, size := NormalizePage(page), NormalizePageSize(pageSize);
    ListingSelects(db, categoryId, authorId);
    PagedNewestFirst(db, Listing(db, categoryId, authorId), p, size, PageOffset(p, size));
  }

  /** With the intended offset, page `q` starts at least a whole page
      after an earlier page `p`. */
  lemma PageOffsetsSpaced(p: int, q: int, size: int)
    requires 1 <= p < q && size >= 1
    ensures PageOffset(p, size) + size <= PageOffset(q, size)
  {
    var d := q - p;
    assert (q - 1) * size == (p - 1) * size + d * size;
    assert d * size == size + (d - 1) * size;
    assert (d - 1) * size >= 0;
  }

  /** Rows taken from rows with distinct keys, none more often than
      there, have distinct keys. */
  lemma DistinctKeysBelow(rows: seq<Row<Blog>>, posts: seq<Row<Blog>>)
    requires forall i, j :: 0 <= i < j < |rows| ==> rows[i].id != rows[j].id
    requires forall x :: multiset(posts)[x] <= multiset(rows)[x]
    ensures forall k, l :: 0 <= k < l < |posts| ==> posts[k].id != posts[l].id
  {
    forall i, j | 0 <= i < j < |rows| ensures rows[i] != rows[j] {
      assert rows[i].id != rows[j].id;
    }
    DistinctBelow(rows, posts);
    forall k, l | 0 <= k < l < |posts| ensures posts[k].id != posts[l].id {
      assert multiset(posts)[posts[k]] > 0 && multiset(posts)[posts[l]] > 0;
      var u :| 0 <= u < |rows| && rows[u] == posts[k];
      var v :| 0 <= v < |rows| && rows[v] == posts[l];
      assert u != v;
    }
  }

  /** Among posts with pairwise different creation times there is only
      one newest-first order. */
  lemma NewestFirstUnique(rows: seq<Row<Blog>>, posts: seq<Row<Blog>>, other: seq<Row<Blog>>)
    requires forall k, l :: 0 <= k < l < |rows| ==> rows[k].data.createdAt != rows[l].data.createdAt
    requires multiset(posts) == multiset(other)
    requires forall x :: multiset(posts)[x] <= multiset(rows)[x]
    requires forall i, j :: 0 <= i < j < |posts| ==> posts[i].data.createdAt >= posts[j].data.createdAt
    requires forall i, j :: 0 <= i < j < |other| ==> other[i].data.createdAt >= other[j].data.createdAt
    ensures posts == other
  {
    var key := (b: Row<Blog>) => b.data.createdAt;
    forall x, y | x in multiset(posts) && y in multiset(posts) && key(x) == key(y) ensures x == y {
      assert multiset(rows)[x] > 0 && multiset(rows)[y] > 0;
      var u :| 0 <= u < |rows| && rows[u] == x;
      var v :| 0 <= v < |rows| && rows[v] == y;
      assert !(u < v) && !(v < u);
    }
    assert KeysDistinct(multiset(posts), key);
    assert NonIncreasing(posts, key) && NonIncreasing(other, key);
    SortedUnique(posts, other, key);
  }

  /** When no two stored posts were created at the same instant, any
      newest-first order of the posts the filters select is the listing.
      So whatever order the database picks, every request sees the same
      list, and `GetBlogsWindow` and `PagesAreDisjoint` hold of it. */
  lemma ListingIsTheOnlyOrder(db: Db, categoryId: Option<int>, authorId: Option<int>, other: seq<Row<Blog>>)
    requires forall k, l :: 0 <= k < l < |db.blogs.rows| ==> db.blogs.rows[k].data.createdAt != db.blogs.rows[l].data.createdAt
    requires forall x :: multiset(other)[x] == (if MatchesFilter(x, categoryId, authorId) then multiset(db.blogs.rows)[x] else 0)
    requires forall i, j :: 0 <= i < j < |other| ==> other[i].data.createdAt >= other[j].data.createdAt
    ensures other == Listing(db, categoryId, authorId)
  {
    var posts := Listing(db, categoryId, authorId);
    ListingIsPermutation(db, categoryId, authorId);
    ListingSelects(db, categoryId, authorId);
    assert multiset(posts) == multiset(other);
    NewestFirstUnique(db.blogs.rows, posts, other);
  }

  /** Stored posts have distinct keys, so the listing shows each post once. */
  lemma ListingDistinct(db: Db, categoryId: Option<int>, authorId: Option<int>)
    requires WellFormed(db.blogs)
    ensures var posts := Listing(db, categoryId, authorId);
      forall k, l :: 0 <= k < l < |posts| ==> posts[k].id != posts[l].id
  {
    ListingIsPermutation(db, categoryId, authorId);
    DistinctKeysBelow(db.blogs.rows, Listing(db, categoryId, authorId));
  }

  /** Two pages of a list of distinct posts, the second starting at least
      a page after the first, share no post. */
  lemma PagedDisjoint(db: Db, posts: seq<Row<Blog>>, p: int, q: int, size: int, a: nat, b: nat)
    requires size >= 1 && a + size <= b
    requires forall k, l :: 0 <= k < l < |posts| ==> posts[k].id != posts[l].id
    ensures var x := Paged(db, posts, p, size, a).data;
      var y := Paged(db, posts, q, size, b).data;
      forall i, j :: 0 <= i < |x| && 0 <= j < |y| ==> x[i].blog.id != y[j].blog.id
  {
    var x := Paged(db, posts, p, size, a).data;
    var y := Paged(db, posts, q, size, b).data;
    forall i, j | 0 <= i < |x| && 0 <= j < |y| ensures x[i].blog.id != y[j].blog.id {
      assert x[i].blog == posts[a + i] && y[j].blog == posts[b + j];
    }
  }

  /** Two different requested pages never show the same post. */
  lemma PagesAreDisjoint(db: Db, p: int, q: int, pageSize: int, categoryId: Option<int>, authorId: Option<int>)
    requires WellFormed(db.blogs)
    requires 1 <= p < q
    ensures var x := GetBlogs(db, p, pageSize, categoryId, authorId).body.data;
      var y := GetBlogs(db, q, pageSize, categoryId, authorId).body.data;
      forall i, j :: 0 <= i < |x| && 0 <= j < |y| ==> x[i].blog.id != y[j].blog.id
  {
    var size := NormalizePageSize(pageSize);
    var posts := Listing(db, categoryId, authorId);
    ListingDistinct(db, categoryId, authorId);
    PageOffsetsSpaced(p, q, size);
    PagedDisjoint(db, posts, p, q, size, PageOffset(p, size), PageOffset(q, size));
  }

  /** The wrapped offset: page 134217729 of 32 starts at 0. */
  lemma PageOffsetWraps()
    ensures PageOffsetAsWritten(134217729, 32) == 0
    ensures PageOffset(134217729, 32) == 4294967296
  {
  }

  /** As written, page 134217729 of size 32 repeats page 1, whereas the
      intended page is empty for any listing of fewer than 2^32 posts. */
  lemma GetBlogsAsWrittenRepeatsFirstPage(db: Db, categoryId: Option<int>, authorId: Option<int>)
    requires 0 < |Listing(db, categoryId, authorId)| < 4294967296
    ensures GetBlogsAsWritten(db, 134217729, 32, categoryId, authorId).body.data
         == GetBlogsAsWritten(db, 1, 32, categoryId, authorId).body.data
    ensures GetBlogsAsWritten(db, 134217729, 32, categoryId, authorId).body.data != []
    ensures GetBlogs(db, 134217729, 32, categoryId, authorId).body.data == []
  {
    PageOffsetWraps();
    var posts := Listing(db, categoryId, authorId);
    assert Window(posts, 0, 32) != [];
  }

  /** As written, page 67108865 of size 32 wraps the offset to -2^31, and
      the request fails with a 500 instead of answering an empty page. */
  lemma GetBlogsAsWrittenNegativeOffsetFails(db: Db, categoryId: Option<int>, authorId: Option<int>)
    ensures GetBlogsAsWritten(db, 67108865, 32, categoryId, authorId) == ServerError(NegativeOffsetMessage)
    ensures GetBlogs(db, 67108865, 32, categoryId, authorId).Ok?
  {
    assert PageOffsetAsWritten(67108865, 32) == -0x8000_0000;
  }

  // ---------------------------------------------------------------------
  // Lookup by slug
  // ---------------------------------------------------------------------

  /** `FirstOrDefault(b => b.Slug == slug)`. */
  function FindBySlug(rows: seq<Row<Blog>>, slug: string): (r: Option<Row<Blog>>)
    ensures r.None? <==> forall i :: 0 <= i < |rows| ==> rows[i].data.slug != slug
    ensures r.Some? ==> r.value in rows && r.value.data.slug == slug
  {
    if rows == [] then None
    else if rows[0].data.slug == slug then Some(rows[0])
    else
      var r := FindBySlug(rows[1..], slug);
      assert forall i :: 1 <= i < |rows| ==> rows[i] == rows[1..][i - 1];
      r
  }

  function GetBlogBySlug(db: Db, slug: string): (r: Response<BlogView>)
    ensures r.Ok? || r.NotFound?
    ensures r.NotFound? <==> SlugFree(db.blogs, slug)
    ensures r.Ok? ==> r.body.blog in db.blogs.rows && r.body.blog.data.slug == slug
  {
    match FindBySlug(db.blogs.rows, slug)
    case None => NotFound("")
    case Some(b) => Ok(View(db, b))
  }

  /** Slugs are unique, so every stored post is what its slug finds. */
  lemma GetBlogBySlugFindsEachPost(db: Db, b: Row<Blog>)
    requires UniqueSlugs(db.blogs)
    requires b in db.blogs.rows
    ensures GetBlogBySlug(db, b.data.slug) == Ok(View(db, b))
  {
    var found := FindBySlug(db.blogs.rows, b.data.slug).value;
    var i, j := Position(db.blogs, b), Position(db.blogs, found);
    assert db.blogs.rows[i].data.slug == db.blogs.rows[j].data.slug;
  }

  // ---------------------------------------------------------------------
  // Create, edit, delete
  // ---------------------------------------------------------------------

  /** The form the create and edit actions bind; `files` is `None` when
      no file field is posted. */
  datatype BlogSaveDto = BlogSaveDto(
    blogCategoryId: int,
    title: string,
    content: string,
    files: Option<seq<Option<FormFile>>>)

  /** `[Required]` on the title and the content. */
  predicate ValidDto(dto: BlogSaveDto) {
    IsRequiredText(dto.title) && IsRequiredText(dto.content)
  }

  datatype SavedBlog = SavedBlog(
    id: int,
    title: string,
    content: string,
    blogCategoryId: Option<int>,
    imageUrls: seq<string>)

  function NewBlog(dto: BlogSaveDto, now: int, authorId: int): (b: Blog)
    ensures b.slug == GenerateSlug(dto.title) && b.authorId == authorId
    ensures b.title == dto.title && b.content == dto.content && b.createdAt == now
    ensures b.blogCategoryId == Some(dto.blogCategoryId)
  {
    Blog(dto.title, dto.content, GenerateSlug(dto.title), now, Some(dto.blogCategoryId), authorId)
  }

  /** One image row per uploaded URL, in order. */
  function ImageRows(blogId: int, urls: seq<string>, now: int): (rows: seq<BlogImage>)
    ensures |rows| == |urls|
    ensures forall k :: 0 <= k < |urls| ==> rows[k] == BlogImage(blogId, urls[k], None, now)
  {
    seq(|urls|, k requires 0 <= k < |urls| => BlogImage(blogId, urls[k], None, now))
  }

  function UrlsOf(images: seq<Row<BlogImage>>): (urls: seq<string>)
    ensures |urls| == |images|
    ensures forall k :: 0 <= k < |images| ==> urls[k] == images[k].data.imageUrl
  {
    seq(|images|, k requires 0 <= k < |images| => images[k].data.imageUrl)
  }

  /** `CreateBlog`: insert and save the post, upload the files, insert and
      save one image row per URL, commit. Any exception rolls the rows
      back and answers 400 with its message; files already written stay. */
  function CreateBlog(db: Db, files: FileStore, caller: Principal, dto: BlogSaveDto, now: int, names: seq<string>)
    : (o: BlogOutcome<SavedBlog>)
    requires dto.files.Some? ==> |dto.files.value| <= |names|
    ensures o.response.Ok? || o.response.Forbid? || o.response.BadRequest?
    ensures o.response.Forbid? <==> !IsInRole(caller, AdminRole)
    ensures !o.response.Ok? ==> o.db == db
    ensures files <= o.files
    ensures (|| !IsInRole(caller, AdminRole)
             || !ValidDto(dto)
             || !Valid(db.(blogs := Insert(db.blogs, NewBlog(dto, now, CallerId(caller)))))) ==> o.files == files
    ensures o.response.Ok? ==> o.response.body.id == db.blogs.nextId && o.response.body.title == dto.title
    ensures o.response.Ok? ==> SlugFits(GenerateSlug(dto.title))
  {
    if !IsInRole(caller, AdminRole) then BlogOutcome(Forbid, db, files)
    else if !ValidDto(dto) then BlogOutcome(BadRequest(ValidationFailedMessage), db, files)
    else
      match SaveChanges(db.(blogs := Insert(db.blogs, NewBlog(dto, now, CallerId(caller)))))
      case Failure(e) => BlogOutcome(BadRequest(e.message), db, files)
      case Success(db1) =>
        UploadKeepsFiles(dto.files, names, files);
        StoredSlugFits(db1, Row(db.blogs.nextId, NewBlog(dto, now, CallerId(caller))));
        var saved := SavedBlog(db.blogs.nextId, dto.title, dto.content, Some(dto.blogCategoryId), []);
        AttachImages(db, db1, saved, now, UploadImages(dto.files, names, files))
  }

  /** The rest of `CreateBlog` once the post row is saved as `db1`: the
      uploaded URLs become image rows of post `saved.id`, or the whole
      create rolls back to `db`. */
  function AttachImages(db: Db, db1: Db, saved: SavedBlog, now: int, up: Upload): (o: BlogOutcome<SavedBlog>)
    ensures o.files == up.store
    ensures o.response.Ok? || o.response.BadRequest?
    ensures o.response.BadRequest? ==> o.db == db
    ensures o.response.Ok? <==>
      (up.result.Success? && (up.result.value == [] || Valid(db1.(images := InsertAll(db1.images, ImageRows(saved.id, up.result.value, now))))))
    ensures o.response.Ok? ==> o.response.body == saved.(imageUrls := up.result.value)
  {
    match up.result
    case Failure(e) => BlogOutcome(BadRequest(e.message), db, up.store)
    case Success(urls) =>
      if urls == [] then BlogOutcome(Ok(saved.(imageUrls := [])), db1, up.store)
      else
        match SaveChanges(db1.(images := InsertAll(db1.images, ImageRows(saved.id, urls, now))))
        case Failure(e) => BlogOutcome(BadRequest(e.message), db, up.store)
        case Success(db2) => BlogOutcome(Ok(saved.(imageUrls := urls)), db2, up.store)
  }

  /** Appending image rows for a post that had none gives it exactly
      those rows. */
  lemma AppendedImagesOf(images: Table<BlogImage>, blogId: int, urls: seq<string>, now: int)
    requires WellFormed(images)
    requires forall x :: x in images.rows ==> x.data.blogId != blogId
    ensures forall x :: x in InsertAll(images, ImageRows(blogId, urls, now)).rows && x.data.blogId == blogId <==>
      exists k :: 0 <= k < |urls| && x == Row(images.nextId + k, BlogImage(blogId, urls[k], None, now))
  {
    InsertAllKeys(images, ImageRows(blogId, urls, now));
  }

  /** Attaching a successful upload to a stored post without images is
      always saved, and gives the post exactly one image row per URL. */
  lemma AttachImagesSaved(db: Db, db1: Db, saved: SavedBlog, now: int, up: Upload)
    requires Valid(db1) && saved.id in Ids(db1.blogs)
    requires forall x :: x in db1.images.rows ==> x.data.blogId != saved.id
    requires up.result.Success?
    ensures var o := AttachImages(db, db1, saved, now, up);
      && o.response.Ok?
      && Valid(o.db)
      && o.db.blogs == db1.blogs
      && forall x :: x in ImagesOf(o.db, saved.id) <==>
           exists k :: 0 <= k < |up.result.value| &&
             x == Row(db1.images.nextId + k, BlogImage(saved.id, up.result.value[k], None, now))
  {
    var urls := up.result.value;
    var o := AttachImages(db, db1, saved, now, up);
    if urls == [] {
      assert o.db == db1;
    } else {
      var after := db1.(images := InsertAll(db1.images, ImageRows(saved.id, urls, now)));
      NewImagesValid(db1, saved.id, urls, now);
      assert o.db == after;
      AppendedImagesOf(db1.images, saved.id, urls, now);
    }
  }

  /** Uploading only ever adds files. */
  lemma UploadKeepsFiles(files: Option<seq<Option<FormFile>>>, names: seq<string>, store: FileStore)
    requires files.Some? ==> |files.value| <= |names|
    ensures store <= UploadImages(files, names, store).store
  {
    if files.Some? && files.value != [] {
      SaveImagesOutcome(files.value, names, store);
    }
  }

  /** Image rows for an existing post are always accepted. */
  lemma NewImagesValid(db: Db, blogId: int, urls: seq<string>, now: int)
    requires Valid(db) && blogId in Ids(db.blogs)
    ensures Valid(db.(images := InsertAll(db.images, ImageRows(blogId, urls, now))))
  {
    var images := InsertAll(db.images, ImageRows(blogId, urls, now));
    InsertAllKeys(db.images, ImageRows(blogId, urls, now));
    forall i | 0 <= i < |images.rows| ensures images.rows[i].data.blogId in Ids(db.blogs) && ImageFits(images.rows[i].data) {
      if i < |db.images.rows| {
        assert images.rows[i] == db.images.rows[i];
      }
    }
    ReplaceImagesValid(db, images);
  }

  /** The preconditions under which a create is saved: an admin caller, a
      valid form, an unused slug that fits its column, an existing author
      and category, and an upload in which every file is a valid image. */
  predicate CreateAccepted(db: Db, files: FileStore, caller: Principal, dto: BlogSaveDto, names: seq<string>)
    requires dto.files.Some? ==> |dto.files.value| <= |names|
  {
    && IsInRole(caller, AdminRole)
    && ValidDto(dto)
    && SlugFree(db.blogs, GenerateSlug(dto.title))
    && SlugFits(GenerateSlug(dto.title))
    && CallerId(caller) in Ids(db.users)
    && dto.blogCategoryId in Ids(db.categories)
    && UploadImages(dto.files, names, files).result.Success?
  }

  /** The post row of a create is saved iff its slug is free and fits,
      and its author and category exist; it then gets the next key and no image
      row points at it yet. */
  lemma CreatePostRowValid(db: Db, caller: Principal, dto: BlogSaveDto, now: int)
    requires Valid(db)
    ensures var db1 := db.(blogs := Insert(db.blogs, NewBlog(dto, now, CallerId(caller))));
      && (Valid(db1) <==>
            && SlugFree(db.blogs, GenerateSlug(dto.title))
            && SlugFits(GenerateSlug(dto.title))
            && CallerId(caller) in Ids(db.users)
            && dto.blogCategoryId in Ids(db.categories))
      && db.blogs.nextId in Ids(db1.blogs)
      && Find(db1.blogs, db.blogs.nextId) == Some(NewBlog(dto, now, CallerId(caller)))
      && forall x :: x in db1.images.rows ==> x.data.blogId != db.blogs.nextId
  {
    var b := NewBlog(dto, now, CallerId(caller));
    InsertBlogValid(db, b);
    InsertFound(db.blogs, b, 0);
    forall x | x in db.images.rows ensures x.data.blogId != db.blogs.nextId {
      var i :| 0 <= i < |db.images.rows| && db.images.rows[i] == x;
      assert x.data.blogId in Ids(db.blogs);
    }
  }

  /** A create is saved iff the conditions above hold. */
  lemma CreateBlogAccepted(db: Db, files: FileStore, caller: Principal, dto: BlogSaveDto, now: int, names: seq<string>)
    requires Valid(db)
    requires dto.files.Some? ==> |dto.files.value| <= |names|
    ensures CreateBlog(db, files, caller, dto, now, names).response.Ok? <==> CreateAccepted(db, files, caller, dto, names)
  {
    CreatePostRowValid(db, caller, dto, now);
    var db1 := db.(blogs := Insert(db.blogs, NewBlog(dto, now, CallerId(caller))));
    var up := UploadImages(dto.files, names, files);
    if IsInRole(caller, AdminRole) && ValidDto(dto) && Valid(db1) {
      var saved := SavedBlog(db.blogs.nextId, dto.title, dto.content, Some(dto.blogCategoryId), []);
      assert CreateBlog(db, files, caller, dto, now, names) == AttachImages(db, db1, saved, now, up);
      if up.result.Success? {
        AttachImagesSaved(db, db1, saved, now, up);
      }
    }
  }

  /** A saved create stores the post under the next key with the generated
      slug and the caller as author, answers with the uploaded URLs, and
      gives the post exactly one image row per URL. */
  lemma CreateBlogSaved(db: Db, files: FileStore, caller: Principal, dto: BlogSaveDto, now: int, names: seq<string>)
    requires Valid(db)
    requires dto.files.Some? ==> |dto.files.value| <= |names|
    requires CreateAccepted(db, files, caller, dto, names)
    ensures var o := CreateBlog(db, files, caller, dto, now, names);
      var up := UploadImages(dto.files, names, files);
      && o.response.Ok?
      && Valid(o.db)
      && o.files == up.store
      && o.response.body.imageUrls == up.result.value
      && Find(o.db.blogs, db.blogs.nextId) == Some(NewBlog(dto, now, CallerId(caller)))
      && (forall x :: x in ImagesOf(o.db, db.blogs.nextId) <==>
            exists k :: 0 <= k < |up.result.value| &&
              x == Row(db.images.nextId + k, BlogImage(db.blogs.nextId, up.result.value[k], None, now)))
  {
    CreatePostRowValid(db, caller, dto, now);
    var db1 := db.(blogs := Insert(db.blogs, NewBlog(dto, now, CallerId(caller))));
    var saved := SavedBlog(db.blogs.nextId, dto.title, dto.content, Some(dto.blogCategoryId), []);
    var up := UploadImages(dto.files, names, files);
    AttachImagesSaved(db, db1, saved, now, up);
    assert CreateBlog(db, files, caller, dto, now, names) == AttachImages(db, db1, saved, now, up);
  }

  /** A failed create leaves the rows as they were, but files written
      before a rejected file are not removed: the first `k` valid files of
      the batch stay in the store. */
  lemma CreateBlogLeaksUploads(db: Db, files: FileStore, caller: Principal, dto: BlogSaveDto, now: int, names: seq<string>)
    requires Valid(db)
    requires dto.files.Some? && |dto.files.value| <= |names|
    requires IsInRole(caller, AdminRole) && ValidDto(dto)
    requires Valid(db.(blogs := Insert(db.blogs, NewBlog(dto, now, CallerId(caller)))))
    requires UploadImages(dto.files, names, files).result.Failure?
    ensures var o := CreateBlog(db, files, caller, dto, now, names);
      var checks := Validations(dto.files.value);
      var k := PassedPrefix(checks);
      && k < |dto.files.value|
      && !IsValidImage(dto.files.value[k])
      && o.response == BadRequest(UploadFailedPrefix + ValidateImage(dto.files.value[k]).error.message)
      && o.db == db
      && o.files == files + WrittenPaths(checks[..k], names)
  {
    var db1 := db.(blogs := Insert(db.blogs, NewBlog(dto, now, CallerId(caller))));
    assert SaveChanges(db1) == Success(db1);
    var up := UploadImages(dto.files, names, files);
    UploadFailureIsInvalidOperation(dto.files.value, names, files);
    SaveImagesOutcome(dto.files.value, names, files);
    var o := CreateBlog(db, files, caller, dto, now, names);
    assert o == BlogOutcome(BadRequest(up.result.error.message), db, up.store);
  }

  /** A create whose slug does not fit its column is refused by the first
      save, before anything is uploaded: 400 with nothing changed. */
  lemma CreateBlogLongSlugRefused(db: Db, files: FileStore, caller: Principal, dto: BlogSaveDto, now: int, names: seq<string>)
    requires dto.files.Some? ==> |dto.files.value| <= |names|
    requires IsInRole(caller, AdminRole) && ValidDto(dto)
    requires !SlugFits(GenerateSlug(dto.title))
    ensures CreateBlog(db, files, caller, dto, now, names) == BlogOutcome(BadRequest(DbUpdateMessage), db, files)
  {
    var b := NewBlog(dto, now, CallerId(caller));
    var nb := Insert(db.blogs, b);
    var i :| 0 <= i < |nb.rows| && nb.rows[i] == Row(db.blogs.nextId, b);
    assert !BlogFits(nb.rows[i].data);
    assert !Valid(db.(blogs := nb));
  }

  /** A title of 451 letters is its own slug, one code unit longer than
      the slug column. */
  lemma LongTitleSlug()
    ensures var title := seq(451, _ => 'a');
      GenerateSlug(title) == title && !SlugFits(title)
  {
    var title := seq(451, _ => 'a');
    assert IsSlug(title);
    SlugIsFixedPoint(title);
  }

  /** `UpdateBlog`: admins only, then NotFound for a missing key and
      Forbid for a caller who is not the author, before anything is
      uploaded. Title, slug and content are replaced; with new uploads the
      post's image rows are replaced wholesale and, after commit, the old
      files deleted; without uploads the images stay. */
  function UpdateBlog(db: Db, files: FileStore, caller: Principal, id: int, dto: BlogSaveDto, now: int, names: seq<string>)
    : (o: BlogOutcome<SavedBlog>)
    requires dto.files.Some? ==> |dto.files.value| <= |names|
    ensures o.response.NotFound? <==>
      IsInRole(caller, AdminRole) && ValidDto(dto) && Find(db.blogs, id).None?
    ensures o.response.Forbid? <==>
      || !IsInRole(caller, AdminRole)
      || (ValidDto(dto) && Find(db.blogs, id).Some? && Find(db.blogs, id).value.authorId != CallerId(caller))
    ensures o.response.NotFound? || o.response.Forbid? ==> o.db == db && o.files == files
    ensures IsInRole(caller, AdminRole) && !ValidDto(dto) ==> o.response.BadRequest? && o.files == files
    ensures !o.response.Ok? ==> o.db == db
    ensures o.response.Ok? ==> o.response.body.id == id && o.response.body.title == dto.title
    ensures o.response.Ok? ==> SlugFits(GenerateSlug(dto.title))
  {
    if !IsInRole(caller, AdminRole) then BlogOutcome(Forbid, db, files)
    else if !ValidDto(dto) then BlogOutcome(BadRequest(ValidationFailedMessage), db, files)
    else match Find(db.blogs, id)
      case None => BlogOutcome(NotFound(""), db, files)
      case Some(blog) =>
        if blog.authorId != CallerId(caller) then BlogOutcome(Forbid, db, files)
        else
          UploadKeepsFiles(dto.files, names, files);
          var o := StoreEdit(db, db.(blogs := Replace(db.blogs, id, Edited(blog, dto))),
                             SavedBlog(id, dto.title, dto.content, blog.blogCategoryId, []), now,
                             UploadImages(dto.files, names, files), UrlsOf(ImagesOf(db, id)));
          ReplacedSlugFits(db, id, Edited(blog, dto), o);
          o
  }

  /** A committed edit holds the edited row in a valid state, so the new
      slug fits. */
  lemma ReplacedSlugFits(db: Db, id: int, b: Blog, o: BlogOutcome<SavedBlog>)
    requires Find(db.blogs, id).Some?
    requires o.response.Ok? ==> Valid(o.db) && o.db.blogs == Replace(db.blogs, id, b)
    ensures o.response.Ok? ==> SlugFits(b.slug)
  {
    if o.response.Ok? {
      var i :| 0 <= i < |db.blogs.rows| && db.blogs.rows[i] == Row(id, Find(db.blogs, id).value);
      assert o.db.blogs.rows[i] == Row(id, b);
      StoredSlugFits(o.db, o.db.blogs.rows[i]);
    }
  }

  /** The rest of `UpdateBlog` once the edited row is tracked as `db1`:
      with new URLs the post's image rows are replaced, and after the
      commit the files of `oldUrls` are deleted; any failure rolls back to
      `db` and leaves the uploaded files. */
  function StoreEdit(db: Db, db1: Db, saved: SavedBlog, now: int, up: Upload, oldUrls: seq<string>)
    : (o: BlogOutcome<SavedBlog>)
    ensures o.response.Ok? || o.response.BadRequest?
    ensures o.response.BadRequest? ==> o.db == db && o.files == up.store
    ensures o.response.Ok? <==>
      (up.result.Success? && Valid(if up.result.value == [] then db1 else db1.(images := ReplacedImages(db1.images, saved.id, up.result.value, now))))
    ensures o.response.Ok? ==> o.response.body == saved.(imageUrls := up.result.value) && o.db.blogs == db1.blogs
    ensures o.response.Ok? ==> Valid(o.db)
    ensures o.response.Ok? && up.result.value == [] ==> o.db == db1 && o.files == up.store
    ensures o.response.Ok? && up.result.value != [] ==>
      o.db.images == ReplacedImages(db1.images, saved.id, up.result.value, now) && o.files == up.store - UrlPaths(oldUrls)
  {
    match up.result
    case Failure(e) => BlogOutcome(BadRequest(e.message), db, up.store)
    case Success(urls) =>
      var proposed := if urls == [] then db1 else db1.(images := ReplacedImages(db1.images, saved.id, urls, now));
      match SaveChanges(proposed)
      case Failure(e) => BlogOutcome(BadRequest(e.message), db, up.store)
      case Success(db2) =>
        BlogOutcome(Ok(saved.(imageUrls := urls)), db2, if urls == [] then up.store else DeleteImages(oldUrls, up.store))
  }

  /** What the edit assigns: title, slug and content; the author, the
      category and the creation time are kept. */
  function Edited(blog: Blog, dto: BlogSaveDto): (b: Blog)
    ensures b.title == dto.title && b.content == dto.content && b.slug == GenerateSlug(dto.title)
    ensures b.authorId == blog.authorId && b.blogCategoryId == blog.blogCategoryId && b.createdAt == blog.createdAt
  {
    blog.(title := dto.title, slug := GenerateSlug(dto.title), content := dto.content)
  }

  /** `RemoveRange(blog.Images)` then `AddRange` of the new rows. */
  function ReplacedImages(images: Table<BlogImage>, blogId: int, urls: seq<string>, now: int): Table<BlogImage> {
    InsertAll(Filter(images, (x: Row<BlogImage>) => x.data.blogId != blogId), ImageRows(blogId, urls, now))
  }

  /** Replacing a post's images leaves the other posts' images alone and
      gives this post exactly the new rows. */
  lemma ReplacedImagesRows(db: Db, blogId: int, urls: seq<string>, now: int)
    requires Valid(db) && blogId in Ids(db.blogs)
    ensures Valid(db.(images := ReplacedImages(db.images, blogId, urls, now)))
    ensures var images := ReplacedImages(db.images, blogId, urls, now);
      forall x :: x in images.rows <==>
        || (x in db.images.rows && x.data.blogId != blogId)
        || exists k :: 0 <= k < |urls| && x == Row(db.images.nextId + k, BlogImage(blogId, urls[k], None, now))
  {
    var kept := Filter(db.images, (x: Row<BlogImage>) => x.data.blogId != blogId);
    FilterWellFormed(db.images, (x: Row<BlogImage>) => x.data.blogId != blogId);
    var images := InsertAll(kept, ImageRows(blogId, urls, now));
    InsertAllKeys(kept, ImageRows(blogId, urls, now));
    forall i | 0 <= i < |images.rows| ensures images.rows[i].data.blogId in Ids(db.blogs) && ImageFits(images.rows[i].data) {
      if i < |kept.rows| {
        assert images.rows[i] == kept.rows[i];
        assert kept.rows[i] in db.images.rows;
      }
    }
    ReplaceImagesValid(db, images);
  }

  /** After replacing, the post's images are exactly the new rows. */
  lemma ReplacedImagesOf(images: Table<BlogImage>, blogId: int, urls: seq<string>, now: int)
    requires WellFormed(images)
    ensures forall x :: x in ReplacedImages(images, blogId, urls, now).rows && x.data.blogId == blogId <==>
      exists k :: 0 <= k < |urls| && x == Row(images.nextId + k, BlogImage(blogId, urls[k], None, now))
  {
    var kept := Filter(images, (x: Row<BlogImage>) => x.data.blogId != blogId);
    FilterWellFormed(images, (x: Row<BlogImage>) => x.data.blogId != blogId);
    InsertAllKeys(kept, ImageRows(blogId, urls, now));
  }

  /** An edit by the post's author is saved iff the upload succeeds, the
      new slug fits its column and no other post already has it. */
  lemma UpdateBlogAccepted(db: Db, files: FileStore, caller: Principal, id: int, dto: BlogSaveDto, now: int, names: seq<string>)
    requires Valid(db)
    requires dto.files.Some? ==> |dto.files.value| <= |names|
    requires IsInRole(caller, AdminRole) && ValidDto(dto)
    requires Find(db.blogs, id).Some? && Find(db.blogs, id).value.authorId == CallerId(caller)
    ensures UpdateBlog(db, files, caller, id, dto, now, names).response.Ok? <==>
      && UploadImages(dto.files, names, files).result.Success?
      && SlugFits(GenerateSlug(dto.title))
      && forall i :: 0 <= i < |db.blogs.rows| && db.blogs.rows[i].id != id ==> db.blogs.rows[i].data.slug != GenerateSlug(dto.title)
  {
    var blog := Find(db.blogs, id).value;
    var db1 := db.(blogs := Replace(db.blogs, id, Edited(blog, dto)));
    var saved := SavedBlog(id, dto.title, dto.content, blog.blogCategoryId, []);
    var up := UploadImages(dto.files, names, files);
    assert UpdateBlog(db, files, caller, id, dto, now, names) == StoreEdit(db, db1, saved, now, up, UrlsOf(ImagesOf(db, id)));
    ReplaceBlogValid(db, id, Edited(blog, dto));
    if up.result.Success? && up.result.value != [] {
      if Valid(db1) {
        ReplaceKeys(db.blogs, id, Edited(blog, dto));
        ReplacedImagesRows(db1, id, up.result.value, now);
      } else {
        var db2 := db1.(images := ReplacedImages(db1.images, id, up.result.value, now));
        assert db2.blogs == db1.blogs;
        if Valid(db2) {
          ReplaceKeys(db.blogs, id, Edited(blog, dto));
          BlogsSwapValid(db, db1.blogs);
          assert false;
        }
      }
    }
  }

  /** A saved edit changes the post's title, slug and content and nothing
      else of it, and leaves every other post as it was. */
  lemma UpdateBlogSavedPost(db: Db, files: FileStore, caller: Principal, id: int, dto: BlogSaveDto, now: int, names: seq<string>, other: int)
    requires Valid(db)
    requires dto.files.Some? ==> |dto.files.value| <= |names|
    requires UpdateBlog(db, files, caller, id, dto, now, names).response.Ok?
    ensures var o := UpdateBlog(db, files, caller, id, dto, now, names);
      && Valid(o.db)
      && Find(o.db.blogs, id) == Some(Edited(Find(db.blogs, id).value, dto))
      && (other != id ==> Find(o.db.blogs, other) == Find(db.blogs, other))
  {
    var blog := Find(db.blogs, id).value;
    var db1 := db.(blogs := Replace(db.blogs, id, Edited(blog, dto)));
    var saved := SavedBlog(id, dto.title, dto.content, blog.blogCategoryId, []);
    var up := UploadImages(dto.files, names, files);
    var o := StoreEdit(db, db1, saved, now, up, UrlsOf(ImagesOf(db, id)));
    assert UpdateBlog(db, files, caller, id, dto, now, names) == o;
    assert Valid(o.db);
    ReplaceKeys(db.blogs, id, Edited(blog, dto));
    ReplaceFound(db.blogs, id, Edited(blog, dto), other);
  }

  /** With new uploads a saved edit leaves the post with exactly the new
      image rows and deletes the old image files; without uploads the
      images and files are untouched. */
  lemma UpdateBlogSavedImages(db: Db, files: FileStore, caller: Principal, id: int, dto: BlogSaveDto, now: int, names: seq<string>)
    requires Valid(db)
    requires dto.files.Some? ==> |dto.files.value| <= |names|
    requires UpdateBlog(db, files, caller, id, dto, now, names).response.Ok?
    ensures var o := UpdateBlog(db, files, caller, id, dto, now, names);
      var up := UploadImages(dto.files, names, files);
      && up.result.Success?
      && o.response.body.imageUrls == up.result.value
      && (up.result.value == [] ==> o.db.images == db.images && o.files == up.store)
      && (up.result.value != [] ==>
            && o.files == up.store - UrlPaths(UrlsOf(ImagesOf(db, id)))
            && forall x :: x in ImagesOf(o.db, id) <==>
                 exists k :: 0 <= k < |up.result.value| &&
                   x == Row(db.images.nextId + k, BlogImage(id, up.result.value[k], None, now)))
  {
    var blog := Find(db.blogs, id).value;
    var db1 := db.(blogs := Replace(db.blogs, id, Edited(blog, dto)));
    var saved := SavedBlog(id, dto.title, dto.content, blog.blogCategoryId, []);
    var up := UploadImages(dto.files, names, files);
    var o := StoreEdit(db, db1, saved, now, up, UrlsOf(ImagesOf(db, id)));
    assert UpdateBlog(db, files, caller, id, dto, now, names) == o;
    if up.result.value != [] {
      ReplacedImagesOf(db.images, id, up.result.value, now);
    }
  }

  /** An edit with no files, or an empty file list, never touches the
      image rows or the files, whatever the outcome. */
  lemma UpdateWithoutFilesKeepsImages(db: Db, files: FileStore, caller: Principal, id: int, dto: BlogSaveDto, now: int, names: seq<string>)
    requires dto.files.None? || dto.files.value == []
    ensures var o := UpdateBlog(db, files, caller, id, dto, now, names);
      o.db.images == db.images && o.files == files
  {
  }

  /** An edit whose new slug clashes with another post is refused after
      the upload: the rows roll back and the new files stay. */
  lemma UpdateBlogSlugClashLeaks(db: Db, files: FileStore, caller: Principal, id: int, other: int, dto: BlogSaveDto, now: int, names: seq<string>)
    requires Valid(db)
    requires dto.files.Some? ==> |dto.files.value| <= |names|
    requires IsInRole(caller, AdminRole) && ValidDto(dto)
    requires Find(db.blogs, id).Some? && Find(db.blogs, id).value.authorId == CallerId(caller)
    requires other != id && Find(db.blogs, other).Some? && Find(db.blogs, other).value.slug == GenerateSlug(dto.title)
    requires UploadImages(dto.files, names, files).result.Success?
    ensures var o := UpdateBlog(db, files, caller, id, dto, now, names);
      && o.response == BadRequest(DbUpdateMessage)
      && o.db == db
      && o.files == UploadImages(dto.files, names, files).store
  {
    UpdateBlogAccepted(db, files, caller, id, dto, now, names);
    var j :| 0 <= j < |db.blogs.rows| && db.blogs.rows[j] == Row(other, Find(db.blogs, other).value);
    var blog := Find(db.blogs, id).value;
    var db1 := db.(blogs := Replace(db.blogs, id, Edited(blog, dto)));
    var saved := SavedBlog(id, dto.title, dto.content, blog.blogCategoryId, []);
    var up := UploadImages(dto.files, names, files);
    assert UpdateBlog(db, files, caller, id, dto, now, names) == StoreEdit(db, db1, saved, now, up, UrlsOf(ImagesOf(db, id)));
  }

  /** An edit whose new slug does not fit its column is refused after the
      upload: the rows roll back, the new files stay and the old ones are
      not deleted. */
  lemma UpdateBlogLongSlugLeaks(db: Db, files: FileStore, caller: Principal, id: int, dto: BlogSaveDto, now: int, names: seq<string>)
    requires Valid(db)
    requires dto.files.Some? ==> |dto.files.value| <= |names|
    requires IsInRole(caller, AdminRole) && ValidDto(dto)
    requires Find(db.blogs, id).Some? && Find(db.blogs, id).value.authorId == CallerId(caller)
    requires !SlugFits(GenerateSlug(dto.title))
    ensures var o := UpdateBlog(db, files, caller, id, dto, now, names);
      && o.response.BadRequest?
      && o.db == db
      && o.files == UploadImages(dto.files, names, files).store
  {
    UpdateBlogAccepted(db, files, caller, id, dto, now, names);
    var blog := Find(db.blogs, id).value;
    var db1 := db.(blogs := Replace(db.blogs, id, Edited(blog, dto)));
    var saved := SavedBlog(id, dto.title, dto.content, blog.blogCategoryId, []);
    var up := UploadImages(dto.files, names, files);
    assert UpdateBlog(db, files, caller, id, dto, now, names) == StoreEdit(db, db1, saved, now, up, UrlsOf(ImagesOf(db, id)));
  }

  /** `DeleteBlog`: admins only, NotFound for a missing key, Forbid for a
      caller who is not the author; otherwise the post goes with its
      images, comments and likes, then its image files are deleted, then
      the audit record is written — outside any try block, so an audit
      failure answers 500 after both stores changed. */
  function DeleteBlog(db: Db, files: FileStore, caller: Principal, id: int, audit: Option<Exception>)
    : (o: BlogOutcome<()>)
    ensures o.response.NotFound? <==> IsInRole(caller, AdminRole) && Find(db.blogs, id).None?
    ensures o.response.Forbid? <==>
      || !IsInRole(caller, AdminRole)
      || (Find(db.blogs, id).Some? && Find(db.blogs, id).value.authorId != CallerId(caller))
    ensures o.response.NotFound? || o.response.Forbid? ==> o.db == db && o.files == files
    ensures o.response.Ok? ==> audit.None?
  {
    if !IsInRole(caller, AdminRole) then BlogOutcome(Forbid, db, files)
    else match Find(db.blogs, id)
      case None => BlogOutcome(NotFound(""), db, files)
      case Some(blog) =>
        if blog.authorId != CallerId(caller) then BlogOutcome(Forbid, db, files)
        else
          var urls := UrlsOf(ImagesOf(db, id));
          match SaveChanges(RemoveBlog(db, id))
          case Failure(e) => BlogOutcome(ServerError(e.message), db, files)
          case Success(db1) =>
            var remaining := DeleteImages(urls, files);
            if audit.Some? then BlogOutcome(ServerError(audit.value.message), db1, remaining)
            else BlogOutcome(Ok(()), db1, remaining)
  }

  /** An admin author's delete always reaches the database: the post and
      its dependents go, exactly its image files are deleted, and a second
      delete of the same key answers NotFound. */
  lemma DeleteBlogRemoves(db: Db, files: FileStore, caller: Principal, id: int, audit: Option<Exception>, again: Option<Exception>)
    requires Valid(db)
    requires IsInRole(caller, AdminRole)
    requires Find(db.blogs, id).Some? && Find(db.blogs, id).value.authorId == CallerId(caller)
    ensures var o := DeleteBlog(db, files, caller, id, audit);
      && (o.response.Ok? <==> audit.None?)
      && (audit.Some? ==> o.response == ServerError(audit.value.message))
      && o.db == RemoveBlog(db, id)
      && Valid(o.db)
      && o.files == files - UrlPaths(UrlsOf(ImagesOf(db, id)))
      && DeleteBlog(o.db, o.files, caller, id, again).response == NotFound("")
  {
    RemoveBlogValid(db, id);
  }
}
