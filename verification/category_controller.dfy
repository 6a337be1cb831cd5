/** `BlogCategoryController`: the public list of categories and the
    administrators' add, rename and delete. The audit write after a
    change is not guarded, so its failure (`audit`) becomes a 500 once the
    change is saved. */
module CategoryController {
  import opened Base
  import opened Text
  import opened Tables
  import opened Schema
  import opened Claims

  /** The request body of add and edit; only the name is `[Required]`. */
  datatype CategorySaveDto = CategorySaveDto(categoryName: string, description: string)

  const NoCategoriesMessage := "No blog categories found."

  function EditNotFoundMessage(id: int): string {
    "No BlogCategory found with ID " + IntToString(id)
  }

  function DeleteNotFoundMessage(id: int): string {
    "Blog category with ID " + IntToString(id) + " not found."
  }

  /** `GetBlogCategories`: open to anyone; an empty table is a 404. */
  function GetCategories(db: Db): (r: Response<seq<Row<BlogCategory>>>)
    ensures r.Ok? || r.NotFound?
    ensures r.NotFound? <==> Ids(db.categories) == {}
    ensures r.NotFound? ==> r.message == NoCategoriesMessage
    ensures r.Ok? ==> forall c :: c in r.body <==> c in db.categories.rows
  {
    if |db.categories.rows| == 0 then NotFound(NoCategoriesMessage)
    else
      assert db.categories.rows[0].id in Ids(db.categories);
      Ok(db.categories.rows)
  }

  /** `AddNewBlogCategory`. */
  function AddCategory(db: Db, caller: Principal, dto: CategorySaveDto, audit: Option<Exception>)
    : (o: Outcome<Row<BlogCategory>>)
    ensures o.response.Forbid? <==> !IsInRole(caller, AdminRole)
    ensures o.response.BadRequest? <==> IsInRole(caller, AdminRole) && !IsRequiredText(dto.categoryName)
    ensures o.response.Ok? ==> o.response.body == Row(db.categories.nextId, BlogCategory(dto.categoryName, dto.description))
    ensures o.db == db || o.db == db.(categories := Insert(db.categories, BlogCategory(dto.categoryName, dto.description)))
  {
    if !IsInRole(caller, AdminRole) then Outcome(Forbid, db)
    else if !IsRequiredText(dto.categoryName) then Outcome(BadRequest(ValidationFailedMessage), db)
    else
      var c := BlogCategory(dto.categoryName, dto.description);
      match SaveChanges(db.(categories := Insert(db.categories, c)))
      case Failure(e) => Outcome(ServerError(e.message), db)
      case Success(db1) =>
        if audit.Some? then Outcome(ServerError(audit.value.message), db1)
        else Outcome(Ok(Row(db.categories.nextId, c)), db1)
  }

  /** An administrator's valid request always stores the category under
      the next key, where the listing then shows it. */
  lemma AddCategoryStored(db: Db, caller: Principal, dto: CategorySaveDto, audit: Option<Exception>)
    requires Valid(db)
    requires IsInRole(caller, AdminRole) && IsRequiredText(dto.categoryName)
    ensures var o := AddCategory(db, caller, dto, audit);
      && Valid(o.db)
      && (o.response.Ok? <==> audit.None?)
      && Find(o.db.categories, db.categories.nextId) == Some(BlogCategory(dto.categoryName, dto.description))
      && (forall other :: other != db.categories.nextId ==> Find(o.db.categories, other) == Find(db.categories, other))
      && o.db.(categories := db.categories) == db
      && GetCategories(o.db).Ok?
  {
    var c := BlogCategory(dto.categoryName, dto.description);
    CategoryChangesValid(db, c, 0);
    forall other ensures other != db.categories.nextId ==> Find(Insert(db.categories, c), other) == Find(db.categories, other) {
      InsertFound(db.categories, c, other);
    }
  }

  /** `EditBlogCategory`: validation, then lookup, then the new name and
      description. */
  function EditCategory(db: Db, caller: Principal, id: int, dto: CategorySaveDto, audit: Option<Exception>)
    : (o: Outcome<Row<BlogCategory>>)
    ensures o.response.Forbid? <==> !IsInRole(caller, AdminRole)
    ensures o.response.BadRequest? <==> IsInRole(caller, AdminRole) && !IsRequiredText(dto.categoryName)
    ensures o.response.NotFound? <==>
      IsInRole(caller, AdminRole) && IsRequiredText(dto.categoryName) && id !in Ids(db.categories)
    ensures o.response.NotFound? ==> o.response.message == EditNotFoundMessage(id)
    ensures !o.response.Ok? && !o.response.ServerError? ==> o.db == db
  {
    if !IsInRole(caller, AdminRole) then Outcome(Forbid, db)
    else if !IsRequiredText(dto.categoryName) then Outcome(BadRequest(ValidationFailedMessage), db)
    else
      match Find(db.categories, id)
      case None => Outcome(NotFound(EditNotFoundMessage(id)), db)
      case Some(_) =>
        var c := BlogCategory(dto.categoryName, dto.description);
        match SaveChanges(db.(categories := Replace(db.categories, id, c)))
        case Failure(e) => Outcome(ServerError(e.message), db)
        case Success(db1) =>
          if audit.Some? then Outcome(ServerError(audit.value.message), db1)
          else Outcome(Ok(Row(id, c)), db1)
  }

  /** Renaming an existing category is always saved, replaces both of its
      fields and touches nothing else. */
  lemma EditCategoryStored(db: Db, caller: Principal, id: int, dto: CategorySaveDto, audit: Option<Exception>)
    requires Valid(db)
    requires IsInRole(caller, AdminRole) && IsRequiredText(dto.categoryName)
    requires id in Ids(db.categories)
    ensures var o := EditCategory(db, caller, id, dto, audit);
      && Valid(o.db)
      && (o.response.Ok? <==> audit.None?)
      && Find(o.db.categories, id) == Some(BlogCategory(dto.categoryName, dto.description))
      && (forall other :: other != id ==> Find(o.db.categories, other) == Find(db.categories, other))
      && o.db.(categories := db.categories) == db
  {
    var c := BlogCategory(dto.categoryName, dto.description);
    CategoryChangesValid(db, c, id);
    forall other ensures Find(Replace(db.categories, id, c), other) == (if other == id then Some(c) else Find(db.categories, other)) {
      ReplaceFound(db.categories, id, c, other);
    }
  }

  /** `DeleteBlogCategory`. A category still used by a post is refused
      by the restrict foreign key, and that refusal escapes as a 500. */
  function DeleteCategory(db: Db, caller: Principal, id: int, audit: Option<Exception>): (o: Outcome<()>)
    ensures o.response.Forbid? <==> !IsInRole(caller, AdminRole)
    ensures o.response.NotFound? <==> IsInRole(caller, AdminRole) && id !in Ids(db.categories)
    ensures o.response.NotFound? ==> o.response.message == DeleteNotFoundMessage(id)
    ensures o.response.NoContent? || o.response.Forbid? || o.response.NotFound? || o.response.ServerError?
    ensures o.db == db || o.db == RemoveCategory(db, id)
  {
    if !IsInRole(caller, AdminRole) then Outcome(Forbid, db)
    else
      match Find(db.categories, id)
      case None => Outcome(NotFound(DeleteNotFoundMessage(id)), db)
      case Some(_) =>
        match SaveChanges(RemoveCategory(db, id))
        case Failure(e) => Outcome(ServerError(e.message), db)
        case Success(db1) =>
          if audit.Some? then Outcome(ServerError(audit.value.message), db1)
          else Outcome(NoContent, db1)
  }

  /** An administrator's delete of an existing category removes it iff no
      post uses it; otherwise the database is untouched and the caller
      gets the database's refusal. */
  lemma DeleteCategoryRestricted(db: Db, caller: Principal, id: int, audit: Option<Exception>)
    requires Valid(db)
    requires IsInRole(caller, AdminRole) && id in Ids(db.categories)
    ensures var o := DeleteCategory(db, caller, id, audit);
      && Valid(o.db)
      && (CategoryInUse(db, id) ==> o == Outcome(ServerError(DbUpdateMessage), db))
      && (!CategoryInUse(db, id) ==>
            && (o.response.NoContent? <==> audit.None?)
            && Ids(o.db.categories) == Ids(db.categories) - {id}
            && (forall other :: other != id ==> Find(o.db.categories, other) == Find(db.categories, other))
            && o.db.(categories := db.categories) == db)
  {
    RemoveCategoryRestrict(db, id);
    RemoveIdKeys(db.categories, id);
    forall other ensures other != id ==> Find(RemoveId(db.categories, id), other) == Find(db.categories, other) {
      RemoveIdFound(db.categories, id, other);
    }
  }

  /** The two not-found messages name the key asked for, so different
      keys give different messages. */
  lemma NotFoundMessagesNameTheKey(a: int, b: int)
    requires a != b
    ensures EditNotFoundMessage(a) != EditNotFoundMessage(b)
    ensures DeleteNotFoundMessage(a) != DeleteNotFoundMessage(b)
  {
    var p := "No BlogCategory found with ID ";
    if EditNotFoundMessage(a) == EditNotFoundMessage(b) {
      assert EditNotFoundMessage(a)[|p|..] == IntToString(a);
      assert EditNotFoundMessage(b)[|p|..] == IntToString(b);
      IntToStringInjective(a, b);
    }
    var q := "Blog category with ID ";
    if DeleteNotFoundMessage(a) == DeleteNotFoundMessage(b) {
      var m := DeleteNotFoundMessage(a);
      var n := |m| - |" not found."|;
      assert m[|q|..n] == IntToString(a);
      IntToStringInjective(a, b);
    }
  }
}
