/** `UserController`: the administrators' view of the user table and the
    promotion or demotion of a user between the two roles. */
module UserController {
  import opened Base
  import opened Tables
  import opened Schema
  import opened Claims

  /** What the listing exposes of a user: no password hash, no e-mail
      confirmation data; `Website` and `ProfileImagePath` keep the DTO's
      defaults because the projection does not set them. */
  datatype UserResponseDto = UserResponseDto(
    id: int,
    userName: string,
    email: string,
    website: string,
    profileImagePath: Option<string>,
    role: string)

  /** The request body of `ModifyUserRole`. */
  datatype UserModifyDto = UserModifyDto(userId: int)

  function Project(u: Row<User>): UserResponseDto {
    UserResponseDto(u.id, u.data.userName, u.data.email, "", None, u.data.role)
  }

  function ProjectAll(rows: seq<Row<User>>): (r: seq<UserResponseDto>)
    ensures |r| == |rows| && forall i :: 0 <= i < |rows| ==> r[i] == Project(rows[i])
  {
    seq(|rows|, i requires 0 <= i < |rows| => Project(rows[i]))
  }

  /** `GetUsers`, for administrators only. */
  function GetUsers(db: Db, caller: Principal): (r: Response<seq<UserResponseDto>>)
    ensures r.Forbid? <==> !IsInRole(caller, AdminRole)
    ensures r.Ok? <==> IsInRole(caller, AdminRole)
    ensures r.Ok? ==> |r.body| == |db.users.rows|
  {
    if !IsInRole(caller, AdminRole) then Forbid
    else Ok(ProjectAll(db.users.rows))
  }

  /** An administrator gets one entry per user, each once. */
  lemma GetUsersListsEveryone(db: Db, caller: Principal)
    requires WellFormed(db.users)
    requires IsInRole(caller, AdminRole)
    ensures var r := GetUsers(db, caller);
      && r.Ok?
      && (forall id :: id in Ids(db.users) <==> exists i :: 0 <= i < |r.body| && r.body[i].id == id)
      && (forall i, j :: 0 <= i < j < |r.body| ==> r.body[i].id != r.body[j].id)
  {
    var r := GetUsers(db, caller).body;
    forall id | id in Ids(db.users) ensures exists i :: 0 <= i < |r| && r[i].id == id {
      var i :| 0 <= i < |db.users.rows| && db.users.rows[i].id == id;
      assert r[i].id == id;
    }
  }

  /** Each entry carries the name, address and role stored under its key,
      and nothing about the user's website or picture. */
  lemma GetUsersShowsStoredFields(db: Db, caller: Principal, i: int)
    requires WellFormed(db.users)
    requires IsInRole(caller, AdminRole)
    requires 0 <= i < |db.users.rows|
    ensures var e := GetUsers(db, caller).body[i];
      var u := Find(db.users, e.id);
      && u.Some?
      && e.userName == u.value.userName
      && e.email == u.value.email
      && e.role == u.value.role
      && e.website == ""
      && e.profileImagePath.None?
  {
    FindUnique(db.users, db.users.rows[i].id, db.users.rows[i].data);
  }

  /** The toggle: a `"User"` becomes an `"Admin"`, anything else becomes a
      `"User"`. */
  function ToggleRole(role: string): (r: string)
    ensures r == AdminRole || r == UserRole
    ensures r == AdminRole <==> role == UserRole
  {
    if role == UserRole then AdminRole else UserRole
  }

  /** Between the two known roles the toggle undoes itself. */
  lemma ToggleRoleTwice(role: string)
    requires role == UserRole || role == AdminRole
    ensures ToggleRole(ToggleRole(role)) == role
  {
  }

  /** `ModifyUserRole`: the attribute admits administrators only; the
      action then also requires the first role claim to say `"Admin"`. */
  function ModifyUserRole(db: Db, caller: Principal, dto: UserModifyDto, audit: Option<Exception>): (o: Outcome<Row<User>>)
    ensures o.response.NotFound? <==> IsInRole(caller, AdminRole) && dto.userId !in Ids(db.users)
    ensures o.response.Forbid? <==>
      || !IsInRole(caller, AdminRole)
      || (dto.userId in Ids(db.users) && !FirstClaimIsAdmin(caller, RoleClaimType))
    ensures o.response.NotFound? || o.response.Forbid? ==> o.db == db
  {
    if !IsInRole(caller, AdminRole) then Outcome(Forbid, db)
    else
      match Find(db.users, dto.userId)
      case None => Outcome(NotFound(""), db)
      case Some(u) =>
        if FirstClaimIsAdmin(caller, RoleClaimType) then
          var changed := u.(role := ToggleRole(u.role));
          match SaveChanges(db.(users := Replace(db.users, dto.userId, changed)))
          case Failure(e) => Outcome(ServerError(e.message), db)
          case Success(db1) =>
            if audit.Some? then Outcome(ServerError(audit.value.message), db1)
            else Outcome(Ok(Row(dto.userId, changed)), db1)
        else Outcome(Forbid, db)
  }

  /** For a token from the login endpoint the action's own claim test
      agrees with the attribute: only administrators get past either. */
  lemma ModifyUserRoleIssued(db: Db, id: int, name: string, role: string, dto: UserModifyDto, audit: Option<Exception>)
    ensures var o := ModifyUserRole(db, IssuedPrincipal(id, name, role), dto, audit);
      o.response.Forbid? <==> role != AdminRole
  {
    IssuedPrincipalRoles(id, name, role);
  }

  /** A permitted change is always saved and flips that user's role
      only; nothing else in the database moves. */
  lemma ModifyUserRoleStored(db: Db, caller: Principal, dto: UserModifyDto, audit: Option<Exception>)
    requires Valid(db)
    requires IsInRole(caller, AdminRole) && FirstClaimIsAdmin(caller, RoleClaimType)
    requires dto.userId in Ids(db.users)
    ensures var o := ModifyUserRole(db, caller, dto, audit);
      var before := Find(db.users, dto.userId).value;
      && Valid(o.db)
      && (o.response.Ok? <==> audit.None?)
      && Find(o.db.users, dto.userId) == Some(before.(role := ToggleRole(before.role)))
      && (forall other :: other != dto.userId ==> Find(o.db.users, other) == Find(db.users, other))
      && o.db.(users := db.users) == db
  {
    var before := Find(db.users, dto.userId).value;
    var changed := before.(role := ToggleRole(before.role));
    ReplaceUserValid(db, dto.userId, changed);
    forall other ensures other != dto.userId ==> Find(Replace(db.users, dto.userId, changed), other) == Find(db.users, other) {
      ReplaceFound(db.users, dto.userId, changed, other);
    }
  }

  /** The state a permitted change commits. */
  lemma ModifyUserRoleCommits(db: Db, caller: Principal, dto: UserModifyDto)
    requires Valid(db)
    requires IsInRole(caller, AdminRole) && FirstClaimIsAdmin(caller, RoleClaimType)
    requires dto.userId in Ids(db.users)
    ensures var before := Find(db.users, dto.userId).value;
      var o := ModifyUserRole(db, caller, dto, None);
      && o.db == db.(users := Replace(db.users, dto.userId, before.(role := ToggleRole(before.role))))
      && Valid(o.db)
  {
    var before := Find(db.users, dto.userId).value;
    ReplaceUserValid(db, dto.userId, before.(role := ToggleRole(before.role)));
  }

  /** Promoting then demoting (or the reverse) a user in one of the two
      known roles restores the database exactly. */
  lemma ModifyUserRoleTwiceRestores(db: Db, caller: Principal, dto: UserModifyDto)
    requires Valid(db)
    requires IsInRole(caller, AdminRole) && FirstClaimIsAdmin(caller, RoleClaimType)
    requires dto.userId in Ids(db.users)
    requires Find(db.users, dto.userId).value.role in {UserRole, AdminRole}
    ensures var o := ModifyUserRole(db, caller, dto, None);
      ModifyUserRole(o.db, caller, dto, None).db == db
  {
    var id := dto.userId;
    var before := Find(db.users, id).value;
    var changed := before.(role := ToggleRole(before.role));
    var o := ModifyUserRole(db, caller, dto, None);
    ModifyUserRoleCommits(db, caller, dto);
    ReplaceKeys(db.users, id, changed);
    ReplaceFound(db.users, id, changed, id);
    ToggleRoleTwice(before.role);
    assert changed.(role := ToggleRole(changed.role)) == before;
    ModifyUserRoleCommits(o.db, caller, dto);
    ReplaceTwice(db.users, id, changed, before);
    ReplaceSame(db.users, id, before);
  }
}
