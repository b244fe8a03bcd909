/** `RoleController`: the paged role list and the create, update and delete
    endpoints with their guards. */
module RoleEndpoints {
  import opened Base
  import opened Text
  import opened Entities
  import opened Repository
  import opened ApiResponses
  import opened Sorting
  import opened Paging
  import opened Catalogue

  const PageSize: nat := 50

  /** The key of `OrderBy(r => r.Name)`. */
  function NameKey(e: Entity<Role>): seq<int> {
    Codes(e.data.name)
  }

  /** The name the uniqueness guard compares. */
  function RoleName(r: Role): string {
    r.name
  }

  /** `GetRoles(offset)`: the page of roles ordered by name. A `RoleDto`
      carries exactly the row's columns, so the page holds the rows. */
  function GetRoles(db: Db, offset: int): (r: Reply<PagedData<Entity<Role>>>)
    requires InInt32(offset) && |db.roles| <= Int32Max
    ensures r.status == Ok && r.body.success && r.body.data.Some?
    ensures r.body.data.value.totalCount == |db.roles|
    ensures r.body.data.value.nextOffset == Wrap32(ClampOffset(offset) + PageSize)
    ensures r.body.data.value.hasMore <==> |db.roles| > r.body.data.value.nextOffset
    ensures |r.body.data.value.items| == Min(PageSize, Max(0, |db.roles| - ClampOffset(offset)))
    ensures forall i :: 0 <= i < |r.body.data.value.items| ==>
      r.body.data.value.items[i] == SortBy(db.roles, NameKey)[ClampOffset(offset) + i]
    ensures forall i :: 0 <= i < |r.body.data.value.items| ==> r.body.data.value.items[i] in db.roles
    ensures forall i, j :: 0 <= i < j < |r.body.data.value.items| ==>
      LexLe(NameKey(r.body.data.value.items[i]), NameKey(r.body.data.value.items[j]))
  {
    Reply(Ok, PagedSuccessResult(SortedPage(db.roles, NameKey, offset, PageSize)))
  }

  /** `CreateRole`: the name must be non-blank and not taken ignoring case.
      The role gets identifier `newId` and its creation stamp and is saved.
      The action then returns `CreatedAtAction(nameof(GetRole), value)`
      without route values, and the `GetRole` route needs `{id}`. Building
      the `Location` link therefore raises `noRoute` while the result is
      executed, after the save and outside the `try`. */
  function CreateRole(db: Db, name: string, description: string, fold: string -> string, newId: Id, s: Stamp,
                      noRoute: Exception)
    : (r: (Response<Entity<Role>>, Db))
    requires Valid(db) && newId !in Ids(db.roles)
    ensures Valid(r.1)
    ensures r.0.Thrown? <==> !IsBlank(name) && !NameTaken(db.roles, RoleName, fold, name, None)
    ensures r.0.Answer? ==> r.0.reply.status == BadRequest && !r.0.reply.body.success && r.1 == db
    ensures IsBlank(name) ==>
      r.0 == Answer(Reply(BadRequest, Fail("Role name is required", "Invalid role data")))
    ensures !IsBlank(name) && NameTaken(db.roles, RoleName, fold, name, None) ==>
      r.0 == Answer(Reply(BadRequest, Fail("Role name already exists", "Role name must be unique")))
    ensures r.0.Thrown? ==>
      && r.0.exception == noRoute
      && r.1 == db.(roles := db.roles + [StampCreated(Entity(newId, Role(name, description), Unstamped), RoleKind, s)])
    ensures NamesDistinct(db.roles, RoleName, fold) ==> NamesDistinct(r.1.roles, RoleName, fold)
  {
    if IsBlank(name) then
      (Answer(Reply(BadRequest, Fail("Role name is required", "Invalid role data"))), db)
    else if NameTaken(db.roles, RoleName, fold, name, None) then
      (Answer(Reply(BadRequest, Fail("Role name already exists", "Role name must be unique"))), db)
    else
      var row := Entity(newId, Role(name, description), Unstamped);
      var table := Create(db.roles, row, RoleKind, s);
      assert NamesDistinct(db.roles, RoleName, fold) ==> NamesDistinct(table, RoleName, fold) by {
        if NamesDistinct(db.roles, RoleName, fold) {
          CreateKeepsNamesDistinct(db.roles, row, RoleKind, s, RoleName, fold);
        }
      }
      (Thrown(noRoute), db.(roles := table))
  }

  /** `GetRole(id)`: NotFound for an unknown identifier, otherwise the row
      with its audit columns. */
  function GetRole(db: Db, id: Id): (r: Reply<Entity<Role>>)
    requires Valid(db)
    ensures id !in Ids(db.roles) ==> r == NotFoundReply("Role")
    ensures id in Ids(db.roles) ==>
      r.status == Ok && r.body.success && r.body.data.Some?
      && r.body.data.value in db.roles && r.body.data.value.id == id
  {
    match FindById(db.roles, id)
    case None => NotFoundReply("Role")
    case Some(row) => Reply(Ok, SuccessResult(row))
  }

  /** A create that ended in the link-generation error has still stored
      the role: reading it back gives the row with its creation stamp. */
  lemma CreateThenGet(db: Db, name: string, description: string, fold: string -> string, newId: Id, s: Stamp,
                      noRoute: Exception)
    requires Valid(db) && newId !in Ids(db.roles)
    requires CreateRole(db, name, description, fold, newId, s, noRoute).0.Thrown?
    ensures var r := CreateRole(db, name, description, fold, newId, s, noRoute);
      var row := StampCreated(Entity(newId, Role(name, description), Unstamped), RoleKind, s);
      && GetRole(r.1, newId).body.data == Some(row)
      && row.stamps.createdAt == s.now && row.stamps.createdBy == Some(s.user)
  {
    var row := Entity(newId, Role(name, description), Unstamped);
    CreateThenFind(db.roles, row, RoleKind, s);
  }

  /** Reading a role back right after a successful update gives exactly the
      row the update reply carried. */
  lemma UpdateThenGet(db: Db, id: Id, name: string, description: string, fold: string -> string, s: Stamp)
    requires Valid(db)
    requires UpdateRole(db, id, id, name, description, fold, s).0.status == Ok
    ensures var r := UpdateRole(db, id, id, name, description, fold, s);
      GetRole(r.1, id).body.data == r.0.body.data
  {
  }

  /** `UpdateRole`: the route and body identifiers must agree, the role must
      exist, and the new name must not belong to another role ignoring case;
      the name is always checked, even when unchanged, and a blank name is
      not rejected. Name and description are overwritten and the row gets
      its modification stamp. */
  function UpdateRole(db: Db, id: Id, bodyId: Id, name: string, description: string, fold: string -> string, s: Stamp)
    : (r: (Reply<Entity<Role>>, Db))
    requires Valid(db)
    ensures Valid(r.1)
    ensures id != bodyId ==> r.0 == IdMismatchReply() && r.1 == db
    ensures id == bodyId && id !in Ids(db.roles) ==> r.0 == NotFoundReply("Role") && r.1 == db
    ensures id == bodyId && id in Ids(db.roles) && NameTaken(db.roles, RoleName, fold, name, Some(id)) ==>
      r.0.body.errors == Some(["Role name already exists"]) && r.0.body.message == "Role name must be unique"
    ensures r.0.status == Ok <==>
      id == bodyId && id in Ids(db.roles) && !NameTaken(db.roles, RoleName, fold, name, Some(id))
    ensures r.0.status != Ok ==> !r.0.body.success && r.1 == db
    ensures r.0.status == Ok ==>
      var updated := StampModified(FindById(db.roles, id).value.(data := Role(name, description)), RoleKind, s);
      && r.0.body.success && r.0.body.message == "Role updated successfully"
      && r.0.body.data == Some(updated)
      && FindById(r.1.roles, id) == Some(updated)
      && r.1 == db.(roles := r.1.roles)
      && forall x :: x in db.roles && x.id != id ==> x in r.1.roles
    ensures NamesDistinct(db.roles, RoleName, fold) ==> NamesDistinct(r.1.roles, RoleName, fold)
  {
    if id != bodyId then (IdMismatchReply(), db)
    else match FindById(db.roles, id)
      case None => (NotFoundReply("Role"), db)
      case Some(current) =>
        if NameTaken(db.roles, RoleName, fold, name, Some(id)) then
          (Reply(BadRequest, Fail("Role name already exists", "Role name must be unique")), db)
        else
          var edited := current.(data := Role(name, description));
          var table := Update(db.roles, edited, RoleKind, s);
          var updated := StampModified(edited, RoleKind, s);
          UpdateThenFind(db.roles, edited, RoleKind, s);
          assert NamesDistinct(db.roles, RoleName, fold) ==> NamesDistinct(table, RoleName, fold) by {
            if NamesDistinct(db.roles, RoleName, fold) {
              UpdateKeepsNamesDistinct(db.roles, edited, RoleKind, s, RoleName, fold);
            }
          }
          (Reply(Ok, SuccessResult(updated, "Role updated successfully")), db.(roles := table))
  }

  /** Some user holds role `id`: `role.UserRoles.Count != 0`. */
  predicate InUse(db: Db, id: Id) {
    exists i :: 0 <= i < |db.userRoles| && db.userRoles[i].roleId == id
  }

  /** `DeleteRole`: an unknown identifier is NotFound, a role held by some
      user is refused, any other role is removed. */
  function DeleteRole(db: Db, id: Id): (r: (Reply<()>, Db))
    requires Valid(db)
    ensures Valid(r.1)
    ensures id !in Ids(db.roles) ==> r.0 == NotFoundReply("Role") && r.1 == db
    ensures id in Ids(db.roles) && InUse(db, id) ==>
      && r.0.status == BadRequest && !r.0.body.success && r.1 == db
      && r.0.body.errors == Some(["Cannot delete role that is assigned to users"])
      && r.0.body.message == "Role is in use"
    ensures r.0.status == Ok <==> id in Ids(db.roles) && !InUse(db, id)
    ensures r.0.status == Ok ==>
      && r.0.body.success && r.0.body.message == "Role deleted successfully"
      && Ids(r.1.roles) == Ids(db.roles) - {id}
      && r.1 == db.(roles := r.1.roles)
      && forall x :: x in db.roles && x.id != id ==> x in r.1.roles
  {
    match FindById(db.roles, id)
    case None => (NotFoundReply("Role"), db)
    case Some(current) =>
      if InUse(db, id) then
        (Reply(BadRequest, Fail("Cannot delete role that is assigned to users", "Role is in use")), db)
      else
        (Reply(Ok, SuccessResult((), "Role deleted successfully")),
         db.(roles := Delete(db.roles, current, RoleKind, Stamp(0, ""))))
  }

  /** After a successful delete no user holds a role that no longer exists:
      the guard keeps the link table's role references valid. */
  lemma DeleteKeepsLinksValid(db: Db, id: Id)
    requires Valid(db)
    requires forall i :: 0 <= i < |db.userRoles| ==> db.userRoles[i].roleId in Ids(db.roles)
    ensures var r := DeleteRole(db, id);
      forall i :: 0 <= i < |r.1.userRoles| ==> r.1.userRoles[i].roleId in Ids(r.1.roles)
  {
  }
}
