/** `EfRepository<T>`: the generic repository every catalogue controller
    goes through. A table is the sequence of its rows in the order the
    database returns them when no ordering is asked for. */
module Repository {
  import opened Base
  import opened Entities
  import opened Sorting

  type Table<T> = seq<Entity<T>>

  /** The identifiers present in a table. */
  ghost function Ids<T>(t: Table<T>): (r: set<Id>)
    ensures forall i :: 0 <= i < |t| ==> t[i].id in r
    ensures forall x :: x in r ==> exists i :: 0 <= i < |t| && t[i].id == x
  {
    set e | e in t :: e.id
  }

  lemma IdsAppend<T>(t: Table<T>, x: Entity<T>)
    ensures Ids(t + [x]) == Ids(t) + {x.id}
  {
    assert forall e :: e in t + [x] <==> e in t || e == x;
  }

  /** The primary key: no two rows share an identifier. */
  predicate UniqueIds<T>(t: Table<T>) {
    forall i, j :: 0 <= i < j < |t| ==> t[i].id != t[j].id
  }

  /** Who and when, for the audit columns: the request's clock and the
      repository's `CurrentUser`. */
  datatype Stamp = Stamp(now: int, user: string)

  /** `CurrentUser`: the authenticated identity's name, or "System" when
      there is none. */
  function CurrentUser(identityName: Option<string>): (r: string)
    ensures identityName.Some? ==> r == identityName.value
    ensures identityName.None? ==> r == "System"
  {
    identityName.GetOr("System")
  }

  /** `GetAsync(predicate)`: the first row satisfying the predicate. */
  function Find<T(==)>(t: Table<T>, p: Entity<T> -> bool): (r: Option<Entity<T>>)
    ensures r.Some? ==> p(r.value) && r.value in t
    ensures r.None? <==> forall i :: 0 <= i < |t| ==> !p(t[i])
    ensures r.Some? ==> exists k :: 0 <= k < |t| && t[k] == r.value && forall i :: 0 <= i < k ==> !p(t[i])
  {
    if |t| == 0 then None
    else if p(t[0]) then
      Some(t[0])
    else
      var r := Find(t[1..], p);
      if r.Some? then
        var k :| 0 <= k < |t[1..]| && t[1..][k] == r.value && forall i :: 0 <= i < k ==> !p(t[1..][i]);
        assert t[k + 1] == r.value && forall i :: 0 <= i < k + 1 ==> !p(t[i]);
        r
      else r
  }

  /** The row with the given identifier. */
  function FindById<T(==)>(t: Table<T>, id: Id): (r: Option<Entity<T>>)
    requires UniqueIds(t)
    ensures r.Some? <==> id in Ids(t)
    ensures r.Some? ==> r.value.id == id && r.value in t
    ensures r.Some? ==> forall i :: 0 <= i < |t| && t[i].id == id ==> t[i] == r.value
  {
    Find(t, (e: Entity<T>) => e.id == id)
  }

  /** The audit stamp `CreateAsync` writes, only on auditable entities. */
  function StampCreated<T>(e: Entity<T>, kind: Kind, s: Stamp): (r: Entity<T>)
    ensures r.id == e.id && r.data == e.data
    ensures kind.auditable ==> r.stamps.createdAt == s.now && r.stamps.createdBy == Some(s.user)
    ensures !kind.auditable ==> r == e
    ensures r.stamps.lastModifiedAt == e.stamps.lastModifiedAt && r.stamps.isDeleted == e.stamps.isDeleted
  {
    if kind.auditable then e.(stamps := e.stamps.(createdAt := s.now, createdBy := Some(s.user))) else e
  }

  /** The audit stamp `UpdateAsync` writes, only on auditable entities. */
  function StampModified<T>(e: Entity<T>, kind: Kind, s: Stamp): (r: Entity<T>)
    ensures r.id == e.id && r.data == e.data
    ensures r.stamps.createdAt == e.stamps.createdAt && r.stamps.createdBy == e.stamps.createdBy
    ensures kind.auditable ==> r.stamps.lastModifiedAt == Some(s.now) && r.stamps.lastModifiedBy == Some(s.user)
    ensures !kind.auditable ==> r == e
  {
    if kind.auditable then e.(stamps := e.stamps.(lastModifiedAt := Some(s.now), lastModifiedBy := Some(s.user))) else e
  }

  /** `CreateAsync`: stamp, then add. The identifier is fresh (a new `Guid`). */
  function Create<T>(t: Table<T>, e: Entity<T>, kind: Kind, s: Stamp): (r: Table<T>)
    requires UniqueIds(t) && e.id !in Ids(t)
    ensures UniqueIds(r) && Ids(r) == Ids(t) + {e.id}
    ensures |r| == |t| + 1 && r[..|t|] == t && r[|t|] == StampCreated(e, kind, s)
  {
    IdsAppend(t, StampCreated(e, kind, s));
    t + [StampCreated(e, kind, s)]
  }

  /** `UpdateAsync`: stamp, then write the entity's values over the row
      with its identifier. */
  function Update<T>(t: Table<T>, e: Entity<T>, kind: Kind, s: Stamp): (r: Table<T>)
    requires UniqueIds(t) && e.id in Ids(t)
    ensures UniqueIds(r) && Ids(r) == Ids(t) && |r| == |t|
    ensures forall i :: 0 <= i < |t| && t[i].id != e.id ==> r[i] == t[i]
    ensures forall i :: 0 <= i < |t| && t[i].id == e.id ==> r[i] == StampModified(e, kind, s)
  {
    var r := seq(|t|, i requires 0 <= i < |t| => if t[i].id == e.id then StampModified(e, kind, s) else t[i]);
    assert forall i :: 0 <= i < |t| ==> r[i].id == t[i].id;
    assert Ids(r) == Ids(t) by {
      forall x | x in Ids(r) ensures x in Ids(t) {
        var i :| 0 <= i < |r| && r[i].id == x;
      }
      forall x | x in Ids(t) ensures x in Ids(r) {
        var i :| 0 <= i < |t| && t[i].id == x;
      }
    }
    r
  }

  /** The rows whose identifier differs from `id`, in order. */
  function Without<T(!new)>(t: Table<T>, id: Id): (r: Table<T>)
    ensures |r| <= |t|
    ensures forall x :: x in r <==> x in t && x.id != id
    ensures UniqueIds(t) ==> UniqueIds(r)
  {
    if |t| == 0 then []
    else
      var rest := Without(t[1..], id);
      assert forall x :: x in t <==> x == t[0] || x in t[1..];
      if t[0].id == id then rest
      else
        ConsUnique(t, rest);
        [t[0]] + rest
  }

  lemma WithoutIds<T(!new)>(t: Table<T>, id: Id)
    ensures Ids(Without(t, id)) == Ids(t) - {id}
  {
    var r := Without(t, id);
    forall x | x in Ids(t) - {id} ensures x in Ids(r) {
      var i :| 0 <= i < |t| && t[i].id == x;
      assert t[i] in r;
    }
  }

  lemma ConsUnique<T(!new)>(t: Table<T>, rest: Table<T>)
    requires |t| > 0 && forall x :: x in rest ==> x in t[1..]
    requires UniqueIds(t[1..]) ==> UniqueIds(rest)
    ensures UniqueIds(t) ==> UniqueIds([t[0]] + rest)
  {
    if UniqueIds(t) {
      assert UniqueIds(t[1..]);
      var r := [t[0]] + rest;
      forall i | 0 < i < |r| ensures r[i].id != t[0].id {
        assert r[i] in t[1..];
        var j :| 0 <= j < |t[1..]| && t[1..][j] == r[i];
        assert t[j + 1] == r[i];
      }
    }
  }

  /** A filtered table keeps its primary key. */
  lemma {:induction false} FilterKeepsUnique<T(!new)>(t: Table<T>, p: Entity<T> -> bool)
    requires UniqueIds(t)
    ensures UniqueIds(Filter(t, p))
  {
    if |t| > 0 {
      FilterKeepsUnique(t[1..], p);
      var rest := Filter(t[1..], p);
      assert forall x :: x in rest ==> x in t[1..];
      ConsUnique(t, rest);
    }
  }

  /** `DeleteAsync`: a soft-deletable entity is marked deleted with time and
      user and stays in the table; any other entity is removed. */
  function Delete<T(!new)>(t: Table<T>, e: Entity<T>, kind: Kind, s: Stamp): (r: Table<T>)
    requires UniqueIds(t) && e.id in Ids(t)
    ensures UniqueIds(r)
    ensures kind.softDeletable ==> Ids(r) == Ids(t) && |r| == |t|
    ensures kind.softDeletable ==> forall i :: 0 <= i < |t| && t[i].id == e.id ==>
      r[i].stamps.isDeleted && r[i].stamps.deletedAt == Some(s.now) && r[i].stamps.deletedBy == Some(s.user)
    ensures !kind.softDeletable ==> Ids(r) == Ids(t) - {e.id}
    ensures forall x :: x in t && x.id != e.id ==> x in r
  {
    if kind.softDeletable then
      Update(t, e.(stamps := e.stamps.(isDeleted := true, deletedAt := Some(s.now), deletedBy := Some(s.user))),
             Kind(false, true), s)
    else
      WithoutIds(t, e.id);
      Without(t, e.id)
  }

  /** A row created and then looked up by its identifier comes back with
      exactly the values it was given, plus the creation stamp. */
  lemma {:induction false} CreateThenFind<T>(t: Table<T>, e: Entity<T>, kind: Kind, s: Stamp)
    requires UniqueIds(t) && e.id !in Ids(t)
    ensures FindById(Create(t, e, kind, s), e.id) == Some(StampCreated(e, kind, s))
  {
    var r := Create(t, e, kind, s);
    assert r[|t|].id == e.id;
  }

  /** A row updated and then looked up by its identifier comes back with
      the new values and the modification stamp; every other row is kept. */
  lemma UpdateThenFind<T(!new)>(t: Table<T>, e: Entity<T>, kind: Kind, s: Stamp)
    requires UniqueIds(t) && e.id in Ids(t)
    ensures FindById(Update(t, e, kind, s), e.id) == Some(StampModified(e, kind, s))
    ensures forall x :: x in t && x.id != e.id ==> x in Update(t, e, kind, s)
  {
    var r := Update(t, e, kind, s);
    var k :| 0 <= k < |t| && t[k].id == e.id;
    assert r[k] == StampModified(e, kind, s);
    forall x | x in t && x.id != e.id ensures x in r {
      var j :| 0 <= j < |t| && t[j] == x;
      assert r[j] == x;
    }
  }

  /** Updating a stored row never changes its creation stamp. */
  lemma UpdateKeepsCreation<T>(t: Table<T>, e: Entity<T>, kind: Kind, s: Stamp)
    requires UniqueIds(t) && e.id in Ids(t)
    requires FindById(t, e.id) == Some(e.(data := FindById(t, e.id).value.data))
    ensures FindById(Update(t, e, kind, s), e.id).value.stamps.createdAt == FindById(t, e.id).value.stamps.createdAt
    ensures FindById(Update(t, e, kind, s), e.id).value.stamps.createdBy == FindById(t, e.id).value.stamps.createdBy
  {
    var r := Update(t, e, kind, s);
    var i :| 0 <= i < |t| && t[i].id == e.id;
    assert r[i] == StampModified(e, kind, s);
  }

  /** Hard delete: the row is gone and every other row is still there. */
  lemma {:induction false} HardDeleteRemoves<T(!new)>(t: Table<T>, e: Entity<T>, kind: Kind, s: Stamp)
    requires UniqueIds(t) && e.id in Ids(t) && !kind.softDeletable
    ensures FindById(Delete(t, e, kind, s), e.id).None?
    ensures forall x :: x in t && x.id != e.id ==> x in Delete(t, e, kind, s)
  {
  }

  /** Soft delete: the row can still be found, now marked deleted. */
  lemma {:induction false} SoftDeleteKeeps<T(!new)>(t: Table<T>, e: Entity<T>, kind: Kind, s: Stamp)
    requires UniqueIds(t) && e.id in Ids(t) && kind.softDeletable
    ensures FindById(Delete(t, e, kind, s), e.id).Some?
    ensures FindById(Delete(t, e, kind, s), e.id).value.stamps.isDeleted
  {
    var r := Delete(t, e, kind, s);
    var i :| 0 <= i < |t| && t[i].id == e.id;
    assert r[i].id == e.id;
  }
}
