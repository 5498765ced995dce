/**
 * The subject-side role API (`acts_as_authorized_user`), on values: the
 * read-only queries as functions over a `Store`, and each mutator as the
 * function from the store before the call to the store after it. The
 * class `RoleTables.RoleTable` performs the same changes in place.
 */
module UserExtensions {
  import opened Wrappers
  import opened Roles

  /** A role name as a caller passes it: a String or a Symbol. */
  datatype RoleName = Str(s: string) | Sym(s: string) {
    /** `to_s`: both spell the same name. */
    function ToS(): string { s }
  }

  /** What `has_role?` and `has_what_with_role` accept: one name or an array of names. */
  datatype RoleNames = One(name: RoleName) | Many(names: seq<RoleName>)

  /** `prepare_role_names`: `Array(role_names)` followed by `to_s` on each entry. */
  function PrepareRoleNames(names: RoleNames): (r: seq<string>)
    ensures names.One? ==> r == [names.name.ToS()]
    ensures names.Many? ==>
              |r| == |names.names| && forall i :: 0 <= i < |r| ==> r[i] == names.names[i].ToS()
  {
    match names
    case One(n) => [n.ToS()]
    case Many(ns) => seq(|ns|, i requires 0 <= i < |ns| => ns[i].ToS())
  }

  /** One step of `has_role?`: the role found by `get_role` lists `u` among its users. */
  predicate HeldVia(st: Store, u: UserId, name: string, obj: Authorizable) {
    var r := GetRole(st, name, obj);
    r.Some? && (u, r.value.id) in st.members
  }

  /** The loop of `has_role?`: true as soon as one of the names is held. */
  function AnyHeld(st: Store, u: UserId, ns: seq<string>, obj: Authorizable): (b: bool)
    ensures b <==> exists i :: 0 <= i < |ns| && HeldVia(st, u, ns[i], obj)
  {
    if ns == [] then false
    else if HeldVia(st, u, ns[0], obj) then true
    else AnyHeld(st, u, ns[1..], obj)
  }

  /** Under unique triples, the role `get_role` finds is the one a holder is a member of. */
  lemma HeldViaIffHolds(st: Store, u: UserId, name: string, obj: Authorizable)
    ensures HeldVia(st, u, name, obj) ==> Holds(st, u, name, obj)
    ensures UniqueTriples(st) ==> (HeldVia(st, u, name, obj) <==> Holds(st, u, name, obj))
  {
    if UniqueTriples(st) && Holds(st, u, name, obj) {
      var x :| x in st.roles && Names(x, name, obj) && (u, x.id) in st.members;
      assert GetRole(st, name, obj) == Some(x);
    }
  }

  /**
   * `has_role?`: does `u` hold one of `names` on `obj`? A single name acts as a
   * one-element list, and an empty list yields false.
   */
  function HasRole(st: Store, u: UserId, names: RoleNames, obj: Authorizable): (b: bool)
    ensures b ==> exists n :: n in PrepareRoleNames(names) && Holds(st, u, n, obj)
    ensures UniqueTriples(st) ==>
              (b <==> exists n :: n in PrepareRoleNames(names) && Holds(st, u, n, obj))
  {
    var ns := PrepareRoleNames(names);
    var b := AnyHeld(st, u, ns, obj);
    forall n | n in ns ensures HeldVia(st, u, n, obj) ==> Holds(st, u, n, obj)
      ensures UniqueTriples(st) ==> (HeldVia(st, u, n, obj) <==> Holds(st, u, n, obj))
    {
      HeldViaIffHolds(st, u, n, obj);
    }
    b
  }

  /** `find_all_by_authorizable`: the roles of `u` scoped to `obj`, in table order. */
  function FindAllByAuthorizable(st: Store, u: UserId, obj: Authorizable): (rs: seq<Role>)
    ensures forall r :: r in rs <==> r in st.roles && ScopedTo(r, obj) && (u, r.id) in st.members
  {
    Select(st.roles, (r: Role) => ScopedTo(r, obj) && (u, r.id) in st.members)
  }

  /** `self.roles`: every role of `u`, in table order. */
  function RolesOf(st: Store, u: UserId): (rs: seq<Role>)
    ensures forall r :: r in rs <==> r in st.roles && (u, r.id) in st.members
  {
    Select(st.roles, (r: Role) => (u, r.id) in st.members)
  }

  /** `collect(&:name)`. */
  function NamesOfRoles(rs: seq<Role>): (ns: seq<string>)
    ensures |ns| == |rs|
    ensures forall i :: 0 <= i < |rs| ==> ns[i] == rs[i].name
  {
    if rs == [] then [] else [rs[0].name] + NamesOfRoles(rs[1..])
  }

  /** `has_what_roles_on`: exactly the names of the roles `u` holds on `obj`. */
  function HasWhatRolesOn(st: Store, u: UserId, obj: Authorizable): (ns: seq<string>)
    ensures forall n :: n in ns <==> Holds(st, u, n, obj)
  {
    var rs := FindAllByAuthorizable(st, u, obj);
    var ns := NamesOfRoles(rs);
    assert forall n :: n in ns ==> Holds(st, u, n, obj) by {
      forall n | n in ns ensures Holds(st, u, n, obj) {
        var i :| 0 <= i < |ns| && ns[i] == n;
        assert rs[i] in rs;
      }
    }
    assert forall n :: Holds(st, u, n, obj) ==> n in ns by {
      forall n | Holds(st, u, n, obj) ensures n in ns {
        var r :| r in st.roles && Names(r, n, obj) && (u, r.id) in st.members;
        var i :| 0 <= i < |rs| && rs[i] == r;
        assert ns[i] == n;
      }
    }
    ns
  }

  /** `collect(&:authorizable_id)`. */
  function ObjectIds(rs: seq<Role>): (ids: seq<int>)
    ensures |ids| == |rs|
    ensures forall i :: 0 <= i < |rs| ==> ids[i] == rs[i].objectId
  {
    if rs == [] then [] else [rs[0].objectId] + ObjectIds(rs[1..])
  }

  /** `uniq`: the first occurrence of each value, in order. */
  function Uniq(xs: seq<int>): (r: seq<int>)
    ensures forall x :: x in r <==> x in xs
    ensures forall i, j :: 0 <= i < j < |r| ==> r[i] != r[j]
  {
    if xs == [] then []
    else
      var p := Uniq(xs[..|xs| - 1]);
      assert xs == xs[..|xs| - 1] + [xs[|xs| - 1]];
      if xs[|xs| - 1] in p then p else p + [xs[|xs| - 1]]
  }

  /**
   * `has_what_with_role`: the distinct ids of the objects of type `kind` on
   * which `u` holds one of `names`.
   */
  function HasWhatWithRole(st: Store, u: UserId, names: RoleNames, kind: string): (ids: seq<int>)
    ensures forall i, j :: 0 <= i < j < |ids| ==> ids[i] != ids[j]
    ensures forall id :: id in ids <==>
              exists n :: n in PrepareRoleNames(names) && Holds(st, u, n, Authorizable(kind, id))
  {
    var ns := PrepareRoleNames(names);
    var rs := Select(st.roles, (r: Role) => (u, r.id) in st.members && r.kind == kind && r.name in ns);
    var all := ObjectIds(rs);
    var ids := Uniq(all);
    assert forall id :: id in ids ==> exists n :: n in ns && Holds(st, u, n, Authorizable(kind, id)) by {
      forall id | id in ids ensures exists n :: n in ns && Holds(st, u, n, Authorizable(kind, id)) {
        var i :| 0 <= i < |all| && all[i] == id;
        var r := rs[i];
        assert r in rs;
        assert Names(r, r.name, Authorizable(kind, id));
      }
    }
    assert forall id :: (exists n :: n in ns && Holds(st, u, n, Authorizable(kind, id))) ==> id in ids by {
      forall id | exists n :: n in ns && Holds(st, u, n, Authorizable(kind, id)) ensures id in ids {
        var n :| n in ns && Holds(st, u, n, Authorizable(kind, id));
        var r :| r in st.roles && Names(r, n, Authorizable(kind, id)) && (u, r.id) in st.members;
        var i :| 0 <= i < |rs| && rs[i] == r;
        assert all[i] == id;
      }
    }
    ids
  }

  /** `has_role`: find or create the role, then join it unless already a member. */
  function AfterGrant(st: Store, u: UserId, name: RoleName, obj: Authorizable): Store {
    var r := GrantedRole(st, name, obj);
    var st1 := if GetRole(st, name.ToS(), obj).Some? then st else Store(st.roles + [r], st.members, st.nextId + 1);
    if (u, r.id) in st1.members then st1 else st1.(members := st1.members + {(u, r.id)})
  }

  /** The row `has_role` joins: the one `get_role` finds, or a new one with the next id. */
  function GrantedRole(st: Store, name: RoleName, obj: Authorizable): Role {
    var found := GetRole(st, name.ToS(), obj);
    if found.Some? then found.value else Role(st.nextId, name.ToS(), obj.kind, obj.id)
  }

  /** `delete_role`: leave the role, and destroy it when no users are left. */
  function AfterDelete(st: Store, u: UserId, role: Option<Role>): Store {
    match role
    case None => st
    case Some(r) =>
      var ms := st.members - {(u, r.id)};
      if UsersOf(ms, r.id) == {} then Store(Select(st.roles, (x: Role) => x.id != r.id), ms, st.nextId)
      else st.(members := ms)
  }

  /** `has_no_role`: `delete_role` on the role `get_role` finds, if any. */
  function AfterHasNoRole(st: Store, u: UserId, name: RoleName, obj: Authorizable): Store {
    AfterDelete(st, u, GetRole(st, name.ToS(), obj))
  }

  /** `delete_role` on each role of `rs` in turn. */
  function AfterDeleteEach(st: Store, u: UserId, rs: seq<Role>): Store
    decreases |rs|
  {
    if rs == [] then st
    else AfterDelete(AfterDeleteEach(st, u, rs[..|rs| - 1]), u, Some(rs[|rs| - 1]))
  }

  /** `has_no_roles_on`: `delete_role` on each role `find_all_by_authorizable` returns. */
  function AfterHasNoRolesOn(st: Store, u: UserId, obj: Authorizable): Store {
    AfterDeleteEach(st, u, FindAllByAuthorizable(st, u, obj))
  }

  /** `has_no_roles`, iterating over a snapshot of the user's roles. */
  function AfterHasNoRoles(st: Store, u: UserId): Store {
    AfterDeleteEach(st, u, RolesOf(st, u))
  }
}
