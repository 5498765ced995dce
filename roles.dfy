/**
 * The shape of the role store: rows of the `roles` table, rows of the
 * `roles_users` join table, and the invariants the operations of the
 * subject and resource APIs keep on them.
 */
module Roles {
  import opened Wrappers

  /** A user, by primary key. */
  type UserId = nat

  /** A polymorphic reference to an authorizable object: its type tag and its id. */
  datatype Authorizable = Authorizable(kind: string, id: int)

  /** A row of the `roles` table: surrogate id, name, authorizable_type, authorizable_id. */
  datatype Role = Role(id: nat, name: string, kind: string, objectId: int)

  /** A row of the `roles_users` join table: (user id, role id). */
  type Membership = (UserId, nat)

  /**
   * The whole store: the role rows in table order, the memberships, and the
   * next surrogate id the table hands out.
   */
  datatype Store = Store(roles: seq<Role>, members: set<Membership>, nextId: nat)

  /** The role is scoped to the object (same type tag and id). */
  predicate ScopedTo(r: Role, obj: Authorizable) {
    r.kind == obj.kind && r.objectId == obj.id
  }

  /** The role is the one named `name` on `obj`. */
  predicate Names(r: Role, name: string, obj: Authorizable) {
    r.name == name && ScopedTo(r, obj)
  }

  predicate SameTriple(r1: Role, r2: Role) {
    r1.name == r2.name && r1.kind == r2.kind && r1.objectId == r2.objectId
  }

  /** The users holding the role with this id. */
  function UsersOf(ms: set<Membership>, id: nat): set<UserId> {
    set m | m in ms && m.1 == id :: m.0
  }

  /** The ids of some roles. */
  function IdsOf(rs: seq<Role>): set<nat> {
    set r | r in rs :: r.id
  }

  /**
   * Referential integrity of the two tables: surrogate ids are unique and
   * below the next id, and every membership names a live role. The schema
   * declares no foreign key; the operations keep this themselves.
   */
  predicate WellFormed(st: Store) {
    && (forall r1, r2 :: r1 in st.roles && r2 in st.roles && r1.id == r2.id ==> r1 == r2)
    && (forall r :: r in st.roles ==> r.id < st.nextId)
    && (forall m :: m in st.members ==> m.1 in IdsOf(st.roles))
  }

  /** No two role rows share a (name, type, id) triple. */
  predicate UniqueTriples(st: Store) {
    forall r1, r2 :: r1 in st.roles && r2 in st.roles && SameTriple(r1, r2) ==> r1 == r2
  }

  /** Every role row is held by at least one user. */
  predicate NoOrphans(st: Store) {
    forall r :: r in st.roles ==> UsersOf(st.members, r.id) != {}
  }

  /** Some role row is named `name` on `obj`. */
  predicate RoleExists(st: Store, name: string, obj: Authorizable) {
    exists r :: r in st.roles && Names(r, name, obj)
  }

  /** User `u` is a member of a role named `name` on `obj`. */
  predicate Holds(st: Store, u: UserId, name: string, obj: Authorizable) {
    exists r :: r in st.roles && Names(r, name, obj) && (u, r.id) in st.members
  }

  /** The rows of `rs` that satisfy `p`, in order. */
  function Select(rs: seq<Role>, p: Role -> bool): (out: seq<Role>)
    ensures forall r :: r in out <==> r in rs && p(r)
    ensures |out| <= |rs|
  {
    if rs == [] then [] else (if p(rs[0]) then [rs[0]] else []) + Select(rs[1..], p)
  }

  /** The first row of `rs` named `name` on `obj`, as `find :first` returns it. */
  function FirstNamed(rs: seq<Role>, name: string, obj: Authorizable): (r: Option<Role>)
    ensures r.Some? ==> r.value in rs && Names(r.value, name, obj)
    ensures r.Some? ==> exists i :: 0 <= i < |rs| && rs[i] == r.value &&
                          forall j :: 0 <= j < i ==> !Names(rs[j], name, obj)
    ensures r.None? <==> forall x :: x in rs ==> !Names(x, name, obj)
  {
    if rs == [] then None
    else if Names(rs[0], name, obj) then Some(rs[0])
    else FirstNamed(rs[1..], name, obj)
  }

  /** `get_role`: look the role up by its triple across the whole table. */
  function GetRole(st: Store, name: string, obj: Authorizable): (r: Option<Role>)
    ensures r.Some? ==> r.value in st.roles && Names(r.value, name, obj)
    ensures r.Some? ==> exists i :: 0 <= i < |st.roles| && st.roles[i] == r.value &&
                          forall j :: 0 <= j < i ==> !Names(st.roles[j], name, obj)
    ensures r.None? <==> !RoleExists(st, name, obj)
    ensures UniqueTriples(st) ==> forall x :: x in st.roles && Names(x, name, obj) ==> r == Some(x)
  {
    FirstNamed(st.roles, name, obj)
  }

  /** Appending a row changes the first match only when there was none. */
  lemma {:induction false} FirstNamedAppend(rs: seq<Role>, x: Role, name: string, obj: Authorizable)
    ensures FirstNamed(rs + [x], name, obj) ==
            if FirstNamed(rs, name, obj).Some? then FirstNamed(rs, name, obj)
            else if Names(x, name, obj) then Some(x) else None
  {
    if rs != [] {
      assert (rs + [x])[1..] == rs[1..] + [x];
      FirstNamedAppend(rs[1..], x, name, obj);
    }
  }
}
