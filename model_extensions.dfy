/**
 * The resource-side role API (`acts_as_authorizable`): thin delegations to
 * the subject API, the derived `users` relation, and the dependent destroy
 * of the object's accepted roles.
 */
module ModelExtensions {
  import opened Roles
  import opened UserExtensions
  import opened RoleTables

  /** The `users` association: the distinct users holding some role scoped to `obj`. */
  function Users(st: Store, obj: Authorizable): (us: set<UserId>)
    ensures forall u :: u in us <==> exists n :: Holds(st, u, n, obj)
    ensures forall u :: u in us <==> HasWhatRolesOn(st, u, obj) != []
  {
    var us := set m | m in st.members && (exists r :: r in st.roles && r.id == m.1 && ScopedTo(r, obj)) :: m.0;
    forall u ensures u in us <==> exists n :: Holds(st, u, n, obj) {
      if u in us {
        var m :| m in st.members && m.0 == u && exists r :: r in st.roles && r.id == m.1 && ScopedTo(r, obj);
        var r :| r in st.roles && r.id == m.1 && ScopedTo(r, obj);
        assert Holds(st, u, r.name, obj);
      }
      if exists n :: Holds(st, u, n, obj) {
        var n :| Holds(st, u, n, obj);
        var r :| r in st.roles && Names(r, n, obj) && (u, r.id) in st.members;
        assert (u, r.id) in st.members;
      }
    }
    forall u ensures HasWhatRolesOn(st, u, obj) != [] <==> exists n :: Holds(st, u, n, obj) {
      var ns := HasWhatRolesOn(st, u, obj);
      if ns != [] {
        assert Holds(st, u, ns[0], obj);
      }
    }
    us
  }

  /** `accepts_role?(names, u)`: exactly `u.has_role?(names, obj)`. */
  predicate AcceptsRole(st: Store, obj: Authorizable, names: RoleNames, u: UserId)
    ensures AcceptsRole(st, obj, names, u) == HasRole(st, u, names, obj)
    ensures AcceptsRole(st, obj, names, u) ==> u in Users(st, obj)
  {
    HasRole(st, u, names, obj)
  }

  /** `accepts_what_roles_by(u)`: exactly `u.has_what_roles_on(obj)`, the names `u` holds on `obj`. */
  function AcceptsWhatRolesBy(st: Store, obj: Authorizable, u: UserId): (ns: seq<string>)
    ensures ns == HasWhatRolesOn(st, u, obj)
    ensures forall n :: n in ns <==> Holds(st, u, n, obj)
  {
    HasWhatRolesOn(st, u, obj)
  }

  /**
   * `accepts_who_with_role(names)`: the members of `users` for whom
   * `has_role?(names, obj)` holds, which is every such user.
   */
  function AcceptsWhoWithRole(st: Store, obj: Authorizable, names: RoleNames): (us: set<UserId>)
    ensures us <= Users(st, obj)
    ensures forall u :: u in us <==> HasRole(st, u, names, obj)
    ensures UniqueTriples(st) ==>
              forall u :: u in us <==> exists n :: n in PrepareRoleNames(names) && Holds(st, u, n, obj)
  {
    var all := Users(st, obj);
    var us := set u | u in all && HasRole(st, u, names, obj);
    assert forall u :: HasRole(st, u, names, obj) ==> u in all;
    us
  }

  /** `accepts_role(name, u)`: `u.has_role(name, obj)`. */
  method AddAcceptedRole(t: RoleTable, obj: Authorizable, name: RoleName, u: UserId)
    requires t.Valid()
    modifies t
    ensures t.Valid()
    ensures t.State() == AfterGrant(old(t.State()), u, name, obj)
    ensures AcceptsRole(t.State(), obj, One(name), u)
  {
    t.Grant(u, name, obj);
  }

  /** `accepts_no_role(name, u)`: `u.has_no_role(name, obj)`. */
  method RemoveAcceptedRole(t: RoleTable, obj: Authorizable, name: RoleName, u: UserId)
    requires t.Valid()
    modifies t
    ensures t.Valid()
    ensures t.State() == AfterHasNoRole(old(t.State()), u, name, obj)
    ensures UniqueTriples(old(t.State())) ==> !AcceptsRole(t.State(), obj, One(name), u)
  {
    t.HasNoRole(u, name, obj);
  }

  /** The ids of the roles scoped to `obj`. */
  function ScopedIds(st: Store, obj: Authorizable): set<nat> {
    set r | r in st.roles && ScopedTo(r, obj) :: r.id
  }

  /**
   * Destroying `obj` (`dependent => :destroy` on `accepted_roles`): every role
   * scoped to it is destroyed, and with it that role's join rows.
   */
  function AfterDestroy(st: Store, obj: Authorizable): Store {
    var gone := ScopedIds(st, obj);
    Store(Select(st.roles, (r: Role) => !ScopedTo(r, obj)),
          (set m | m in st.members && m.1 !in gone),
          st.nextId)
  }

  /**
   * After the destroy no role row is scoped to `obj` and nobody is among its
   * `users`; roles and holdings on other objects are untouched, and the
   * store invariants are preserved.
   */
  lemma DestroyRemovesScoped(st: Store, obj: Authorizable)
    requires WellFormed(st)
    ensures forall r :: r in AfterDestroy(st, obj).roles <==> r in st.roles && !ScopedTo(r, obj)
    ensures Users(AfterDestroy(st, obj), obj) == {}
    ensures forall v, n, o :: o != obj ==> (Holds(AfterDestroy(st, obj), v, n, o) <==> Holds(st, v, n, o))
    ensures WellFormed(AfterDestroy(st, obj))
    ensures UniqueTriples(st) ==> UniqueTriples(AfterDestroy(st, obj))
    ensures NoOrphans(st) ==> NoOrphans(AfterDestroy(st, obj))
  {
    var st' := AfterDestroy(st, obj);
    var gone := ScopedIds(st, obj);
    assert forall r :: r in st.roles && !ScopedTo(r, obj) ==> r.id !in gone;
    forall v: UserId, n: string, o: Authorizable | o != obj ensures Holds(st', v, n, o) <==> Holds(st, v, n, o) {
      if Holds(st, v, n, o) {
        var x :| x in st.roles && Names(x, n, o) && (v, x.id) in st.members;
        assert x in st'.roles && (v, x.id) in st'.members;
      }
    }
    forall m | m in st'.members ensures m.1 in IdsOf(st'.roles) {
      var x :| x in st.roles && x.id == m.1;
      assert x in st'.roles;
    }
    if NoOrphans(st) {
      forall x | x in st'.roles ensures UsersOf(st'.members, x.id) != {} {
        var v :| v in UsersOf(st.members, x.id);
        assert v in UsersOf(st'.members, x.id);
      }
    }
  }

  /** Destroying the object, in place. */
  method DestroyAuthorizable(t: RoleTable, obj: Authorizable)
    requires t.Valid()
    modifies t
    ensures t.Valid()
    ensures t.State() == AfterDestroy(old(t.State()), obj)
    ensures Users(t.State(), obj) == {}
  {
    DestroyRemovesScoped(t.State(), obj);
    var gone := ScopedIds(t.State(), obj);
    t.roles := Select(t.roles, (r: Role) => !ScopedTo(r, obj));
    t.members := set m | m in t.members && m.1 !in gone;
  }
}
