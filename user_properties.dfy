/**
 * What the subject-side operations guarantee: `has_role` makes `has_role?`
 * true and is idempotent, `has_no_role` removes the membership and destroys
 * the role exactly when nobody else holds it, the bulk revokes clear what
 * their doc comments promise, and every operation preserves the store
 * invariants.
 */
module UserProperties {
  import opened Wrappers
  import opened Roles
  import opened UserExtensions

  // ---------------------------------------------------------------- has_role

  /** After `has_role(name, obj)`, `has_role?(name, obj)` holds. */
  lemma GrantHolds(st: Store, u: UserId, name: RoleName, obj: Authorizable)
    ensures Holds(AfterGrant(st, u, name, obj), u, name.ToS(), obj)
    ensures HasRole(AfterGrant(st, u, name, obj), u, One(name), obj)
  {
    var n := name.ToS();
    var st' := AfterGrant(st, u, name, obj);
    if GetRole(st, n, obj).None? {
      FirstNamedAppend(st.roles, Role(st.nextId, n, obj.kind, obj.id), n, obj);
    }
    assert HeldVia(st', u, n, obj);
    assert PrepareRoleNames(One(name)) == [n];
    assert AnyHeld(st', u, [n], obj);
    HeldViaIffHolds(st', u, n, obj);
  }

  /** Calling `has_role` a second time changes nothing: no duplicate row or membership. */
  lemma GrantIdempotent(st: Store, u: UserId, name: RoleName, obj: Authorizable)
    ensures AfterGrant(AfterGrant(st, u, name, obj), u, name, obj) == AfterGrant(st, u, name, obj)
  {
    var n := name.ToS();
    if GetRole(st, n, obj).None? {
      FirstNamedAppend(st.roles, Role(st.nextId, n, obj.kind, obj.id), n, obj);
    }
  }

  /** `has_role` creates a row only when no row has the triple, and then exactly one, at the end. */
  lemma GrantCreatesOnlyWhenAbsent(st: Store, u: UserId, name: RoleName, obj: Authorizable)
    ensures var st' := AfterGrant(st, u, name, obj);
            && (RoleExists(st, name.ToS(), obj) ==> st'.roles == st.roles && st'.nextId == st.nextId)
            && (!RoleExists(st, name.ToS(), obj) ==>
                  st'.roles == st.roles + [Role(st.nextId, name.ToS(), obj.kind, obj.id)] &&
                  st'.nextId == st.nextId + 1)
  {
  }

  /** `has_role` preserves well-formedness, triple uniqueness and the absence of orphan roles. */
  lemma GrantInvariants(st: Store, u: UserId, name: RoleName, obj: Authorizable)
    requires WellFormed(st)
    ensures WellFormed(AfterGrant(st, u, name, obj))
    ensures UniqueTriples(st) ==> UniqueTriples(AfterGrant(st, u, name, obj))
    ensures NoOrphans(st) ==> NoOrphans(AfterGrant(st, u, name, obj))
  {
    GrantWellFormed(st, u, name, obj);
    if UniqueTriples(st) {
      GrantUniqueTriples(st, u, name, obj);
    }
    if NoOrphans(st) {
      GrantNoOrphans(st, u, name, obj);
    }
  }

  /** `has_role` adds at most the granted row and the one membership of `u` in it. */
  lemma GrantShape(st: Store, u: UserId, name: RoleName, obj: Authorizable)
    ensures var st', r := AfterGrant(st, u, name, obj), GrantedRole(st, name, obj);
            && r in st'.roles && Names(r, name.ToS(), obj)
            && (u, r.id) in st'.members
            && st.members <= st'.members <= st.members + {(u, r.id)}
            && (forall x :: x in st'.roles ==> x in st.roles || x == r)
            && (r !in st.roles ==> r.id == st.nextId && !RoleExists(st, name.ToS(), obj))
            && st'.nextId >= st.nextId
  {
  }

  /** Every membership still names a live row, ids stay unique and below the next id. */
  lemma GrantWellFormed(st: Store, u: UserId, name: RoleName, obj: Authorizable)
    requires WellFormed(st)
    ensures WellFormed(AfterGrant(st, u, name, obj))
  {
    var st', r := AfterGrant(st, u, name, obj), GrantedRole(st, name, obj);
    GrantShape(st, u, name, obj);
    forall m | m in st'.members ensures m.1 in IdsOf(st'.roles) {
      if m != (u, r.id) {
        var x :| x in st.roles && x.id == m.1;
        assert x in st'.roles;
      }
    }
  }

  /** A row is created only when no row has its triple, so triples stay unique. */
  lemma GrantUniqueTriples(st: Store, u: UserId, name: RoleName, obj: Authorizable)
    requires UniqueTriples(st)
    ensures UniqueTriples(AfterGrant(st, u, name, obj))
  {
    var st', r := AfterGrant(st, u, name, obj), GrantedRole(st, name, obj);
    GrantShape(st, u, name, obj);
    if r !in st.roles {
      forall x | x in st.roles ensures !SameTriple(x, r) {
        assert !Names(x, name.ToS(), obj);
      }
    }
  }

  /** The granted row gains a holder and no other row loses one. */
  lemma GrantNoOrphans(st: Store, u: UserId, name: RoleName, obj: Authorizable)
    requires NoOrphans(st)
    ensures NoOrphans(AfterGrant(st, u, name, obj))
  {
    var st', r := AfterGrant(st, u, name, obj), GrantedRole(st, name, obj);
    GrantShape(st, u, name, obj);
    forall x | x in st'.roles ensures UsersOf(st'.members, x.id) != {} {
      if x == r {
        assert u in UsersOf(st'.members, x.id);
      } else {
        var v :| v in UsersOf(st.members, x.id);
        assert v in UsersOf(st'.members, x.id);
      }
    }
  }

  /**
   * `prepare_role_names`: a String and a Symbol of the same spelling give the
   * same list, a single name gives the list of that one name, and an empty
   * array gives no names.
   */
  lemma PrepareRoleNamesForms(s: string, x: RoleName, xs: seq<RoleName>)
    ensures PrepareRoleNames(One(Str(s))) == PrepareRoleNames(One(Sym(s))) == [s]
    ensures PrepareRoleNames(One(x)) == PrepareRoleNames(Many([x]))
    ensures PrepareRoleNames(Many([])) == []
    ensures forall n :: n in PrepareRoleNames(Many(xs)) <==> exists y :: y in xs && y.ToS() == n
  {
    var r := PrepareRoleNames(Many(xs));
    forall n | n in r ensures exists y :: y in xs && y.ToS() == n {
      var i :| 0 <= i < |r| && r[i] == n;
      assert xs[i] in xs;
    }
    forall n | exists y :: y in xs && y.ToS() == n ensures n in r {
      var y :| y in xs && y.ToS() == n;
      var i :| 0 <= i < |xs| && xs[i] == y;
      assert r[i] == n;
    }
  }

  /**
   * `has_role?` compares names after `to_s`: a String and a Symbol of the same
   * spelling agree, a single name acts as a one-element list, and an empty
   * list is never held.
   */
  lemma HasRoleNameForms(st: Store, u: UserId, s: string, obj: Authorizable)
    ensures HasRole(st, u, One(Str(s)), obj) == HasRole(st, u, One(Sym(s)), obj)
    ensures HasRole(st, u, One(Sym(s)), obj) == HasRole(st, u, Many([Sym(s)]), obj)
    ensures HasRole(st, u, Many([Str(s), Sym(s)]), obj) == HasRole(st, u, One(Str(s)), obj)
    ensures !HasRole(st, u, Many([]), obj)
  {
    assert PrepareRoleNames(One(Str(s))) == PrepareRoleNames(One(Sym(s))) == [s];
    assert PrepareRoleNames(Many([Sym(s)])) == [s];
    assert PrepareRoleNames(Many([Str(s), Sym(s)])) == [s, s];
    assert PrepareRoleNames(Many([])) == [];
  }

  /** `has_role` keeps every earlier holding. */
  lemma GrantKeeps(st: Store, u: UserId, name: RoleName, obj: Authorizable)
    ensures forall v, n, o :: Holds(st, v, n, o) ==> Holds(AfterGrant(st, u, name, obj), v, n, o)
  {
    var st' := AfterGrant(st, u, name, obj);
    assert st.members <= st'.members;
    forall v: UserId, n: string, o: Authorizable | Holds(st, v, n, o) ensures Holds(st', v, n, o) {
      var x :| x in st.roles && Names(x, n, o) && (v, x.id) in st.members;
      assert x in st'.roles;
    }
  }

  /** The only holding `has_role` adds is `u`'s of this triple. */
  lemma GrantAddsOnlyOwn(st: Store, u: UserId, name: RoleName, obj: Authorizable)
    requires WellFormed(st)
    ensures forall v, n, o :: (v != u || n != name.ToS() || o != obj) ==>
              (Holds(AfterGrant(st, u, name, obj), v, n, o) ==> Holds(st, v, n, o))
  {
    var st' := AfterGrant(st, u, name, obj);
    var found := GetRole(st, name.ToS(), obj);
    var r := if found.Some? then found.value else Role(st.nextId, name.ToS(), obj.kind, obj.id);
    GrantInvariants(st, u, name, obj);
    assert st'.members <= st.members + {(u, r.id)};
    assert forall x :: x in st'.roles ==> x in st.roles || x == r;
    assert r in st'.roles && Names(r, name.ToS(), obj);
    forall v: UserId, n: string, o: Authorizable | (v != u || n != name.ToS() || o != obj) && Holds(st', v, n, o)
      ensures Holds(st, v, n, o)
    {
      var x :| x in st'.roles && Names(x, n, o) && (v, x.id) in st'.members;
      assert x.id == r.id ==> x == r;
      assert (v, x.id) in st.members;
      assert x.id in IdsOf(st.roles);
    }
  }

  // ------------------------------------------------------------- delete_role

  /** One `delete_role`: the membership goes, and a row goes only if its id is now unheld. */
  lemma DeleteEffect(st: Store, u: UserId, r: Role)
    ensures var st' := AfterDelete(st, u, Some(r));
            && st'.members == st.members - {(u, r.id)}
            && st'.nextId == st.nextId
            && (forall x :: x in st'.roles ==> x in st.roles)
            && (forall x :: x in st.roles && x !in st'.roles ==>
                  x.id == r.id && UsersOf(st'.members, r.id) == {})
  {
  }

  /** `delete_role` preserves well-formedness, triple uniqueness and the absence of orphan roles. */
  lemma DeleteInvariants(st: Store, u: UserId, role: Option<Role>)
    requires WellFormed(st)
    ensures WellFormed(AfterDelete(st, u, role))
    ensures UniqueTriples(st) ==> UniqueTriples(AfterDelete(st, u, role))
    ensures NoOrphans(st) ==> NoOrphans(AfterDelete(st, u, role))
  {
    if role.Some? {
      var r := role.value;
      var st' := AfterDelete(st, u, role);
      DeleteEffect(st, u, r);
      forall m | m in st'.members ensures m.1 in IdsOf(st'.roles) {
        var x :| x in st.roles && x.id == m.1;
        assert m.0 in UsersOf(st'.members, m.1);
      }
      if NoOrphans(st) {
        forall x | x in st'.roles ensures UsersOf(st'.members, x.id) != {} {
          if x.id == r.id {
            assert UsersOf(st.members - {(u, r.id)}, r.id) != {};
          } else {
            var v :| v in UsersOf(st.members, x.id);
            assert v in UsersOf(st'.members, x.id);
          }
        }
      }
    }
  }

  /** Members leave, never join: a set of memberships with no holder of `id` keeps none when shrunk. */
  lemma UsersOfShrinks(a: set<Membership>, b: set<Membership>, id: nat)
    requires b <= a && UsersOf(a, id) == {}
    ensures UsersOf(b, id) == {}
  {
  }

  /** `delete_role` over a list: exactly those memberships of `u` go; a row goes only if unheld. */
  lemma {:induction false} DeleteEachEffect(st: Store, u: UserId, rs: seq<Role>)
    ensures var st' := AfterDeleteEach(st, u, rs);
            && (forall m :: m in st'.members <==> m in st.members && !(m.0 == u && m.1 in IdsOf(rs)))
            && st'.nextId == st.nextId
            && (forall x :: x in st'.roles ==> x in st.roles)
            && (forall x :: x in st.roles && x !in st'.roles ==>
                  x.id in IdsOf(rs) && UsersOf(st'.members, x.id) == {})
    decreases |rs|
  {
    if rs != [] {
      var init, last := rs[..|rs| - 1], rs[|rs| - 1];
      assert rs == init + [last];
      assert IdsOf(rs) == IdsOf(init) + {last.id};
      var mid := AfterDeleteEach(st, u, init);
      var st' := AfterDeleteEach(st, u, rs);
      assert st' == AfterDelete(mid, u, Some(last));
      DeleteEachEffect(st, u, init);
      DeleteEffect(mid, u, last);
      forall x | x in st.roles && x !in st'.roles
        ensures x.id in IdsOf(rs) && UsersOf(st'.members, x.id) == {}
      {
        if x in mid.roles {
          assert x.id == last.id;
        } else {
          UsersOfShrinks(mid.members, st'.members, x.id);
        }
      }
    }
  }

  /** `delete_role` over a list preserves the store invariants. */
  lemma {:induction false} DeleteEachInvariants(st: Store, u: UserId, rs: seq<Role>)
    requires WellFormed(st)
    ensures WellFormed(AfterDeleteEach(st, u, rs))
    ensures UniqueTriples(st) ==> UniqueTriples(AfterDeleteEach(st, u, rs))
    ensures NoOrphans(st) ==> NoOrphans(AfterDeleteEach(st, u, rs))
    decreases |rs|
  {
    if rs != [] {
      DeleteEachInvariants(st, u, rs[..|rs| - 1]);
      DeleteInvariants(AfterDeleteEach(st, u, rs[..|rs| - 1]), u, Some(rs[|rs| - 1]));
    }
  }

  /** `delete_role` over a list never touches another user's holdings. */
  lemma DeleteEachKeepsOthers(st: Store, u: UserId, rs: seq<Role>)
    ensures forall v, n, o :: v != u ==>
              (Holds(AfterDeleteEach(st, u, rs), v, n, o) <==> Holds(st, v, n, o))
  {
    var st' := AfterDeleteEach(st, u, rs);
    DeleteEachEffect(st, u, rs);
    forall v, n, o | v != u ensures Holds(st', v, n, o) <==> Holds(st, v, n, o) {
      if Holds(st, v, n, o) {
        var x :| x in st.roles && Names(x, n, o) && (v, x.id) in st.members;
        assert (v, x.id) in st'.members;
        assert v in UsersOf(st'.members, x.id);
      }
      if Holds(st', v, n, o) {
        var x :| x in st'.roles && Names(x, n, o) && (v, x.id) in st'.members;
        assert x in st.roles;
      }
    }
  }

  // ------------------------------------------------------------- has_no_role

  /** After `has_no_role(name, obj)`, `u` no longer holds the role and `has_role?` is false. */
  lemma HasNoRoleRemoves(st: Store, u: UserId, name: RoleName, obj: Authorizable)
    requires UniqueTriples(st)
    ensures !Holds(AfterHasNoRole(st, u, name, obj), u, name.ToS(), obj)
    ensures !HasRole(AfterHasNoRole(st, u, name, obj), u, One(name), obj)
  {
    var n := name.ToS();
    var st' := AfterHasNoRole(st, u, name, obj);
    var found := GetRole(st, n, obj);
    if found.Some? {
      DeleteEffect(st, u, found.value);
    }
    assert PrepareRoleNames(One(name)) == [n];
  }

  /**
   * `has_no_role` destroys the row iff nobody else held it, and does nothing
   * when no row has the triple.
   */
  lemma HasNoRoleCollects(st: Store, u: UserId, name: RoleName, obj: Authorizable)
    requires UniqueTriples(st)
    ensures RoleExists(AfterHasNoRole(st, u, name, obj), name.ToS(), obj) <==>
            exists v :: v != u && Holds(st, v, name.ToS(), obj)
    ensures !RoleExists(st, name.ToS(), obj) ==> AfterHasNoRole(st, u, name, obj) == st
  {
    var n := name.ToS();
    var st' := AfterHasNoRole(st, u, name, obj);
    var found := GetRole(st, n, obj);
    if found.Some? {
      var r := found.value;
      DeleteEffect(st, u, r);
      if RoleExists(st', n, obj) {
        var x :| x in st'.roles && Names(x, n, obj);
        assert x == r;
        assert UsersOf(st'.members, r.id) != {};
        var v :| v in UsersOf(st'.members, r.id);
        assert v != u && Holds(st, v, n, obj);
      }
      if exists v :: v != u && Holds(st, v, n, obj) {
        var v :| v != u && Holds(st, v, n, obj);
        var x :| x in st.roles && Names(x, n, obj) && (v, x.id) in st.members;
        assert x == r;
        assert v in UsersOf(st'.members, r.id);
        assert r in st'.roles;
      }
    }
  }

  /**
   * `has_no_role` leaves every other holding alone: another holder keeps the
   * role, and keeps `has_role?` true.
   */
  lemma HasNoRoleKeepsOthers(st: Store, u: UserId, name: RoleName, obj: Authorizable)
    requires WellFormed(st)
    ensures forall v, n, o :: (v != u || n != name.ToS() || o != obj) ==>
              (Holds(AfterHasNoRole(st, u, name, obj), v, n, o) <==> Holds(st, v, n, o))
    ensures UniqueTriples(st) ==> forall v, ns, o :: v != u ==>
              (HasRole(AfterHasNoRole(st, u, name, obj), v, ns, o) <==> HasRole(st, v, ns, o))
  {
    var st' := AfterHasNoRole(st, u, name, obj);
    var found := GetRole(st, name.ToS(), obj);
    if found.Some? {
      var r := found.value;
      DeleteEffect(st, u, r);
      forall v, n, o | (v != u || n != name.ToS() || o != obj)
        ensures Holds(st', v, n, o) <==> Holds(st, v, n, o)
      {
        if Holds(st, v, n, o) {
          var x :| x in st.roles && Names(x, n, o) && (v, x.id) in st.members;
          assert x.id == r.id ==> x == r;
          assert (v, x.id) in st'.members;
          assert v in UsersOf(st'.members, x.id);
        }
        if Holds(st', v, n, o) {
          var x :| x in st'.roles && Names(x, n, o) && (v, x.id) in st'.members;
          assert x in st.roles;
        }
      }
    }
    if UniqueTriples(st) {
      DeleteInvariants(st, u, found);
      forall v, ns, o | v != u ensures HasRole(st', v, ns, o) <==> HasRole(st, v, ns, o) {
        assert HasRole(st', v, ns, o) <==> exists n :: n in PrepareRoleNames(ns) && Holds(st', v, n, o);
        assert HasRole(st, v, ns, o) <==> exists n :: n in PrepareRoleNames(ns) && Holds(st, v, n, o);
      }
    }
  }

  // --------------------------------------------------------- has_no_roles_on

  /**
   * After `has_no_roles_on(obj)`, `u` holds nothing on `obj`; `u`'s roles on
   * other objects and every other user's holdings are unchanged.
   */
  lemma HasNoRolesOnClears(st: Store, u: UserId, obj: Authorizable)
    requires WellFormed(st)
    ensures forall n :: !Holds(AfterHasNoRolesOn(st, u, obj), u, n, obj)
    ensures HasWhatRolesOn(AfterHasNoRolesOn(st, u, obj), u, obj) == []
    ensures forall n, o :: o != obj ==>
              (Holds(AfterHasNoRolesOn(st, u, obj), u, n, o) <==> Holds(st, u, n, o))
    ensures forall v, n, o :: v != u ==>
              (Holds(AfterHasNoRolesOn(st, u, obj), v, n, o) <==> Holds(st, v, n, o))
  {
    var rs := FindAllByAuthorizable(st, u, obj);
    var st' := AfterHasNoRolesOn(st, u, obj);
    DeleteEachEffect(st, u, rs);
    DeleteEachKeepsOthers(st, u, rs);
    var ns := HasWhatRolesOn(st', u, obj);
    forall n, o | o != obj ensures Holds(st', u, n, o) <==> Holds(st, u, n, o) {
      if Holds(st, u, n, o) {
        var x :| x in st.roles && Names(x, n, o) && (u, x.id) in st.members;
        assert (u, x.id) in st'.members;
        assert x in st'.roles;
      }
      if Holds(st', u, n, o) {
        var x :| x in st'.roles && Names(x, n, o) && (u, x.id) in st'.members;
        assert x in st.roles;
      }
    }
  }

  // ------------------------------------------------------------ has_no_roles

  /**
   * After `has_no_roles` (over a snapshot of the user's roles), `u` holds no
   * role at all; every other user's holdings are unchanged.
   */
  lemma HasNoRolesClears(st: Store, u: UserId)
    requires WellFormed(st)
    ensures forall m :: m in AfterHasNoRoles(st, u).members ==> m.0 != u
    ensures forall n, o :: !Holds(AfterHasNoRoles(st, u), u, n, o)
    ensures forall v, n, o :: v != u ==>
              (Holds(AfterHasNoRoles(st, u), v, n, o) <==> Holds(st, v, n, o))
  {
    var rs := RolesOf(st, u);
    var st' := AfterHasNoRoles(st, u);
    DeleteEachEffect(st, u, rs);
    DeleteEachKeepsOthers(st, u, rs);
  }

  /**
   * `has_no_roles` as the source writes it: `self.roles.each` walks the
   * loaded association array by index while `delete_role` removes the visited
   * role from that same array, so each deletion shifts the next role under
   * the index already passed.
   */
  function AfterHasNoRolesAsWritten(st: Store, u: UserId): Store {
    EachDeleting(st, u, RolesOf(st, u), 0)
  }

  /** Ruby's `Array#each` from index `i` over `live`, each step deleting the visited role from it. */
  function EachDeleting(st: Store, u: UserId, live: seq<Role>, i: nat): Store
    decreases |live| - i
  {
    if i >= |live| then st
    else
      var r := live[i];
      EachDeleting(AfterDelete(st, u, Some(r)), u, Select(live, (x: Role) => x != r), i + 1)
  }

  /** Two roles of user 7 on one project: the input that shows the skip. */
  function TwoRoleStore(): Store {
    Store([Role(0, "owner", "Project", 1), Role(1, "editor", "Project", 1)], {(7, 0), (7, 1)}, 2)
  }

  /** The example is a store every operation could have produced. */
  lemma TwoRoleStoreIsSound()
    ensures WellFormed(TwoRoleStore()) && UniqueTriples(TwoRoleStore()) && NoOrphans(TwoRoleStore())
  {
    var st := TwoRoleStore();
    assert 7 in UsersOf(st.members, 0) && 7 in UsersOf(st.members, 1);
    assert 0 in IdsOf(st.roles) && 1 in IdsOf(st.roles) by {
      assert st.roles[0] in st.roles && st.roles[1] in st.roles;
    }
  }

  /** User 7 still holds "editor" after `has_no_roles` as written. */
  lemma HasNoRolesAsWrittenKeepsARole()
    ensures Holds(AfterHasNoRolesAsWritten(TwoRoleStore(), 7), 7, "editor", Authorizable("Project", 1))
  {
    var a := Role(0, "owner", "Project", 1);
    var b := Role(1, "editor", "Project", 1);
    var st := TwoRoleStore();
    assert st.roles[1..] == [b];
    assert RolesOf(st, 7) == [a, b] by {
      assert Select([b], (r: Role) => (7, r.id) in st.members) == [b];
    }
    var ms := st.members - {(7, 0)};
    assert ms == {(7, 1)};
    assert UsersOf(ms, 0) == {};
    var rest := Select(st.roles, (x: Role) => x.id != 0);
    assert rest == [b] by {
      assert Select([b], (x: Role) => x.id != 0) == [b];
    }
    var st1 := Store(rest, ms, 2);
    assert AfterDelete(st, 7, Some(a)) == st1;
    assert Select([a, b], (x: Role) => x != a) == [b] by {
      assert Select([b], (x: Role) => x != a) == [b];
    }
    assert AfterHasNoRolesAsWritten(st, 7) == EachDeleting(st1, 7, [b], 1);
    assert b in st1.roles && (7, 1) in st1.members;
  }
}
