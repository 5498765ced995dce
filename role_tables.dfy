/**
 * The role store as mutable state: the `roles` table, the `roles_users`
 * join table and the id sequence as fields, with the subject-side mutators
 * of `acts_as_authorized_user` as methods that change them in place. Each
 * method is proved to leave exactly the state its value-level counterpart
 * in `UserExtensions` describes.
 */
module RoleTables {
  import opened Wrappers
  import opened Roles
  import opened UserExtensions
  import opened UserProperties

  class RoleTable {
    var roles: seq<Role>
    var members: set<Membership>
    var nextId: nat

    /** The current contents of the tables, as a value. */
    function State(): Store
      reads this
    {
      Store(roles, members, nextId)
    }

    ghost predicate Valid()
      reads this
    {
      WellFormed(State())
    }

    /** Empty tables, as the migration creates them. */
    constructor ()
      ensures Valid() && State() == Store([], {}, 0)
      ensures UniqueTriples(State()) && NoOrphans(State())
    {
      roles, members, nextId := [], {}, 0;
    }

    /** `has_role`: find or create the role, then add `u` to its users if missing. */
    method Grant(u: UserId, name: RoleName, obj: Authorizable)
      requires Valid()
      modifies this
      ensures Valid()
      ensures State() == AfterGrant(old(State()), u, name, obj)
      ensures HasRole(State(), u, One(name), obj)
      ensures UniqueTriples(old(State())) ==> UniqueTriples(State())
      ensures NoOrphans(old(State())) ==> NoOrphans(State())
    {
      ghost var st := State();
      var n := name.ToS();
      var role := GetRole(State(), n, obj);
      if role.None? {
        var created := Role(nextId, n, obj.kind, obj.id);
        roles := roles + [created];
        nextId := nextId + 1;
        role := Some(created);
      }
      ghost var st1 := State();
      assert st1 == if GetRole(st, n, obj).Some? then st
                    else Store(st.roles + [role.value], st.members, st.nextId + 1);
      if (u, role.value.id) !in members {
        members := members + {(u, role.value.id)};
      }
      assert State() == if (u, role.value.id) in st1.members then st1
                        else st1.(members := st1.members + {(u, role.value.id)});
      ghost var after := AfterGrant(st, u, name, obj);
      assert State() == after;
      GrantHolds(st, u, name, obj);
      GrantInvariants(st, u, name, obj);
    }

    /** `delete_role`: remove `u` from the role's users; destroy the role once it has none. */
    method DeleteRole(u: UserId, role: Option<Role>)
      requires Valid()
      modifies this
      ensures Valid()
      ensures State() == AfterDelete(old(State()), u, role)
      ensures UniqueTriples(old(State())) ==> UniqueTriples(State())
      ensures NoOrphans(old(State())) ==> NoOrphans(State())
    {
      DeleteInvariants(State(), u, role);
      if role.Some? {
        var r := role.value;
        members := members - {(u, r.id)};
        if UsersOf(members, r.id) == {} {
          roles := Select(roles, (x: Role) => x.id != r.id);
        }
      }
    }

    /** `has_no_role`: `delete_role` on the role `get_role` finds; a no-op when there is none. */
    method HasNoRole(u: UserId, name: RoleName, obj: Authorizable)
      requires Valid()
      modifies this
      ensures Valid()
      ensures State() == AfterHasNoRole(old(State()), u, name, obj)
      ensures UniqueTriples(old(State())) ==> UniqueTriples(State()) && !HasRole(State(), u, One(name), obj)
      ensures NoOrphans(old(State())) ==> NoOrphans(State())
    {
      ghost var st := State();
      var role := GetRole(State(), name.ToS(), obj);
      DeleteRole(u, role);
      if UniqueTriples(st) {
        HasNoRoleRemoves(st, u, name, obj);
      }
    }

    /** `delete_role` on each of `rs` in turn. */
    method DeleteEach(u: UserId, rs: seq<Role>)
      requires Valid()
      modifies this
      ensures Valid()
      ensures State() == AfterDeleteEach(old(State()), u, rs)
      ensures UniqueTriples(old(State())) ==> UniqueTriples(State())
      ensures NoOrphans(old(State())) ==> NoOrphans(State())
    {
      ghost var st := State();
      for i := 0 to |rs|
        invariant Valid()
        invariant State() == AfterDeleteEach(st, u, rs[..i])
      {
        DeleteRole(u, Some(rs[i]));
        assert rs[..i + 1][..i] == rs[..i];
      }
      assert rs[..|rs|] == rs;
      DeleteEachInvariants(st, u, rs);
    }

    /** `has_no_roles_on`: revoke every role `u` holds on `obj`. */
    method HasNoRolesOn(u: UserId, obj: Authorizable)
      requires Valid()
      modifies this
      ensures Valid()
      ensures State() == AfterHasNoRolesOn(old(State()), u, obj)
      ensures UniqueTriples(old(State())) ==> UniqueTriples(State())
      ensures NoOrphans(old(State())) ==> NoOrphans(State())
      ensures HasWhatRolesOn(State(), u, obj) == []
      ensures forall n, o :: o != obj ==> (Holds(State(), u, n, o) <==> Holds(old(State()), u, n, o))
      ensures forall v, n, o :: v != u ==> (Holds(State(), v, n, o) <==> Holds(old(State()), v, n, o))
    {
      ghost var st := State();
      var found := FindAllByAuthorizable(State(), u, obj);
      DeleteEach(u, found);
      HasNoRolesOnClears(st, u, obj);
    }

    /**
     * `has_no_roles`: revoke every role of `u`, iterating over a snapshot of
     * the user's roles taken before the first deletion.
     */
    method HasNoRoles(u: UserId)
      requires Valid()
      modifies this
      ensures Valid()
      ensures State() == AfterHasNoRoles(old(State()), u)
      ensures UniqueTriples(old(State())) ==> UniqueTriples(State())
      ensures NoOrphans(old(State())) ==> NoOrphans(State())
      ensures forall m :: m in members ==> m.0 != u
      ensures forall v, n, o :: v != u ==> (Holds(State(), v, n, o) <==> Holds(old(State()), v, n, o))
    {
      ghost var st := State();
      var snapshot := RolesOf(State(), u);
      DeleteEach(u, snapshot);
      HasNoRolesClears(st, u);
    }
  }
}
