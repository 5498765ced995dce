# padlock_authorization in Dafny

padlock_authorization is a role-based authorization plugin for Rails 2. It has
three parts:

- **Subject side (`acts_as_authorized_user`).** A user holds named roles scoped
  to one authorizable object. A role row is a `(name, authorizable_type,
  authorizable_id)` triple with a surrogate id. The user queries its roles with
  `has_role?`, `has_what_roles_on` and `has_what_with_role`. It changes them
  with `has_role`, `has_no_role`, `has_no_roles_on` and `has_no_roles`. A
  revoke destroys a role row once no user holds it.
- **Resource side (`acts_as_authorizable`).** An object answers the same
  questions from its own point of view, mostly by delegating to the subject
  side. It exposes the distinct `users` holding some role on it. Destroying it
  destroys its roles.
- **Controller guard.** `padlock(options) { unlock_if }` appends a rule to an
  ordered class-level list. `user_authorized_for?` walks that list: it skips
  rules whose `:only` / `:except` filters exclude the current action, goes on
  past rules whose unlock block returns true, and denies at the first applicable
  rule that has no block or whose block returns false.

The project has six modules:

- `Roles` (`roles.dfy`): the store as a value. `Store` holds the role rows in
  table order, the `roles_users` memberships as a set of `(user id, role id)`
  pairs, and the next surrogate id. The module also defines `get_role`
  (`GetRole`): the first row with the triple in table order, standing for
  the row `Role.find :first` returns.
  It states three store invariants:
  - `WellFormed`: ids are unique and every membership names a live row. The
    schema declares no foreign key, so the operations keep this themselves:
    `delete_role` destroys a role together with its join rows.
  - `UniqueTriples`: no two rows share a triple. Only find-before-create
    maintains this; the migration's index on `name` is not unique.
  - `NoOrphans`: every row has a holder.
- `UserExtensions` (`user_extensions.dfy`): the subject-side queries as
  functions. Each mutator is also given as a function from the store before the
  call to the store after it (`AfterGrant`, `AfterDelete`, `AfterHasNoRole`,
  `AfterHasNoRolesOn`, `AfterHasNoRoles`).
- `UserProperties` (`user_properties.dfy`): what those operations are proved to
  guarantee, and the as-written model of `has_no_roles` (see Findings).
- `RoleTables` (`role_tables.dfy`): the class `RoleTable`, whose fields are the
  two tables and the id counter. Its methods change them in place. Each method
  is proved to leave exactly the state of its value-level counterpart and to
  keep all three invariants.
- `ModelExtensions` (`model_extensions.dfy`): the resource-side API, the
  `users` relation and the dependent destroy.
- `PadlockAuthorization` (`padlock_authorization.dfy`): the guard. It covers
  option validation and normalization, the class `Controller` with its rule
  list and one-time filter flag, the evaluator as a recursive function
  (`Authorized`), the source's loop as a method (`UserAuthorizedFor`), and the
  controller's nil-user `has_role?`.

`wrappers.dfy` holds an `Option` type.

Two things are parameters of the model rather than modelled:

- The unlock block is a Dafny function of the params and the controller
  instance, standing in for `instance_exec(params, &unlock_if)`.
- The current user is an `Option<UserId>`.

## Model

| member | source | states |
|---|---|---|
| Roles.FirstNamed | lib/extensions/user.rb:108-112 | a row with the triple such that no earlier row has it, if any; none exactly when no row has it |
| Roles.GetRole | lib/extensions/user.rb:108-112 | a found role is in the table with the requested triple and is its first such row; none iff no such row exists; with unique triples, any row with the triple is the one found |
| Roles.FirstNamedAppend | lib/extensions/user.rb:46-47 | appending a created row changes the lookup only when it found nothing before |
| UserProperties.PrepareRoleNamesForms | lib/extensions/user.rb:115-117 | String and Symbol of one spelling give the same list, a single name gives the same list as the one-element array, an empty array gives no names, and a name is listed iff some entry spells it |
| UserExtensions.AnyHeld | lib/extensions/user.rb:32-38 | the loop returns true iff some name's `get_role` row lists the user |
| UserExtensions.HeldVia | lib/extensions/user.rb:33-35 | one iteration of the `has_role?` loop; specified by `HeldViaIffHolds` |
| UserExtensions.HeldViaIffHolds | lib/extensions/user.rb:33-35 | the row `get_role` finds listing the user implies the user holds the triple; with unique triples the converse holds too |
| UserExtensions.HasRole | lib/extensions/user.rb:31-39 | true only if the user holds one of the names on the object; with unique triples, true iff it does |
| UserExtensions.FindAllByAuthorizable | lib/extensions/user.rb:102-103 | exactly the user's roles whose type and id match the object |
| UserExtensions.RolesOf | lib/extensions/user.rb:15 | exactly the rows the user is a member of (the `roles` association) |
| UserExtensions.NamesOfRoles | lib/extensions/user.rb:79 | the names of the roles, position by position |
| UserExtensions.HasWhatRolesOn | lib/extensions/user.rb:78-80 | a name is listed iff the user holds a role of that name on the object |
| UserExtensions.ObjectIds | lib/extensions/user.rb:93 | the authorizable ids of the roles, position by position |
| UserExtensions.Uniq | lib/extensions/user.rb:93 | the same values without repetition |
| UserExtensions.HasWhatWithRole | lib/extensions/user.rb:90-95 | distinct ids; an id is listed iff the user holds one of the names on the object of that type with that id |
| UserExtensions.GrantedRole | lib/extensions/user.rb:46-47 | the row `has_role` joins: the one `get_role` finds, else a new one with the next id; specified by `GrantShape` and `GrantCreatesOnlyWhenAbsent` |
| UserExtensions.AfterGrant | lib/extensions/user.rb:44-49 | the store after `has_role`; specified by `GrantHolds`, `GrantIdempotent`, `GrantCreatesOnlyWhenAbsent`, `GrantShape`, `GrantKeeps`, `GrantAddsOnlyOwn` and `GrantInvariants` |
| UserExtensions.AfterDelete | lib/extensions/user.rb:120-125 | the store after `delete_role`; specified by `DeleteEffect` and `DeleteInvariants` |
| UserExtensions.AfterHasNoRole | lib/extensions/user.rb:54-58 | the store after `has_no_role`; specified by `HasNoRoleRemoves`, `HasNoRoleCollects` and `HasNoRoleKeepsOthers` |
| UserExtensions.AfterDeleteEach | lib/extensions/user.rb:64 | `delete_role` applied to each listed role in order; specified by `DeleteEachEffect`, `DeleteEachInvariants` and `DeleteEachKeepsOthers` |
| UserExtensions.AfterHasNoRolesOn | lib/extensions/user.rb:63-65 | the store after `has_no_roles_on`; specified by `HasNoRolesOnClears` |
| UserExtensions.AfterHasNoRoles | lib/extensions/user.rb:67-72 | the store after `has_no_roles` over a snapshot of the roles; specified by `HasNoRolesClears` |
| UserProperties.GrantHolds | lib/extensions/user.rb:44-49 | after `has_role`, the user holds the role and `has_role?` is true |
| UserProperties.GrantIdempotent | lib/extensions/user.rb:46-48 | a second `has_role` with the same arguments leaves the store unchanged: no duplicate row or membership |
| UserProperties.GrantCreatesOnlyWhenAbsent | lib/extensions/user.rb:46-47 | a row is created only when no row has the triple, then exactly one, with the next id, at the end |
| UserProperties.GrantInvariants | lib/extensions/user.rb:44-49 | `has_role` preserves well-formedness, unique triples and the absence of orphan rows |
| UserProperties.GrantShape | lib/extensions/user.rb:46-48 | the only row added is the granted one, and the only membership added is the user's in it |
| UserProperties.GrantWellFormed | lib/extensions/user.rb:47-48 | ids stay unique and below the next id, and memberships name live rows |
| UserProperties.GrantUniqueTriples | lib/extensions/user.rb:46-47 | find-before-create keeps triples unique |
| UserProperties.GrantNoOrphans | lib/extensions/user.rb:48 | after `has_role`, no row is without a holder if none was before |
| UserProperties.HasRoleNameForms | lib/extensions/user.rb:31-32 | String and Symbol names agree, one name acts as a one-element list, an empty list yields false |
| UserProperties.GrantKeeps | lib/extensions/user.rb:44-49 | every earlier holding survives `has_role` |
| UserProperties.GrantAddsOnlyOwn | lib/extensions/user.rb:44-49 | the only holding `has_role` can add is this user's of this triple |
| UserProperties.DeleteEffect | lib/extensions/user.rb:120-125 | `delete_role` removes exactly that membership; a row goes only when its id has no holder left |
| UserProperties.DeleteInvariants | lib/extensions/user.rb:120-125 | `delete_role` preserves well-formedness, unique triples and the absence of orphan rows |
| UserProperties.UsersOfShrinks | lib/extensions/user.rb:123 | a role with no users still has none once further memberships are removed |
| UserProperties.DeleteEachEffect | lib/extensions/user.rb:64 | `delete_role` over a list removes exactly the user's memberships in the listed roles; only unheld rows go |
| UserProperties.DeleteEachInvariants | lib/extensions/user.rb:64 | `delete_role` over a list preserves the three invariants |
| UserProperties.DeleteEachKeepsOthers | lib/extensions/user.rb:64 | `delete_role` over a list leaves every other user's holdings unchanged |
| UserProperties.HasNoRoleRemoves | lib/extensions/user.rb:54-58 | afterwards the user no longer holds the role and `has_role?` is false |
| UserProperties.HasNoRoleCollects | lib/extensions/user.rb:54-58 | the role survives iff another user held it; nothing changes when no row has the triple |
| UserProperties.HasNoRoleKeepsOthers | lib/extensions/user.rb:54-58 | every other holding is unchanged, so another holder keeps `has_role?` true |
| UserProperties.HasNoRolesOnClears | lib/extensions/user.rb:60-65 | afterwards the user holds nothing on the object; its roles elsewhere and other users' holdings are unchanged |
| UserProperties.HasNoRolesClears | lib/extensions/user.rb:67-72 | over a snapshot of the user's roles, afterwards the user has no membership at all and other users are untouched |
| UserProperties.AfterHasNoRolesAsWritten | lib/extensions/user.rb:70-72 | `has_no_roles` as written, deleting from the array it iterates; specified by `HasNoRolesAsWrittenKeepsARole` |
| UserProperties.EachDeleting | lib/extensions/user.rb:71 | Ruby's index-based `Array#each` over an array that each step shrinks; specified by `HasNoRolesAsWrittenKeepsARole` |
| UserProperties.TwoRoleStoreIsSound | lib/extensions/user.rb:70-72 | the counterexample store satisfies all three invariants |
| UserProperties.HasNoRolesAsWrittenKeepsARole | lib/extensions/user.rb:70-72 | the loop as written leaves user 7 holding the second of two roles |
| RoleTables.RoleTable.constructor | generators/padlock/templates/db/migrate/migration.rb:4-15 | empty tables satisfy the three invariants |
| RoleTables.RoleTable.Grant | lib/extensions/user.rb:44-49 | the in-place `has_role` leaves exactly `AfterGrant`'s state, makes `has_role?` true and keeps the invariants |
| RoleTables.RoleTable.DeleteRole | lib/extensions/user.rb:120-125 | the in-place `delete_role` leaves exactly `AfterDelete`'s state and keeps the invariants |
| RoleTables.RoleTable.HasNoRole | lib/extensions/user.rb:54-58 | the in-place `has_no_role` leaves `AfterHasNoRole`'s state; with unique triples `has_role?` is false afterwards |
| RoleTables.RoleTable.DeleteEach | lib/extensions/user.rb:64 | the `each { delete_role }` loop leaves the state of the deletions applied in order |
| RoleTables.RoleTable.HasNoRolesOn | lib/extensions/user.rb:63-65 | afterwards `has_what_roles_on(obj)` is empty, and roles elsewhere and other users are unchanged |
| RoleTables.RoleTable.HasNoRoles | lib/extensions/user.rb:70-72 | the snapshot loop leaves the user without memberships and other users untouched |
| ModelExtensions.Users | lib/extensions/model.rb:17 | a user is in `users` iff they hold some role on the object, i.e. iff `has_what_roles_on` is non-empty |
| ModelExtensions.AcceptsRole | lib/extensions/model.rb:28-30 | equals `has_role?` with the arguments swapped, and implies membership in `users` |
| ModelExtensions.AcceptsWhatRolesBy | lib/extensions/model.rb:50-52 | equals `has_what_roles_on(self)`: exactly the names the user holds on the object |
| ModelExtensions.AcceptsWhoWithRole | lib/extensions/model.rb:62-64 | a subset of `users`, holding exactly the users for whom `has_role?` is true; with unique triples, those holding one of the names |
| ModelExtensions.AddAcceptedRole | lib/extensions/model.rb:35-37 | same effect as `has_role`; afterwards `accepts_role?` is true |
| ModelExtensions.RemoveAcceptedRole | lib/extensions/model.rb:42-44 | same effect as `has_no_role`; with unique triples `accepts_role?` is false afterwards |
| ModelExtensions.AfterDestroy | lib/extensions/model.rb:15 | the store after the dependent destroy of the object's roles; specified by `DestroyRemovesScoped` |
| ModelExtensions.DestroyRemovesScoped | lib/extensions/model.rb:15 | after the dependent destroy, no row is scoped to the object and `users` is empty; holdings on other objects and the invariants are kept |
| ModelExtensions.DestroyAuthorizable | lib/extensions/model.rb:15 | the in-place destroy leaves `AfterDestroy`'s state, with `users` empty |
| PadlockAuthorization.CurrentAction | lib/padlock_authorization.rb:83-87 | `params[:action]`, or `index` without one; specified by `MissingActionMeansIndex` |
| PadlockAuthorization.Applies | lib/padlock_authorization.rb:82-88 | the rule's `:only` and `:except` filters let the action through; specified by `SkippedRuleIsTransparent` and `Authorized` |
| PadlockAuthorization.Denies | lib/padlock_authorization.rb:90-95 | an applicable rule without a block, or whose block returns false; specified by `AuthorizedAppend` and `UserAuthorizedFor` |
| PadlockAuthorization.Authorized | lib/padlock_authorization.rb:74-100 | allowed iff every rule applicable to the action has an unlock block that returns true |
| PadlockAuthorization.SkippedRuleIsTransparent | lib/padlock_authorization.rb:82-88 | a rule whose filters exclude the action does not affect the outcome |
| PadlockAuthorization.AuthorizedAppend | lib/padlock_authorization.rb:70 | appending a rule allows iff the old list allows and the new rule does not deny |
| PadlockAuthorization.MissingActionMeansIndex | lib/padlock_authorization.rb:83 | with no `:action` parameter, rules are matched against `index` |
| PadlockAuthorization.OwnerRuleScenario | lib/padlock_authorization.rb:37 | with `:only => [:edit, :update]`, `show` is allowed and `edit` only when the block is true |
| PadlockAuthorization.DenyDeleteAllowShowScenario | lib/padlock_authorization.rb:90-95 | a false block denies its action; a rule for another action lets `show` pass |
| PadlockAuthorization.Compact | lib/padlock_authorization.rb:65 | exactly the non-nil names of the list, no longer than it |
| PadlockAuthorization.ActionList | lib/padlock_authorization.rb:64-65 | a single value is wrapped first; the result is its non-nil names |
| PadlockAuthorization.Symbols | lib/padlock_authorization.rb:65 | every name converted to a symbol, position by position |
| PadlockAuthorization.ActionListOfSymbols | lib/padlock_authorization.rb:64-65 | normalizing an already-normalized list gives the same list |
| PadlockAuthorization.AliasedFilter | lib/padlock_authorization.rb:57-66 | the filter stored under one key given its alias; specified by `FoldedOnly`, `FoldedExcept` and `ConvertedFilters` |
| PadlockAuthorization.RuleOf | lib/padlock_authorization.rb:57-70 | the rule a successful `padlock` appends; specified by `ConvertedFilters` and `Controller.Padlock` |
| PadlockAuthorization.UnknownKeySet | lib/padlock_authorization.rb:46-49 | exactly the keys of the hash minus the four valid ones; empty iff every key is valid |
| PadlockAuthorization.FoldAliases | lib/padlock_authorization.rb:57-58 | folding the aliases adds no key except `:only` and `:except` |
| PadlockAuthorization.ConvertActions | lib/padlock_authorization.rb:62-67 | the loop normalizes the list at `:only` and at `:except` where present and leaves every other entry and the key set unchanged |
| PadlockAuthorization.FoldedOnly | lib/padlock_authorization.rb:57 | after folding, `:only` holds `:only` if non-nil, else `:on` if non-nil, else `:only`'s nil |
| PadlockAuthorization.FoldedExcept | lib/padlock_authorization.rb:58 | after folding, `:except` holds `:except` if non-nil, else `:on_all_except` if non-nil, else `:except`'s nil |
| PadlockAuthorization.ConvertedFilters | lib/padlock_authorization.rb:57-67 | folding then converting stores exactly the filters `RuleOf` describes |
| PadlockAuthorization.Controller.constructor | lib/padlock_authorization.rb:15-21 | a controller starts with no rules and no filter |
| PadlockAuthorization.Controller.ResetRoleRequirements | lib/padlock_authorization.rb:25-27 | the list is empty afterwards and every action is authorized |
| PadlockAuthorization.Controller.Padlock | lib/padlock_authorization.rb:45-72 | unknown keys change nothing; otherwise exactly one rule is appended after the earlier ones, and `check_roles` is installed once |
| PadlockAuthorization.Controller.UserAuthorizedFor | lib/padlock_authorization.rb:74-100 | the loop's verdict equals `Authorized`; only applicable rules with a block have it called, in order, every one up to the first denial |
| PadlockAuthorization.ControllerHasRole | lib/padlock_authorization.rb:105-111 | false without a current user; otherwise the user's `has_role?` |
| PadlockAuthorization.PadlockRejectsUnknownKey | lib/padlock_authorization.rb:46-49 | an unknown key is reported and no rule or filter is added |
| PadlockAuthorization.PadlockRegistersRule | lib/padlock_authorization.rb:57-70 | `:on => [:edit, "update", nil]` is stored as `:only => [:edit, :update]` in one rule |

## Left out

- Role names other than String and Symbol (`nil`, numbers) are not modelled. Nor is `Array(nil)`, which gives an empty list.
- A single type tag per object stands for both `class.to_s` (lib/extensions/user.rb:102, 111) and `base_class` (lib/extensions/model.rb:17), so single-table inheritance is not modelled.
- ActiveRecord and SQL are modelled as reads and writes of the abstract store. This covers `find`, `exists?`, `finder_sql`/`counter_sql` and timestamps. Exceptions raised by the database are not modelled.
- Roles.GetRole: `Role.find :first` in the source has no ORDER BY, so which row it returns among duplicates is up to the database. The model picks the first row in table order. Under unique triples the choice does not matter.
- UserExtensions.PrepareRoleNames: `Array(role_names).collect!` rewrites an Array argument in place, so `has_role?`, `has_what_with_role` and `accepts_who_with_role` turn the caller's own array into Strings. The model takes the names by value, and that aliasing is not modelled.
- UserExtensions.HasWhatWithRole: returns the distinct object ids. It does not load the objects through `constantize.find`.
- UserExtensions.Uniq: the order of the ids is left unstated, because the SQL query gives no ORDER BY.
- ModelExtensions.Users: a set. The source's `SELECT DISTINCT` returns a list whose order the query leaves open.
- ModelExtensions.AcceptsWhoWithRole: a set, for the same reason.
- The role extensions file declares associations only, so it has no counterpart here beyond the `Role` and `Store` shapes.
- The generators are not modelled.
- Concurrency is not modelled: two requests racing on find-or-create or on the empty-users check. The model is sequential.
- Rails controller plumbing is not modelled:
  - `class_inheritable_array` inheritance between controller classes;
  - `helper_method`;
  - the rendering in `check_roles` / `access_denied`.
- `before_filter :check_roles` is modelled as appending its name to a recorded list.
- The `Array === role_requirements` guard is not modelled. `self.included` always sets the list to an array.
- The `self.role_requirements ||= []` default is not modelled, for the same reason.
- Unlock blocks are Dafny functions of the params and the controller instance. The `user` argument of `user_authorized_for?` is accepted and never consulted, as in the source.
- PadlockAuthorization.Controller.Padlock: the stored rule keeps `:only`, `:except` and the unlock block. The keys `:on` and `:on_all_except` stay in the source's stored hash but are never read again.
- PadlockAuthorization.Controller.Padlock: the source rewrites the caller's options hash in place. That aliasing is not modelled; the method takes the hash by value.
- Truthiness: the only falsy option value modelled is an explicit `nil`. The option values are names or lists of names, so `false` cannot occur as an entry.
- UserExtensions.HasRole: its exact equivalence with "holds one of the names" needs unique triples. Without them, `get_role` can find a duplicate row the user is not a member of. The unconditional direction ("true only if held") is proved.

## Findings

| source | as written | input that shows it | evidently intended | confidence | as-written member | corrected member |
|---|---|---|---|---|---|---|
| lib/extensions/user.rb:70-72 | `self.roles.each { delete_role(role) }` walks the loaded association array by index. `delete_role` removes the visited role from that same array, so each deletion moves the next role under an index already passed, and every second role is skipped. | user 7 holds `owner` and `editor` on Project 1 and no one else does; after `has_no_roles`, user 7 still holds `editor` | the doc comment's "remove ALL roles for this user on ALL objects": iterate over a snapshot of the roles | not executed; medium (depends on the association proxy's `each` and `delete` sharing the loaded array, as in Rails 2) | UserProperties.HasNoRolesAsWrittenKeepsARole | UserProperties.HasNoRolesClears |
