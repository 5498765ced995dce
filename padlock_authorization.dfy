/**
 * The controller-side guard: `padlock` registers rules (validating and
 * normalizing its options), `user_authorized_for?` walks the rules in
 * registration order, and the `has_role?` helper guards against a missing
 * current user.
 */
module PadlockAuthorization {
  import opened Wrappers
  import opened Roles
  import UserExtensions

  /** An action symbol, by its name. */
  type Action = string

  /** The request parameters, by name. */
  type Params = map<string, string>

  /** An entry of an action list as the caller writes it: nil, a String or a Symbol. */
  datatype ActionName = NilName | Str(s: string) | Sym(s: string)

  /** An option value: one entry, or an Array of entries. */
  datatype OptionValue = Single(entry: ActionName) | List(entries: seq<ActionName>)

  /** The keys of the options hash; `Other` stands for any key `padlock` does not know. */
  datatype OptionKey = Only | On | Except | OnAllExcept | Other(name: string)

  type Options = map<OptionKey, OptionValue>

  /**
   * A registered rule: the normalized `:only` and `:except` lists (absent when
   * the key is absent) and the unlock block, which the guard calls with the
   * request parameters and the controller instance.
   */
  datatype Rule<!C> = Rule(only: Option<seq<Action>>, except: Option<seq<Action>>,
                          unlock: Option<(Params, C) -> bool>)

  /** What `padlock` does with its options: registers a rule, or raises ArgumentError naming the unknown keys. */
  datatype Registration = Registered | UnknownKeys(keys: set<OptionKey>)

  /** The before filter `padlock` installs. */
  const CheckRoles: string := "check_roles"

  // ------------------------------------------------------------- evaluation

  /** `(params[:action] || "index").to_sym`. */
  function CurrentAction(params: Params): Action {
    if "action" in params then params["action"] else "index"
  }

  /** The rule's filters let `a` through: listed in `:only` if present, not listed in `:except` if present. */
  predicate Applies<C>(r: Rule<C>, a: Action) {
    (r.only.None? || a in r.only.value) && (r.except.None? || a !in r.except.value)
  }

  /** The rule applies to `a` and has no unlock block, or its block returns false. */
  predicate Denies<C>(r: Rule<C>, a: Action, params: Params, instance: C) {
    Applies(r, a) && (r.unlock.None? || !r.unlock.value(params, instance))
  }

  /** No rule before index `k` denies. */
  predicate NoDenialBefore<C>(rules: seq<Rule<C>>, k: nat, a: Action, params: Params, instance: C)
    requires k <= |rules|
  {
    forall i :: 0 <= i < k ==> !Denies(rules[i], a, params, instance)
  }

  /**
   * `user_authorized_for?`: skip a rule whose filters exclude the action,
   * go on past an applicable rule whose unlock block returns true, deny at
   * the first applicable rule without a block or whose block returns false,
   * and allow when no rule denies. The result is the conjunction of the
   * unlock blocks of the applicable rules; an empty list allows everything.
   */
  function Authorized<C>(rules: seq<Rule<C>>, params: Params, instance: C): (ok: bool)
    ensures ok <==> forall i :: 0 <= i < |rules| && Applies(rules[i], CurrentAction(params)) ==>
                      rules[i].unlock.Some? && rules[i].unlock.value(params, instance)
  {
    if rules == [] then true
    else
      var r := rules[0];
      var a := CurrentAction(params);
      if r.only.Some? && a !in r.only.value then Authorized(rules[1..], params, instance)
      else if r.except.Some? && a in r.except.value then Authorized(rules[1..], params, instance)
      else if r.unlock.Some? then
        if r.unlock.value(params, instance) then Authorized(rules[1..], params, instance) else false
      else false
  }

  /** A rule whose filters exclude the action does not change the outcome. */
  lemma SkippedRuleIsTransparent<C>(r: Rule<C>, rest: seq<Rule<C>>, params: Params, instance: C)
    requires !Applies(r, CurrentAction(params))
    ensures Authorized([r] + rest, params, instance) == Authorized(rest, params, instance)
  {
    assert ([r] + rest)[1..] == rest;
  }

  /** Appending a rule can only restrict: the new list allows iff the old one does and the new rule does not deny. */
  lemma {:induction false} AuthorizedAppend<C>(rules: seq<Rule<C>>, r: Rule<C>, params: Params, instance: C)
    ensures Authorized(rules + [r], params, instance) <==>
            Authorized(rules, params, instance) && !Denies(r, CurrentAction(params), params, instance)
  {
    var all := rules + [r];
    assert forall i :: 0 <= i < |rules| ==> all[i] == rules[i];
    assert all[|rules|] == r;
  }

  /** Without `params[:action]` the rules are matched against `index`. */
  lemma MissingActionMeansIndex<C>(rules: seq<Rule<C>>, params: Params, instance: C)
    requires "action" !in params
    ensures Authorized(rules, params, instance) <==>
            forall i :: 0 <= i < |rules| && Applies(rules[i], "index") ==>
              rules[i].unlock.Some? && rules[i].unlock.value(params, instance)
  {
  }

  /** `padlock(:only => [:edit, :update]) { owner? }`: `show` is always allowed, `edit` only for the owner. */
  lemma OwnerRuleScenario(isOwner: bool)
    ensures var rules := [Rule(Some(["edit", "update"]), None, Some((p: Params, c: int) => isOwner))];
            && Authorized(rules, map["action" := "show"], 0)
            && Authorized(rules, map["action" := "edit"], 0) == isOwner
  {
  }

  /** A rule that always denies `delete` and one that allows `show`: `delete` is denied, `show` allowed. */
  lemma DenyDeleteAllowShowScenario()
    ensures var rules := [Rule(Some(["delete"]), None, Some((p: Params, c: int) => false)),
                          Rule(Some(["show"]), None, Some((p: Params, c: int) => true))];
            && !Authorized(rules, map["action" := "delete"], 0)
            && Authorized(rules, map["action" := "show"], 0)
  {
  }

  // -------------------------------------------------- option normalization

  /** Ruby truthiness of `options[k]`: present and not nil. */
  predicate Truthy(options: Options, k: OptionKey) {
    k in options && options[k] != Single(NilName)
  }

  /** `Array(v)`: the entries of a value, a lone entry wrapped. */
  function Entries(v: OptionValue): seq<ActionName> {
    match v
    case Single(x) => [x]
    case List(xs) => xs
  }

  /** `compact.collect { |v| v.to_sym }`: drop the nils and take each name. */
  function Compact(xs: seq<ActionName>): (r: seq<Action>)
    ensures |r| <= |xs|
    ensures forall a :: a in r <==> exists x :: x in xs && !x.NilName? && x.s == a
  {
    if xs == [] then []
    else (if xs[0].NilName? then [] else [xs[0].s]) + Compact(xs[1..])
  }

  /** The action list `padlock` stores for a value: wrapped, compacted, as symbols. */
  function ActionList(v: OptionValue): (r: seq<Action>)
    ensures forall a :: a in r <==> exists x :: x in Entries(v) && !x.NilName? && x.s == a
  {
    Compact(Entries(v))
  }

  /** A list of names as an Array of Symbols. */
  function Symbols(names: seq<Action>): (r: seq<ActionName>)
    ensures |r| == |names| && forall i :: 0 <= i < |r| ==> r[i] == Sym(names[i])
  {
    if names == [] then [] else [Sym(names[0])] + Symbols(names[1..])
  }

  /** An already-normalized list normalizes to itself. */
  lemma {:induction false} ActionListOfSymbols(names: seq<Action>)
    ensures ActionList(List(Symbols(names))) == names
  {
    if names != [] {
      assert Symbols(names)[1..] == Symbols(names[1..]);
      ActionListOfSymbols(names[1..]);
    }
  }

  /**
   * The filter `padlock` stores under `key`, given its alias: the key's own
   * list when it is non-nil, else the alias's when that is non-nil, else the
   * key's nil (an empty list), else none.
   */
  function AliasedFilter(options: Options, key: OptionKey, alias: OptionKey): Option<seq<Action>> {
    if Truthy(options, key) then Some(ActionList(options[key]))
    else if Truthy(options, alias) then Some(ActionList(options[alias]))
    else if key in options then Some(ActionList(options[key]))
    else None
  }

  /** The rule a successful `padlock(options, &unlock_if)` appends. */
  function RuleOf<C>(options: Options, unlockIf: Option<(Params, C) -> bool>): Rule<C> {
    Rule(AliasedFilter(options, Only, On), AliasedFilter(options, Except, OnAllExcept), unlockIf)
  }

  /** `assert_valid_keys(:only, :on, :except, :on_all_except)`: the keys it rejects. */
  function UnknownKeySet(options: Options): (ks: set<OptionKey>)
    ensures ks == options.Keys - {Only, On, Except, OnAllExcept}
    ensures ks == {} <==> forall k :: k in options ==> !k.Other?
  {
    var ks := set k | k in options && k.Other?;
    assert forall k :: k in options && k.Other? ==> k in ks;
    ks
  }

  /** `options[:only] ||= options[:on] if options[:on]`, then the same for `:except` and `:on_all_except`. */
  function FoldAliases(options: Options): (o: Options)
    ensures o.Keys <= options.Keys + {Only, Except}
  {
    var o1 := if Truthy(options, On) && !Truthy(options, Only) then options[Only := options[On]] else options;
    if Truthy(o1, OnAllExcept) && !Truthy(o1, Except) then o1[Except := o1[OnAllExcept]] else o1
  }

  /**
   * The `for key in [:only, :except]` loop of `padlock`: each of the two keys
   * that is present has its value wrapped, compacted and converted to symbols
   * in place; every other entry is left as it is.
   */
  method ConvertActions(options: Options) returns (o: Options)
    ensures o.Keys == options.Keys
    ensures forall k :: k in options && k != Only && k != Except ==> o[k] == options[k]
    ensures forall k :: k in options && (k == Only || k == Except) ==>
              o[k] == List(Symbols(ActionList(options[k])))
  {
    o := options;
    var keys := [Only, Except];
    for i := 0 to |keys|
      invariant o.Keys == options.Keys
      invariant forall k :: k in options && k !in keys[..i] ==> o[k] == options[k]
      invariant forall k :: k in options && k in keys[..i] ==> o[k] == List(Symbols(ActionList(options[k])))
    {
      var key := keys[i];
      if key in o {
        var v := o[key];
        if !v.List? {
          v := List([v.entry]);
        }
        o := o[key := List(Symbols(Compact(v.entries)))];
      }
      assert keys[..i + 1] == keys[..i] + [key];
    }
    assert keys[..|keys|] == keys;
  }

  /** The stored filter read back from a converted options hash. */
  function StoredFilter(o: Options, key: OptionKey): Option<seq<Action>> {
    if key in o then Some(ActionList(o[key])) else None
  }

  /** After folding, `:only` holds exactly the list `padlock` stores for it. */
  lemma FoldedOnly(options: Options)
    ensures var f := FoldAliases(options);
            AliasedFilter(options, Only, On) == if Only in f then Some(ActionList(f[Only])) else None
  {
    var o1 := if Truthy(options, On) && !Truthy(options, Only) then options[Only := options[On]] else options;
    assert Only in o1 ==> Only in FoldAliases(options) && FoldAliases(options)[Only] == o1[Only];
    assert Only in FoldAliases(options) ==> Only in o1;
  }

  /** After folding, `:except` holds exactly the list `padlock` stores for it. */
  lemma FoldedExcept(options: Options)
    ensures var f := FoldAliases(options);
            AliasedFilter(options, Except, OnAllExcept) == if Except in f then Some(ActionList(f[Except])) else None
  {
    var o1 := if Truthy(options, On) && !Truthy(options, Only) then options[Only := options[On]] else options;
    assert Except in o1 <==> Except in options;
    assert Except in o1 ==> o1[Except] == options[Except];
    assert OnAllExcept in o1 <==> OnAllExcept in options;
    assert OnAllExcept in o1 ==> o1[OnAllExcept] == options[OnAllExcept];
  }

  /** Folding the aliases and converting the lists yields the filters `RuleOf` describes. */
  lemma ConvertedFilters(options: Options, o: Options)
    requires o.Keys == FoldAliases(options).Keys
    requires forall k :: k in FoldAliases(options) && (k == Only || k == Except) ==>
               o[k] == List(Symbols(ActionList(FoldAliases(options)[k])))
    ensures StoredFilter(o, Only) == AliasedFilter(options, Only, On)
    ensures StoredFilter(o, Except) == AliasedFilter(options, Except, OnAllExcept)
  {
    var f := FoldAliases(options);
    FoldedOnly(options);
    FoldedExcept(options);
    if Only in f {
      ActionListOfSymbols(ActionList(f[Only]));
    }
    if Except in f {
      ActionListOfSymbols(ActionList(f[Except]));
    }
  }

  // ------------------------------------------------------------- controller

  /**
   * The class-level state a controller carries: its `role_requirements`, the
   * `@before_filter_declared` flag, and the before filters installed so far.
   */
  class Controller<C> {
    var requirements: seq<Rule<C>>
    var filterDeclared: bool
    var beforeFilters: seq<string>

    /** The `check_roles` filter is installed exactly when the flag is set, and at most once. */
    ghost predicate Valid()
      reads this
    {
      beforeFilters == if filterDeclared then [CheckRoles] else []
    }

    /** `self.included`: `role_requirements = []`, no filter yet. */
    constructor ()
      ensures Valid() && requirements == [] && !filterDeclared
    {
      requirements, filterDeclared, beforeFilters := [], false, [];
    }

    /** `reset_role_requirements!`: empty the list; afterwards every action is authorized. */
    method ResetRoleRequirements()
      modifies this
      ensures requirements == []
      ensures filterDeclared == old(filterDeclared) && beforeFilters == old(beforeFilters)
      ensures forall params: Params, instance: C :: Authorized(requirements, params, instance)
    {
      requirements := [];
    }

    /**
     * `padlock(options, &unlock_if)`: reject unknown keys before changing
     * anything; otherwise install `check_roles` if this is the first rule,
     * fold the aliases, normalize the action lists and append one rule.
     */
    method Padlock(options: Options, unlockIf: Option<(Params, C) -> bool>) returns (outcome: Registration)
      requires Valid()
      modifies this
      ensures Valid()
      ensures outcome == if UnknownKeySet(options) == {} then Registered else UnknownKeys(UnknownKeySet(options))
      ensures outcome.UnknownKeys? ==>
                requirements == old(requirements) && filterDeclared == old(filterDeclared) &&
                beforeFilters == old(beforeFilters)
      ensures outcome.Registered? ==>
                requirements == old(requirements) + [RuleOf(options, unlockIf)] &&
                filterDeclared && beforeFilters == [CheckRoles]
    {
      var unknown := UnknownKeySet(options);
      if unknown != {} {
        return UnknownKeys(unknown);
      }
      if !filterDeclared {
        filterDeclared := true;
        beforeFilters := beforeFilters + [CheckRoles];
      }
      var folded := FoldAliases(options);
      var converted := ConvertActions(folded);
      ConvertedFilters(options, converted);
      var rule := Rule(StoredFilter(converted, Only), StoredFilter(converted, Except), unlockIf);
      requirements := requirements + [rule];
      outcome := Registered;
    }

    /**
     * `user_authorized_for?(user, params, instance)` as the loop the source
     * runs; `user` is not consulted. Besides the verdict it returns the
     * indices of the rules whose unlock block was called, in order: only
     * applicable rules with a block, every such rule up to the first denial,
     * and none after it.
     */
    method UserAuthorizedFor(user: Option<UserId>, params: Params, instance: C)
      returns (ok: bool, evaluated: seq<nat>)
      ensures ok == Authorized(requirements, params, instance)
      ensures forall j :: 0 <= j < |evaluated| ==>
                evaluated[j] < |requirements| &&
                Applies(requirements[evaluated[j]], CurrentAction(params)) &&
                requirements[evaluated[j]].unlock.Some? &&
                NoDenialBefore(requirements, evaluated[j], CurrentAction(params), params, instance)
      ensures forall j, k :: 0 <= j < k < |evaluated| ==> evaluated[j] < evaluated[k]
      ensures forall k ::
                (0 <= k < |requirements| && Applies(requirements[k], CurrentAction(params)) &&
                 requirements[k].unlock.Some? &&
                 NoDenialBefore(requirements, k, CurrentAction(params), params, instance)) ==> k in evaluated
    {
      var a := CurrentAction(params);
      evaluated := [];
      var i := 0;
      while i < |requirements|
        invariant 0 <= i <= |requirements|
        invariant NoDenialBefore(requirements, i, a, params, instance)
        invariant forall j :: 0 <= j < |evaluated| ==>
                    evaluated[j] < i && Applies(requirements[evaluated[j]], a) &&
                    requirements[evaluated[j]].unlock.Some? &&
                    NoDenialBefore(requirements, evaluated[j], a, params, instance)
        invariant forall j, k :: 0 <= j < k < |evaluated| ==> evaluated[j] < evaluated[k]
        invariant forall k :: 0 <= k < i && Applies(requirements[k], a) && requirements[k].unlock.Some? ==>
                    k in evaluated
      {
        var r := requirements[i];
        if r.only.Some? && a !in r.only.value {
          i := i + 1;
          continue;
        }
        if r.except.Some? && a in r.except.value {
          i := i + 1;
          continue;
        }
        if r.unlock.Some? {
          evaluated := evaluated + [i];
          if r.unlock.value(params, instance) {
            i := i + 1;
            continue;
          }
        }
        assert Denies(r, a, params, instance);
        return false, evaluated;
      }
      ok := true;
    }
  }

  /** The controller's `has_role?` helper: false without a current user, else the user's `has_role?`. */
  function ControllerHasRole(st: Store, currentUser: Option<UserId>, names: UserExtensions.RoleNames, obj: Authorizable): (b: bool)
    ensures currentUser.None? ==> !b
    ensures b ==> currentUser.Some? && exists n :: n in UserExtensions.PrepareRoleNames(names) && Holds(st, currentUser.value, n, obj)
    ensures currentUser.Some? && UniqueTriples(st) ==>
              (b <==> exists n :: n in UserExtensions.PrepareRoleNames(names) && Holds(st, currentUser.value, n, obj))
  {
    match currentUser
    case Some(u) => UserExtensions.HasRole(st, u, names, obj)
    case None => false
  }

  /** `padlock(:if => :edit)` on a fresh controller raises and leaves it without rules or filter. */
  method PadlockRejectsUnknownKey() returns (c: Controller<int>, outcome: Registration)
    ensures outcome == UnknownKeys({Other("if")})
    ensures c.requirements == [] && c.beforeFilters == [] && !c.filterDeclared
  {
    c := new Controller<int>();
    var bad := map[Other("if") := Single(Sym("edit"))];
    assert Other("if") in UnknownKeySet(bad) && UnknownKeySet(bad) <= {Other("if")};
    outcome := c.Padlock(bad, None);
  }

  /** `padlock(:on => [:edit, "update", nil]) { owner? }` stores one rule with an `:only` filter of both actions. */
  method PadlockRegistersRule(isOwner: bool) returns (c: Controller<int>)
    ensures c.beforeFilters == [CheckRoles]
    ensures |c.requirements| == 1
    ensures c.requirements[0].only == Some(["edit", "update"]) && c.requirements[0].except == None
    ensures c.requirements[0].unlock.Some?
  {
    c := new Controller<int>();
    var options := map[On := List([Sym("edit"), Str("update"), NilName])];
    var unlock := Some((p: Params, x: int) => isOwner);
    assert UnknownKeySet(options) == {};
    assert AliasedFilter(options, Only, On) == Some(["edit", "update"]) by {
      assert Compact([Sym("edit"), Str("update"), NilName]) == ["edit", "update"];
    }
    var outcome := c.Padlock(options, unlock);
  }
}
