/**
  Dependency ordering of utility rules: the depth-first post-order walk over
  `matches` references that decides in which order named rules are compiled
  and registered.

  The walk is modelled exactly as written, including that an id enters the
  `seen` set only after its dependencies were visited. Such a walk terminates
  only on reference graphs without cycles, so every traversal function takes
  a ghost ranking of the rule ids (`Ranked`) as its termination argument.
*/
module RuleDeps {
  import opened Wrappers

  /**
    The fields of a serialized rule that matter for ordering. `all` and `any`
    are Rust's `Maybe<Vec<SerializableRule>>`; pattern, kind, regex and the
    relational fields are irrelevant here and left out.
  */
  datatype Rule = Rule(matches: Option<string>, all: SubRules, any: SubRules, not: Option<Rule>)

  /** An optional list of sub-rules (`Maybe<Vec<SerializableRule>>`). */
  datatype SubRules = Absent | Present(rules: seq<Rule>)

  /** The state of the sorter: the post-order built so far and the ids already emitted. */
  datatype Sorter = Sorter(order: seq<string>, seen: set<string>)

  const EmptySorter := Sorter([], {})

  // ---------------------------------------------------------------------
  // Dependencies and acyclicity
  // ---------------------------------------------------------------------

  /** Ids a rule refers to through `matches`, directly or nested in `all`/`any`, but not through `not`. */
  function Deps(r: Rule): set<string>
  {
    (if r.matches.Some? then {r.matches.value} else {})
    + (if r.all.Present? then DepsOfList(r.all.rules) else {})
    + (if r.any.Present? then DepsOfList(r.any.rules) else {})
  }

  /** Union of the dependencies of every rule in a list. */
  function DepsOfList(rs: seq<Rule>): set<string>
  {
    if |rs| == 0 then {} else Deps(rs[0]) + DepsOfList(rs[1..])
  }

  /**
    `rank` witnesses that the references among the rules are acyclic: every
    rule id has a rank, and every id a rule depends on that is itself a rule
    id has a strictly smaller rank.
  */
  ghost predicate Ranked(utils: map<string, Rule>, rank: map<string, nat>)
  {
    && utils.Keys <= rank.Keys
    && forall k, d :: k in utils && d in Deps(utils[k]) && d in utils ==> rank[d] < rank[k]
  }

  /** Termination measure of `Visit`: rule ids weigh one more than their rank, other ids nothing. */
  ghost function Height(utils: map<string, Rule>, rank: map<string, nat>, id: string): nat
    requires utils.Keys <= rank.Keys
  {
    if id in utils then rank[id] + 1 else 0
  }

  // ---------------------------------------------------------------------
  // The walk
  // ---------------------------------------------------------------------

  /**
    `TopologicalSort::visit`: an id already seen or not defined in `utils` is
    ignored; otherwise its dependencies are visited first and only then is the
    id marked seen and appended to the order.
  */
  function Visit(utils: map<string, Rule>, id: string, st: Sorter, ghost rank: map<string, nat>): (r: Sorter)
    requires Ranked(utils, rank)
    ensures st.order <= r.order && st.seen <= r.seen
    ensures id in utils ==> id in r.seen
    ensures forall x :: x in r.seen && x !in st.seen ==> id in utils && x in utils && rank[x] <= rank[id]
    decreases Height(utils, rank, id), 1
  {
    if id in st.seen then st
    else if id !in utils then st
    else
      var after := VisitDependentRuleIds(utils, utils[id], st, rank, rank[id]);
      Sorter(after.order + [id], after.seen + {id})
  }

  /**
    `visit_dependent_rule_ids`: visits the `matches` reference, then every
    sub-rule of `all`, then every sub-rule of `any`; a `not` sub-rule is not
    entered. `owner` is the rank of the rule id this rule belongs to.
  */
  function VisitDependentRuleIds(utils: map<string, Rule>, rule: Rule, st: Sorter, ghost rank: map<string, nat>, ghost owner: nat): (r: Sorter)
    requires Ranked(utils, rank)
    requires forall d :: d in Deps(rule) && d in utils ==> rank[d] < owner
    ensures st.order <= r.order && st.seen <= r.seen
    ensures forall d :: d in Deps(rule) && d in utils ==> d in r.seen
    ensures forall x :: x in r.seen && x !in st.seen ==> x in utils && rank[x] < owner
    decreases owner + 1, 0, rule
  {
    var afterMatches := if rule.matches.Some? then Visit(utils, rule.matches.value, st, rank) else st;
    var afterAll := if rule.all.Present? then VisitSubRules(utils, rule.all.rules, afterMatches, rank, owner) else afterMatches;
    var afterAny := if rule.any.Present? then VisitSubRules(utils, rule.any.rules, afterAll, rank, owner) else afterAll;
    afterAny
  }

  /** The `for sub in ...` loop of `visit_dependent_rule_ids`, over one list of sub-rules. */
  function VisitSubRules(utils: map<string, Rule>, rules: seq<Rule>, st: Sorter, ghost rank: map<string, nat>, ghost owner: nat): (r: Sorter)
    requires Ranked(utils, rank)
    requires forall d :: d in DepsOfList(rules) && d in utils ==> rank[d] < owner
    ensures st.order <= r.order && st.seen <= r.seen
    ensures forall d :: d in DepsOfList(rules) && d in utils ==> d in r.seen
    ensures forall x :: x in r.seen && x !in st.seen ==> x in utils && rank[x] < owner
    decreases owner + 1, 0, rules
  {
    if |rules| == 0 then st
    else VisitSubRules(utils, rules[1..], VisitDependentRuleIds(utils, rules[0], st, rank, owner), rank, owner)
  }

  /** The loop of `get_order`: visits every key in the map's iteration order `keys`. */
  function VisitKeys(utils: map<string, Rule>, keys: seq<string>, st: Sorter, ghost rank: map<string, nat>): (r: Sorter)
    requires Ranked(utils, rank)
    ensures st.order <= r.order && st.seen <= r.seen
    ensures forall k :: k in keys && k in utils ==> k in r.seen
    ensures forall x :: x in r.seen && x !in st.seen ==> x in utils
  {
    if |keys| == 0 then st
    else VisitKeys(utils, keys[1..], Visit(utils, keys[0], st, rank), rank)
  }

  /** `TopologicalSort::get_order`, for a map whose keys are iterated in the order `keys`. */
  function GetOrder(utils: map<string, Rule>, keys: seq<string>, ghost rank: map<string, nat>): (order: seq<string>)
    requires Ranked(utils, rank)
    // only rule ids are listed, and every key that is a rule id is
    ensures forall i :: 0 <= i < |order| ==> order[i] in utils
    ensures forall k :: k in keys && k in utils ==> k in order
  {
    VisitKeysWellFormed(utils, keys, EmptySorter, rank);
    VisitKeys(utils, keys, EmptySorter, rank).order
  }

  // ---------------------------------------------------------------------
  // What a sorter state promises
  // ---------------------------------------------------------------------

  /** No id occurs twice. */
  predicate NoDuplicates(xs: seq<string>)
  {
    forall i, j :: 0 <= i < j < |xs| ==> xs[i] != xs[j]
  }

  /** Every entry is a rule id, and every rule id it depends on occurs strictly before it. */
  ghost predicate DependenciesFirst(utils: map<string, Rule>, order: seq<string>)
  {
    forall j :: 0 <= j < |order| ==>
      order[j] in utils && forall d :: d in Deps(utils[order[j]]) && d in utils ==> d in order[..j]
  }

  /** The invariant of the sorter: a duplicate-free, dependency-respecting order whose entries are exactly `seen`. */
  ghost predicate WellFormed(utils: map<string, Rule>, st: Sorter)
  {
    && NoDuplicates(st.order)
    && (forall x :: x in st.order <==> x in st.seen)
    && DependenciesFirst(utils, st.order)
  }

  /** Appending an unseen rule id whose dependencies are all seen keeps the invariant. */
  lemma PushKeepsWellFormed(utils: map<string, Rule>, st: Sorter, id: string)
    requires WellFormed(utils, st)
    requires id in utils && id !in st.seen
    requires forall d :: d in Deps(utils[id]) && d in utils ==> d in st.seen
    ensures WellFormed(utils, Sorter(st.order + [id], st.seen + {id}))
  {
    var o := st.order + [id];
    forall j | 0 <= j < |o|
      ensures o[j] in utils && forall d :: d in Deps(utils[o[j]]) && d in utils ==> d in o[..j]
    {
      if j < |st.order| {
        assert o[..j] == st.order[..j];
      } else {
        assert o[..j] == st.order;
      }
    }
  }

  lemma {:induction false} VisitWellFormed(utils: map<string, Rule>, id: string, st: Sorter, rank: map<string, nat>)
    requires Ranked(utils, rank)
    requires WellFormed(utils, st)
    ensures WellFormed(utils, Visit(utils, id, st, rank))
    decreases Height(utils, rank, id), 1
  {
    if id !in st.seen && id in utils {
      var after := VisitDependentRuleIds(utils, utils[id], st, rank, rank[id]);
      VisitDependentRuleIdsWellFormed(utils, utils[id], st, rank, rank[id]);
      PushKeepsWellFormed(utils, after, id);
    }
  }

  lemma {:induction false} VisitDependentRuleIdsWellFormed(utils: map<string, Rule>, rule: Rule, st: Sorter, rank: map<string, nat>, owner: nat)
    requires Ranked(utils, rank)
    requires forall d :: d in Deps(rule) && d in utils ==> rank[d] < owner
    requires WellFormed(utils, st)
    ensures WellFormed(utils, VisitDependentRuleIds(utils, rule, st, rank, owner))
    decreases owner + 1, 0, rule
  {
    var afterMatches := if rule.matches.Some? then Visit(utils, rule.matches.value, st, rank) else st;
    if rule.matches.Some? {
      VisitWellFormed(utils, rule.matches.value, st, rank);
    }
    var afterAll := if rule.all.Present? then VisitSubRules(utils, rule.all.rules, afterMatches, rank, owner) else afterMatches;
    if rule.all.Present? {
      VisitSubRulesWellFormed(utils, rule.all.rules, afterMatches, rank, owner);
    }
    if rule.any.Present? {
      VisitSubRulesWellFormed(utils, rule.any.rules, afterAll, rank, owner);
    }
  }

  lemma {:induction false} VisitSubRulesWellFormed(utils: map<string, Rule>, rules: seq<Rule>, st: Sorter, rank: map<string, nat>, owner: nat)
    requires Ranked(utils, rank)
    requires forall d :: d in DepsOfList(rules) && d in utils ==> rank[d] < owner
    requires WellFormed(utils, st)
    ensures WellFormed(utils, VisitSubRules(utils, rules, st, rank, owner))
    decreases owner + 1, 0, rules
  {
    if |rules| > 0 {
      VisitDependentRuleIdsWellFormed(utils, rules[0], st, rank, owner);
      VisitSubRulesWellFormed(utils, rules[1..], VisitDependentRuleIds(utils, rules[0], st, rank, owner), rank, owner);
    }
  }

  lemma {:induction false} VisitKeysWellFormed(utils: map<string, Rule>, keys: seq<string>, st: Sorter, rank: map<string, nat>)
    requires Ranked(utils, rank)
    requires WellFormed(utils, st)
    ensures WellFormed(utils, VisitKeys(utils, keys, st, rank))
  {
    if |keys| > 0 {
      VisitWellFormed(utils, keys[0], st, rank);
      VisitKeysWellFormed(utils, keys[1..], Visit(utils, keys[0], st, rank), rank);
    }
  }

  // ---------------------------------------------------------------------
  // Properties of get_order
  // ---------------------------------------------------------------------

  /** On acyclic rules the order never lists an id twice. */
  lemma GetOrderNoDuplicates(utils: map<string, Rule>, keys: seq<string>, rank: map<string, nat>)
    requires Ranked(utils, rank)
    ensures NoDuplicates(GetOrder(utils, keys, rank))
  {
    VisitKeysWellFormed(utils, keys, EmptySorter, rank);
  }

  /**
    When `keys` enumerates the map, the order lists exactly the rule ids:
    every key appears, and referenced ids that are not keys never do.
  */
  lemma GetOrderIsKeySet(utils: map<string, Rule>, keys: seq<string>, rank: map<string, nat>)
    requires Ranked(utils, rank)
    requires forall k :: k in utils ==> k in keys
    ensures forall x :: x in GetOrder(utils, keys, rank) <==> x in utils
  {
    VisitKeysWellFormed(utils, keys, EmptySorter, rank);
  }

  /** Every dependency of an entry that is itself a rule id is emitted strictly before that entry. */
  lemma GetOrderDependenciesFirst(utils: map<string, Rule>, keys: seq<string>, rank: map<string, nat>)
    requires Ranked(utils, rank)
    ensures var order := GetOrder(utils, keys, rank);
      forall i, j :: 0 <= i < |order| && 0 <= j < |order| && order[j] in utils && order[i] in Deps(utils[order[j]]) ==> i < j
  {
    var order := GetOrder(utils, keys, rank);
    VisitKeysWellFormed(utils, keys, EmptySorter, rank);
    forall i, j | 0 <= i < |order| && 0 <= j < |order| && order[j] in utils && order[i] in Deps(utils[order[j]])
      ensures i < j
    {
      assert order[i] in order[..j];
      var i' :| 0 <= i' < j && order[..j][i'] == order[i];
      assert order[i'] == order[i];
    }
  }

  // ---------------------------------------------------------------------
  // `not` sub-rules take no part in the ordering
  // ---------------------------------------------------------------------

  /** The rule with every `not` sub-rule, at any depth, removed. */
  function ClearNot(r: Rule): (c: Rule)
    ensures Deps(c) == Deps(r)
    ensures c.not == None
  {
    Rule(r.matches, ClearNotSub(r.all), ClearNotSub(r.any), None)
  }

  function ClearNotSub(s: SubRules): (c: SubRules)
    ensures c.Present? == s.Present?
    ensures s.Present? ==> DepsOfList(c.rules) == DepsOfList(s.rules)
  {
    if s.Present? then Present(ClearNotList(s.rules)) else Absent
  }

  function ClearNotList(rs: seq<Rule>): (cs: seq<Rule>)
    ensures |cs| == |rs|
    ensures DepsOfList(cs) == DepsOfList(rs)
  {
    if |rs| == 0 then [] else [ClearNot(rs[0])] + ClearNotList(rs[1..])
  }

  /** Every rule of the map with its `not` sub-rules removed. */
  function ClearNotMap(utils: map<string, Rule>): (m: map<string, Rule>)
    ensures m.Keys == utils.Keys
    ensures forall k :: k in utils ==> m[k] == ClearNot(utils[k])
  {
    map k | k in utils :: ClearNot(utils[k])
  }

  lemma ClearNotMapRanked(utils: map<string, Rule>, rank: map<string, nat>)
    requires Ranked(utils, rank)
    ensures Ranked(ClearNotMap(utils), rank)
  {
  }

  lemma {:induction false} VisitIgnoresNot(utils: map<string, Rule>, id: string, st: Sorter, rank: map<string, nat>)
    requires Ranked(utils, rank) && Ranked(ClearNotMap(utils), rank)
    ensures Visit(utils, id, st, rank) == Visit(ClearNotMap(utils), id, st, rank)
    decreases Height(utils, rank, id), 1
  {
    if id !in st.seen && id in utils {
      VisitDependentRuleIdsIgnoresNot(utils, utils[id], st, rank, rank[id]);
    }
  }

  lemma {:induction false} VisitDependentRuleIdsIgnoresNot(utils: map<string, Rule>, rule: Rule, st: Sorter, rank: map<string, nat>, owner: nat)
    requires Ranked(utils, rank) && Ranked(ClearNotMap(utils), rank)
    requires forall d :: d in Deps(rule) && d in utils ==> rank[d] < owner
    ensures VisitDependentRuleIds(utils, rule, st, rank, owner)
      == VisitDependentRuleIds(ClearNotMap(utils), ClearNot(rule), st, rank, owner)
    decreases owner + 1, 0, rule
  {
    var afterMatches := if rule.matches.Some? then Visit(utils, rule.matches.value, st, rank) else st;
    if rule.matches.Some? {
      VisitIgnoresNot(utils, rule.matches.value, st, rank);
    }
    var afterAll := if rule.all.Present? then VisitSubRules(utils, rule.all.rules, afterMatches, rank, owner) else afterMatches;
    if rule.all.Present? {
      VisitSubRulesIgnoresNot(utils, rule.all.rules, afterMatches, rank, owner);
    }
    if rule.any.Present? {
      VisitSubRulesIgnoresNot(utils, rule.any.rules, afterAll, rank, owner);
    }
  }

  lemma {:induction false} VisitSubRulesIgnoresNot(utils: map<string, Rule>, rules: seq<Rule>, st: Sorter, rank: map<string, nat>, owner: nat)
    requires Ranked(utils, rank) && Ranked(ClearNotMap(utils), rank)
    requires forall d :: d in DepsOfList(rules) && d in utils ==> rank[d] < owner
    ensures VisitSubRules(utils, rules, st, rank, owner)
      == VisitSubRules(ClearNotMap(utils), ClearNotList(rules), st, rank, owner)
    decreases owner + 1, 0, rules
  {
    if |rules| > 0 {
      var cs := ClearNotList(rules);
      assert cs[0] == ClearNot(rules[0]) && cs[1..] == ClearNotList(rules[1..]);
      VisitDependentRuleIdsIgnoresNot(utils, rules[0], st, rank, owner);
      VisitSubRulesIgnoresNot(utils, rules[1..], VisitDependentRuleIds(utils, rules[0], st, rank, owner), rank, owner);
    }
  }

  lemma {:induction false} VisitKeysIgnoresNot(utils: map<string, Rule>, keys: seq<string>, st: Sorter, rank: map<string, nat>)
    requires Ranked(utils, rank) && Ranked(ClearNotMap(utils), rank)
    ensures VisitKeys(utils, keys, st, rank) == VisitKeys(ClearNotMap(utils), keys, st, rank)
  {
    if |keys| > 0 {
      VisitIgnoresNot(utils, keys[0], st, rank);
      VisitKeysIgnoresNot(utils, keys[1..], Visit(utils, keys[0], st, rank), rank);
    }
  }

  /** Whatever the `not` sub-rules hold, at any depth, the order is the same as without them. */
  lemma GetOrderIgnoresNot(utils: map<string, Rule>, keys: seq<string>, rank: map<string, nat>)
    requires Ranked(utils, rank)
    ensures Ranked(ClearNotMap(utils), rank)
    ensures GetOrder(utils, keys, rank) == GetOrder(ClearNotMap(utils), keys, rank)
  {
    ClearNotMapRanked(utils, rank);
    VisitKeysIgnoresNot(utils, keys, EmptySorter, rank);
  }

  // ---------------------------------------------------------------------
  // Worked examples
  // ---------------------------------------------------------------------

  /** A rule with only a `matches` reference. */
  function MatchesOnly(id: string): Rule
  {
    Rule(Some(id), Absent, Absent, None)
  }

  /** A rule with no composite part (a kind, pattern or regex rule). */
  const Atomic := Rule(None, Absent, Absent, None)

  /**
    The utilities of the module's own test: `accessor-name` matches
    `member-name`. Whichever key the map yields first, `member-name` is
    registered first.
  */
  lemma DependentUtilsOrder()
    ensures var utils := map["accessor-name" := MatchesOnly("member-name"), "member-name" := Atomic];
      var rank := map["accessor-name" := 1, "member-name" := 0];
      && Ranked(utils, rank)
      && GetOrder(utils, ["accessor-name", "member-name"], rank) == ["member-name", "accessor-name"]
      && GetOrder(utils, ["member-name", "accessor-name"], rank) == ["member-name", "accessor-name"]
  {
    var utils := map["accessor-name" := MatchesOnly("member-name"), "member-name" := Atomic];
    var rank := map["accessor-name" := 1, "member-name" := 0];
    assert Deps(MatchesOnly("member-name")) == {"member-name"};
    assert Deps(Atomic) == {};
    assert Ranked(utils, rank);
    var both := Sorter(["member-name", "accessor-name"], {"member-name", "accessor-name"});
    // member-name has no dependencies
    assert VisitDependentRuleIds(utils, Atomic, EmptySorter, rank, 0) == EmptySorter;
    var inner := Visit(utils, "member-name", EmptySorter, rank);
    assert inner == Sorter([] + ["member-name"], {} + {"member-name"});
    // accessor-name visits member-name first
    assert VisitDependentRuleIds(utils, MatchesOnly("member-name"), EmptySorter, rank, 1) == inner;
    assert Visit(utils, "accessor-name", EmptySorter, rank) == both;
    assert VisitDependentRuleIds(utils, MatchesOnly("member-name"), inner, rank, 1) == inner;
    assert Visit(utils, "accessor-name", inner, rank) == both;
    assert Visit(utils, "member-name", both, rank) == both;
    assert VisitKeys(utils, [], both, rank) == both;
    assert ["accessor-name", "member-name"][1..] == ["member-name"];
    assert ["member-name", "accessor-name"][1..] == ["accessor-name"];
    assert VisitKeys(utils, ["member-name"], both, rank) == both;
    assert VisitKeys(utils, ["accessor-name"], inner, rank) == both;
  }

  /** A reference that occurs only under `not` does not hold back the referring rule. */
  lemma NotReferenceImposesNoOrder()
    ensures var utils := map["a" := Rule(None, Absent, Absent, Some(MatchesOnly("b"))), "b" := Atomic];
      var rank := map["a" := 0, "b" := 0];
      && Ranked(utils, rank)
      && GetOrder(utils, ["a", "b"], rank) == ["a", "b"]
  {
    var utils := map["a" := Rule(None, Absent, Absent, Some(MatchesOnly("b"))), "b" := Atomic];
    var rank := map["a" := 0, "b" := 0];
    assert Deps(utils["a"]) == {};
    assert Deps(Atomic) == {};
    assert Ranked(utils, rank);
    assert VisitDependentRuleIds(utils, utils["a"], EmptySorter, rank, 0) == EmptySorter;
    var first := Visit(utils, "a", EmptySorter, rank);
    assert first == Sorter([] + ["a"], {} + {"a"});
    assert VisitDependentRuleIds(utils, Atomic, first, rank, 0) == first;
    var second := Visit(utils, "b", first, rank);
    assert second == Sorter(["a"] + ["b"], {"a"} + {"b"});
    assert ["a", "b"][1..] == ["b"];
    assert VisitKeys(utils, [], second, rank) == second;
    assert VisitKeys(utils, ["b"], first, rank) == second;
  }
}
