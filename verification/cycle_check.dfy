/**
  Reference cycles in utility rules.

  As written, `visit` marks an id seen only after its dependencies were
  visited, so a rule that reaches itself through `matches` re-enters `visit`
  with the same state until the call stack is exhausted. This module holds

  - `VisitWithin`: the walk exactly as written, with an explicit call-depth
    budget standing in for the finite stack (`None` = stack exhausted), and
    the proof that a self-referencing rule exhausts every budget;
  - `VisitChecked`: the corrected walk, which also tracks the ids whose
    dependencies are being visited and reports a cycle instead of recursing.
    It terminates on every input and, on acyclic rules, computes exactly the
    order of the walk as written.
*/
module CycleCheck {
  import opened Wrappers
  import opened RuleDeps

  // ---------------------------------------------------------------------
  // The walk as written, under a call-depth budget
  // ---------------------------------------------------------------------

  /** `visit` as written; every call consumes one unit of `depth`, and `None` means the stack ran out. */
  function VisitWithin(depth: nat, utils: map<string, Rule>, id: string, st: Sorter): (r: Option<Sorter>)
    // a walk that finishes only extends the sorter, and leaves a rule id seen
    ensures r.Some? ==> st.order <= r.value.order && st.seen <= r.value.seen
    ensures r.Some? && id in utils ==> id in r.value.seen
    ensures depth == 0 ==> r.None?
    decreases depth, 0
  {
    if depth == 0 then None
    else if id in st.seen then Some(st)
    else if id !in utils then Some(st)
    else
      match VisitDependentRuleIdsWithin(depth - 1, utils, utils[id], st)
      case None => None
      case Some(after) => Some(Sorter(after.order + [id], after.seen + {id}))
  }

  function VisitDependentRuleIdsWithin(depth: nat, utils: map<string, Rule>, rule: Rule, st: Sorter): (r: Option<Sorter>)
    ensures r.Some? ==> st.order <= r.value.order && st.seen <= r.value.seen
    ensures r.Some? ==> forall d :: d in Deps(rule) && d in utils ==> d in r.value.seen
    decreases depth, 1, rule
  {
    var afterMatches := if rule.matches.Some? then VisitWithin(depth, utils, rule.matches.value, st) else Some(st);
    match afterMatches
    case None => None
    case Some(s1) =>
      var afterAll := if rule.all.Present? then VisitSubRulesWithin(depth, utils, rule.all.rules, s1) else Some(s1);
      match afterAll
      case None => None
      case Some(s2) =>
        if rule.any.Present? then VisitSubRulesWithin(depth, utils, rule.any.rules, s2) else Some(s2)
  }

  function VisitSubRulesWithin(depth: nat, utils: map<string, Rule>, rules: seq<Rule>, st: Sorter): (r: Option<Sorter>)
    ensures r.Some? ==> st.order <= r.value.order && st.seen <= r.value.seen
    ensures r.Some? ==> forall d :: d in DepsOfList(rules) && d in utils ==> d in r.value.seen
    decreases depth, 1, rules
  {
    if |rules| == 0 then Some(st)
    else
      match VisitDependentRuleIdsWithin(depth, utils, rules[0], st)
      case None => None
      case Some(s) => VisitSubRulesWithin(depth, utils, rules[1..], s)
  }

  /** With a stack deeper than the longest reference chain, the budgeted walk finishes with the result of `Visit`. */
  lemma {:induction false} VisitWithinAgrees(depth: nat, utils: map<string, Rule>, id: string, st: Sorter, rank: map<string, nat>)
    requires Ranked(utils, rank)
    requires depth > Height(utils, rank, id)
    ensures VisitWithin(depth, utils, id, st) == Some(Visit(utils, id, st, rank))
    decreases Height(utils, rank, id), 1
  {
    if id !in st.seen && id in utils {
      VisitDependentRuleIdsWithinAgrees(depth - 1, utils, utils[id], st, rank, rank[id]);
    }
  }

  lemma {:induction false} VisitDependentRuleIdsWithinAgrees(depth: nat, utils: map<string, Rule>, rule: Rule, st: Sorter, rank: map<string, nat>, owner: nat)
    requires Ranked(utils, rank)
    requires forall d :: d in Deps(rule) && d in utils ==> rank[d] < owner
    requires depth > owner
    ensures VisitDependentRuleIdsWithin(depth, utils, rule, st) == Some(VisitDependentRuleIds(utils, rule, st, rank, owner))
    decreases owner + 1, 0, rule
  {
    var afterMatches := if rule.matches.Some? then Visit(utils, rule.matches.value, st, rank) else st;
    if rule.matches.Some? {
      VisitWithinAgrees(depth, utils, rule.matches.value, st, rank);
    }
    var afterAll := if rule.all.Present? then VisitSubRules(utils, rule.all.rules, afterMatches, rank, owner) else afterMatches;
    if rule.all.Present? {
      VisitSubRulesWithinAgrees(depth, utils, rule.all.rules, afterMatches, rank, owner);
    }
    if rule.any.Present? {
      VisitSubRulesWithinAgrees(depth, utils, rule.any.rules, afterAll, rank, owner);
    }
  }

  lemma {:induction false} VisitSubRulesWithinAgrees(depth: nat, utils: map<string, Rule>, rules: seq<Rule>, st: Sorter, rank: map<string, nat>, owner: nat)
    requires Ranked(utils, rank)
    requires forall d :: d in DepsOfList(rules) && d in utils ==> rank[d] < owner
    requires depth > owner
    ensures VisitSubRulesWithin(depth, utils, rules, st) == Some(VisitSubRules(utils, rules, st, rank, owner))
    decreases owner + 1, 0, rules
  {
    if |rules| > 0 {
      VisitDependentRuleIdsWithinAgrees(depth, utils, rules[0], st, rank, owner);
      VisitSubRulesWithinAgrees(depth, utils, rules[1..], VisitDependentRuleIds(utils, rules[0], st, rank, owner), rank, owner);
    }
  }

  /** A single rule that refers to itself through `matches`. */
  const SelfCycle: map<string, Rule> := map["a" := MatchesOnly("a")]

  /** On a self-referencing rule the walk as written re-enters itself with the same state and exhausts every stack. */
  lemma {:induction false} SelfCycleExhaustsEveryDepth(depth: nat, st: Sorter)
    requires "a" !in st.seen
    ensures VisitWithin(depth, SelfCycle, "a", st) == None
  {
    if depth > 0 {
      SelfCycleExhaustsEveryDepth(depth - 1, st);
      assert VisitDependentRuleIdsWithin(depth - 1, SelfCycle, MatchesOnly("a"), st) == None;
    }
  }

  /** No ranking exists for a self-referencing rule, so the acyclicity premise of `Visit` excludes it. */
  lemma SelfCycleUnranked(rank: map<string, nat>)
    ensures !Ranked(SelfCycle, rank)
  {
    assert "a" in Deps(SelfCycle["a"]);
  }

  // ---------------------------------------------------------------------
  // The corrected walk
  // ---------------------------------------------------------------------

  /**
    The corrected `visit`: `stack` holds the ids whose dependencies are being
    visited; meeting one of them again is reported as a cycle naming that id.
  */
  function VisitChecked(utils: map<string, Rule>, id: string, st: Sorter, stack: set<string>): (r: Result<Sorter, string>)
    requires stack <= utils.Keys
    ensures r.Success? ==> st.order <= r.value.order && st.seen <= r.value.seen
    ensures r.Success? && id in utils ==> id in r.value.seen
    ensures r.Success? ==> forall x :: x in r.value.seen && x !in st.seen ==> x !in stack
    ensures r.Failure? ==> r.error in utils
    decreases utils.Keys - stack, 0
  {
    if id in st.seen then Success(st)
    else if id !in utils then Success(st)
    else if id in stack then Failure(id)
    else
      match VisitDependentRuleIdsChecked(utils, utils[id], st, stack + {id})
      case Failure(e) => Failure(e)
      case Success(after) => Success(Sorter(after.order + [id], after.seen + {id}))
  }

  function VisitDependentRuleIdsChecked(utils: map<string, Rule>, rule: Rule, st: Sorter, stack: set<string>): (r: Result<Sorter, string>)
    requires stack <= utils.Keys
    ensures r.Success? ==> st.order <= r.value.order && st.seen <= r.value.seen
    ensures r.Success? ==> forall d :: d in Deps(rule) && d in utils ==> d in r.value.seen
    ensures r.Success? ==> forall x :: x in r.value.seen && x !in st.seen ==> x !in stack
    ensures r.Failure? ==> r.error in utils
    decreases utils.Keys - stack, 1, rule
  {
    var afterMatches := if rule.matches.Some? then VisitChecked(utils, rule.matches.value, st, stack) else Success(st);
    match afterMatches
    case Failure(e) => Failure(e)
    case Success(s1) =>
      var afterAll := if rule.all.Present? then VisitSubRulesChecked(utils, rule.all.rules, s1, stack) else Success(s1);
      match afterAll
      case Failure(e) => Failure(e)
      case Success(s2) =>
        if rule.any.Present? then VisitSubRulesChecked(utils, rule.any.rules, s2, stack) else Success(s2)
  }

  function VisitSubRulesChecked(utils: map<string, Rule>, rules: seq<Rule>, st: Sorter, stack: set<string>): (r: Result<Sorter, string>)
    requires stack <= utils.Keys
    ensures r.Success? ==> st.order <= r.value.order && st.seen <= r.value.seen
    ensures r.Success? ==> forall d :: d in DepsOfList(rules) && d in utils ==> d in r.value.seen
    ensures r.Success? ==> forall x :: x in r.value.seen && x !in st.seen ==> x !in stack
    ensures r.Failure? ==> r.error in utils
    decreases utils.Keys - stack, 1, rules
  {
    if |rules| == 0 then Success(st)
    else
      match VisitDependentRuleIdsChecked(utils, rules[0], st, stack)
      case Failure(e) => Failure(e)
      case Success(s) => VisitSubRulesChecked(utils, rules[1..], s, stack)
  }

  function VisitKeysChecked(utils: map<string, Rule>, keys: seq<string>, st: Sorter): (r: Result<Sorter, string>)
    ensures r.Success? ==> st.order <= r.value.order && st.seen <= r.value.seen
    ensures r.Success? ==> forall k :: k in keys && k in utils ==> k in r.value.seen
    ensures r.Failure? ==> r.error in utils
  {
    if |keys| == 0 then Success(st)
    else
      match VisitChecked(utils, keys[0], st, {})
      case Failure(e) => Failure(e)
      case Success(s) => VisitKeysChecked(utils, keys[1..], s)
  }

  /** The corrected `get_order`: the dependency order, or the id at which a reference cycle closed. */
  function GetOrderChecked(utils: map<string, Rule>, keys: seq<string>): (r: Result<seq<string>, string>)
    // an order lists only rule ids, and every key that is a rule id
    ensures r.Success? ==> forall i :: 0 <= i < |r.value| ==> r.value[i] in utils
    ensures r.Success? ==> forall k :: k in keys && k in utils ==> k in r.value
    // a cycle is reported at a rule id
    ensures r.Failure? ==> r.error in utils
  {
    match VisitKeysChecked(utils, keys, EmptySorter)
    case Failure(e) => Failure(e)
    case Success(s) =>
      VisitKeysCheckedWellFormed(utils, keys, EmptySorter);
      Success(s.order)
  }

  lemma {:induction false} VisitCheckedAgrees(utils: map<string, Rule>, id: string, st: Sorter, stack: set<string>, rank: map<string, nat>)
    requires Ranked(utils, rank)
    requires stack <= utils.Keys
    requires id in utils ==> forall s :: s in stack ==> rank[s] > rank[id]
    ensures VisitChecked(utils, id, st, stack) == Success(Visit(utils, id, st, rank))
    decreases Height(utils, rank, id), 1
  {
    if id !in st.seen && id in utils {
      VisitDependentRuleIdsCheckedAgrees(utils, utils[id], st, stack + {id}, rank, rank[id]);
    }
  }

  lemma {:induction false} VisitDependentRuleIdsCheckedAgrees(utils: map<string, Rule>, rule: Rule, st: Sorter, stack: set<string>, rank: map<string, nat>, owner: nat)
    requires Ranked(utils, rank)
    requires forall d :: d in Deps(rule) && d in utils ==> rank[d] < owner
    requires stack <= utils.Keys
    requires forall s :: s in stack ==> rank[s] >= owner
    ensures VisitDependentRuleIdsChecked(utils, rule, st, stack) == Success(VisitDependentRuleIds(utils, rule, st, rank, owner))
    decreases owner + 1, 0, rule
  {
    var afterMatches := if rule.matches.Some? then Visit(utils, rule.matches.value, st, rank) else st;
    if rule.matches.Some? {
      VisitCheckedAgrees(utils, rule.matches.value, st, stack, rank);
    }
    var afterAll := if rule.all.Present? then VisitSubRules(utils, rule.all.rules, afterMatches, rank, owner) else afterMatches;
    if rule.all.Present? {
      VisitSubRulesCheckedAgrees(utils, rule.all.rules, afterMatches, stack, rank, owner);
    }
    if rule.any.Present? {
      VisitSubRulesCheckedAgrees(utils, rule.any.rules, afterAll, stack, rank, owner);
    }
  }

  lemma {:induction false} VisitSubRulesCheckedAgrees(utils: map<string, Rule>, rules: seq<Rule>, st: Sorter, stack: set<string>, rank: map<string, nat>, owner: nat)
    requires Ranked(utils, rank)
    requires forall d :: d in DepsOfList(rules) && d in utils ==> rank[d] < owner
    requires stack <= utils.Keys
    requires forall s :: s in stack ==> rank[s] >= owner
    ensures VisitSubRulesChecked(utils, rules, st, stack) == Success(VisitSubRules(utils, rules, st, rank, owner))
    decreases owner + 1, 0, rules
  {
    if |rules| > 0 {
      VisitDependentRuleIdsCheckedAgrees(utils, rules[0], st, stack, rank, owner);
      VisitSubRulesCheckedAgrees(utils, rules[1..], VisitDependentRuleIds(utils, rules[0], st, rank, owner), stack, rank, owner);
    }
  }

  lemma {:induction false} VisitKeysCheckedAgrees(utils: map<string, Rule>, keys: seq<string>, st: Sorter, rank: map<string, nat>)
    requires Ranked(utils, rank)
    ensures VisitKeysChecked(utils, keys, st) == Success(VisitKeys(utils, keys, st, rank))
  {
    if |keys| > 0 {
      VisitCheckedAgrees(utils, keys[0], st, {}, rank);
      VisitKeysCheckedAgrees(utils, keys[1..], Visit(utils, keys[0], st, rank), rank);
    }
  }

  /** On acyclic rules the corrected walk succeeds with exactly the order of the walk as written. */
  lemma GetOrderCheckedAgrees(utils: map<string, Rule>, keys: seq<string>, rank: map<string, nat>)
    requires Ranked(utils, rank)
    ensures GetOrderChecked(utils, keys) == Success(GetOrder(utils, keys, rank))
  {
    VisitKeysCheckedAgrees(utils, keys, EmptySorter, rank);
  }

  /** The corrected walk reports a cycle only for rules that admit no ranking, that is, whose references are cyclic. */
  lemma GetOrderCheckedFailsOnlyOnCycles(utils: map<string, Rule>, keys: seq<string>)
    requires GetOrderChecked(utils, keys).Failure?
    ensures forall rank :: !Ranked(utils, rank)
  {
    forall rank | Ranked(utils, rank)
      ensures false
    {
      GetOrderCheckedAgrees(utils, keys, rank);
    }
  }

  /** The self-referencing rule is reported as a cycle at its own id. */
  lemma SelfCycleRejected()
    ensures GetOrderChecked(SelfCycle, ["a"]) == Failure("a")
  {
    var utils := SelfCycle;
    assert VisitChecked(utils, "a", EmptySorter, {"a"}) == Failure("a");
    assert VisitDependentRuleIdsChecked(utils, MatchesOnly("a"), EmptySorter, {"a"}) == Failure("a");
    assert VisitChecked(utils, "a", EmptySorter, {}) == Failure("a");
  }

  // ---------------------------------------------------------------------
  // The corrected walk rejects every cycle
  // ---------------------------------------------------------------------

  /** The checked walk keeps the sorter invariant on every input, with no acyclicity premise. */
  lemma {:induction false} VisitCheckedWellFormed(utils: map<string, Rule>, id: string, st: Sorter, stack: set<string>)
    requires stack <= utils.Keys
    requires WellFormed(utils, st)
    requires VisitChecked(utils, id, st, stack).Success?
    ensures WellFormed(utils, VisitChecked(utils, id, st, stack).value)
    decreases utils.Keys - stack, 0
  {
    if id !in st.seen && id in utils && id !in stack {
      var after := VisitDependentRuleIdsChecked(utils, utils[id], st, stack + {id}).value;
      VisitDependentRuleIdsCheckedWellFormed(utils, utils[id], st, stack + {id});
      PushKeepsWellFormed(utils, after, id);
    }
  }

  lemma {:induction false} VisitDependentRuleIdsCheckedWellFormed(utils: map<string, Rule>, rule: Rule, st: Sorter, stack: set<string>)
    requires stack <= utils.Keys
    requires WellFormed(utils, st)
    requires VisitDependentRuleIdsChecked(utils, rule, st, stack).Success?
    ensures WellFormed(utils, VisitDependentRuleIdsChecked(utils, rule, st, stack).value)
    decreases utils.Keys - stack, 1, rule
  {
    var afterMatches := if rule.matches.Some? then VisitChecked(utils, rule.matches.value, st, stack) else Success(st);
    if rule.matches.Some? {
      VisitCheckedWellFormed(utils, rule.matches.value, st, stack);
    }
    var s1 := afterMatches.value;
    var afterAll := if rule.all.Present? then VisitSubRulesChecked(utils, rule.all.rules, s1, stack) else Success(s1);
    if rule.all.Present? {
      VisitSubRulesCheckedWellFormed(utils, rule.all.rules, s1, stack);
    }
    if rule.any.Present? {
      VisitSubRulesCheckedWellFormed(utils, rule.any.rules, afterAll.value, stack);
    }
  }

  lemma {:induction false} VisitSubRulesCheckedWellFormed(utils: map<string, Rule>, rules: seq<Rule>, st: Sorter, stack: set<string>)
    requires stack <= utils.Keys
    requires WellFormed(utils, st)
    requires VisitSubRulesChecked(utils, rules, st, stack).Success?
    ensures WellFormed(utils, VisitSubRulesChecked(utils, rules, st, stack).value)
    decreases utils.Keys - stack, 1, rules
  {
    if |rules| > 0 {
      VisitDependentRuleIdsCheckedWellFormed(utils, rules[0], st, stack);
      VisitSubRulesCheckedWellFormed(utils, rules[1..], VisitDependentRuleIdsChecked(utils, rules[0], st, stack).value, stack);
    }
  }

  lemma {:induction false} VisitKeysCheckedWellFormed(utils: map<string, Rule>, keys: seq<string>, st: Sorter)
    requires WellFormed(utils, st)
    requires VisitKeysChecked(utils, keys, st).Success?
    ensures WellFormed(utils, VisitKeysChecked(utils, keys, st).value)
  {
    if |keys| > 0 {
      VisitCheckedWellFormed(utils, keys[0], st, {});
      VisitKeysCheckedWellFormed(utils, keys[1..], VisitChecked(utils, keys[0], st, {}).value);
    }
  }

  /** A successful corrected order lists no id twice, lists only rule ids, and lists every rule id a dependency of it refers to first. */
  lemma GetOrderCheckedWellFormed(utils: map<string, Rule>, keys: seq<string>)
    requires GetOrderChecked(utils, keys).Success?
    ensures NoDuplicates(GetOrderChecked(utils, keys).value)
    ensures DependenciesFirst(utils, GetOrderChecked(utils, keys).value)
    ensures forall k :: k in keys && k in utils ==> k in GetOrderChecked(utils, keys).value
  {
    VisitKeysCheckedWellFormed(utils, keys, EmptySorter);
  }

  /** The first position of `x` in `xs`. */
  function Position(xs: seq<string>, x: string): (i: nat)
    requires x in xs
    ensures i < |xs| && xs[i] == x
    ensures forall j :: 0 <= j < i ==> xs[j] != x
  {
    if xs[0] == x then 0
    else
      assert x in xs[1..];
      var i := Position(xs[1..], x);
      assert forall j :: 1 <= j <= i ==> xs[j] == xs[1..][j - 1];
      1 + i
  }

  /** An order that lists every rule id, each after its dependencies, yields a ranking: the position of each id. */
  lemma RankFromOrder(utils: map<string, Rule>, order: seq<string>)
    requires DependenciesFirst(utils, order)
    requires forall k :: k in utils ==> k in order
    ensures Ranked(utils, map k | k in utils :: Position(order, k))
  {
    var rank := map k | k in utils :: Position(order, k);
    forall k, d | k in utils && d in Deps(utils[k]) && d in utils
      ensures rank[d] < rank[k]
    {
      var j := Position(order, k);
      assert d in order[..j];
      DependencyBefore(order, j, d);
    }
  }

  /** An id listed before position `j` is first found before `j`. */
  lemma DependencyBefore(order: seq<string>, j: nat, d: string)
    requires j <= |order| && d in order[..j]
    ensures d in order && Position(order, d) < j
  {
    var i :| 0 <= i < j && order[..j][i] == d;
    assert order[i] == d;
  }

  /**
    When the keys enumerate the map, the corrected walk fails exactly on
    utilities whose references are cyclic, that is, which admit no ranking.
  */
  lemma GetOrderCheckedRejectsCycles(utils: map<string, Rule>, keys: seq<string>)
    requires forall k :: k in utils ==> k in keys
    ensures GetOrderChecked(utils, keys).Failure? <==> forall rank :: !Ranked(utils, rank)
  {
    if GetOrderChecked(utils, keys).Failure? {
      GetOrderCheckedFailsOnlyOnCycles(utils, keys);
    } else {
      GetOrderCheckedWellFormed(utils, keys);
      RankFromOrder(utils, GetOrderChecked(utils, keys).value);
    }
  }

  /** Two rules that refer to each other through `matches`. */
  const MutualCycle: map<string, Rule> := map["a" := MatchesOnly("b"), "b" := MatchesOnly("a")]

  lemma MutualCycleUnranked(rank: map<string, nat>)
    ensures !Ranked(MutualCycle, rank)
  {
    assert "b" in Deps(MutualCycle["a"]) && "a" in Deps(MutualCycle["b"]);
  }

  /** The corrected walk rejects the mutual cycle in either key order. */
  lemma MutualCycleRejected()
    ensures GetOrderChecked(MutualCycle, ["a", "b"]).Failure?
    ensures GetOrderChecked(MutualCycle, ["b", "a"]).Failure?
  {
    forall rank: map<string, nat>
      ensures !Ranked(MutualCycle, rank)
    {
      MutualCycleUnranked(rank);
    }
    GetOrderCheckedRejectsCycles(MutualCycle, ["a", "b"]);
    GetOrderCheckedRejectsCycles(MutualCycle, ["b", "a"]);
  }
}
