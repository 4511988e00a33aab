/**
  Registration of utility rules: `register_local_utils` compiles and inserts
  the local utilities in dependency order, `parse_global_utils` does the same
  for a list of global rule cores in list order. Compiling a rule and
  inserting it into a registry are foreign steps, passed in as functions;
  each may fail, and the first failure ends the registration.
*/
module UtilRegistration {
  import opened Wrappers
  import opened RuleDeps
  import opened CycleCheck
  import opened Seqs

  /**
    The trace of a fold that stops at its first failing step: the items
    whose step completed, in order, and the final outcome.
  */
  datatype Run<Env, X, E> = Run(done: seq<X>, outcome: Result<Env, E>)

  /** Applies `step` to each item in turn, threading the environment, and stops at the first failure. */
  function Fold<Env, X, E>(xs: seq<X>, env: Env, step: (Env, X) -> Result<Env, E>): (r: Run<Env, X, E>)
    ensures r.done <= xs
    ensures r.outcome.Success? <==> r.done == xs
    ensures xs == [] ==> r == Run([], Success(env))
  {
    if |xs| == 0 then Run([], Success(env))
    else
      match step(env, xs[0])
      case Failure(e) => Run([], Failure(e))
      case Success(next) =>
        var rest := Fold(xs[1..], next, step);
        Run([xs[0]] + rest.done, rest.outcome)
  }

  /**
    One more loop iteration after a run: nothing happens once the run has
    failed; otherwise the step on `x` either fails, leaving the items done so
    far, or succeeds with the next environment and `x` done.
  */
  function Extend<Env, X, E>(run: Run<Env, X, E>, x: X, step: (Env, X) -> Result<Env, E>): Run<Env, X, E>
  {
    if run.outcome.Failure? then run
    else
      match step(run.outcome.value, x)
      case Failure(e) => Run(run.done, Failure(e))
      case Success(next) => Run(run.done + [x], Success(next))
  }

  /**
    `Fold` is the left-to-right loop: folding `xs + [x]` is folding `xs` and
    then running one more iteration on `x` with the environment built so far.
    With the empty case of `Fold`'s contract this determines every run.
  */
  lemma {:induction false} FoldSnoc<Env, X, E>(xs: seq<X>, x: X, env: Env, step: (Env, X) -> Result<Env, E>)
    ensures Fold(xs + [x], env, step) == Extend(Fold(xs, env, step), x, step)
  {
    if |xs| == 0 {
      assert xs + [x] == [x];
      assert [x][1..] == [];
    } else {
      assert (xs + [x])[0] == xs[0] && (xs + [x])[1..] == xs[1..] + [x];
      match step(env, xs[0])
      case Failure(e) =>
      case Success(next) =>
        FoldSnoc(xs[1..], x, next, step);
        var rest := Fold(xs[1..], next, step);
        assert [xs[0]] + (rest.done + [x]) == ([xs[0]] + rest.done) + [x];
    }
  }

  /**
    A failed fold ran every step before the failing item successfully, and
    the step on that item produced exactly the reported error.
  */
  lemma {:induction false} FoldFailsAtFirstFailure<Env, X, E>(xs: seq<X>, env: Env, step: (Env, X) -> Result<Env, E>)
    requires Fold(xs, env, step).outcome.Failure?
    ensures var r := Fold(xs, env, step);
      var k := |r.done|;
      && k < |xs|
      && Fold(xs[..k], env, step) == Run(xs[..k], Fold(xs[..k], env, step).outcome)
      && Fold(xs[..k], env, step).outcome.Success?
      && step(Fold(xs[..k], env, step).outcome.value, xs[k]) == Failure(r.outcome.error)
  {
    var r := Fold(xs, env, step);
    var k := |r.done|;
    match step(env, xs[0])
    case Failure(e) =>
      assert xs[..0] == [];
    case Success(next) =>
      FoldFailsAtFirstFailure(xs[1..], next, step);
      assert xs[..k][0] == xs[0] && xs[..k][1..] == xs[1..][..k - 1];
  }

  /** Folding a prefix no longer than the items done succeeds. */
  lemma {:induction false} FoldPrefixSucceeds<Env, X, E>(xs: seq<X>, env: Env, step: (Env, X) -> Result<Env, E>, j: nat)
    requires j <= |Fold(xs, env, step).done|
    ensures Fold(xs[..j], env, step).outcome.Success?
  {
    if j > 0 {
      match step(env, xs[0])
      case Failure(e) =>
      case Success(next) =>
        FoldPrefixSucceeds(xs[1..], next, step, j - 1);
        assert xs[..j][0] == xs[0] && xs[..j][1..] == xs[1..][..j - 1];
    }
  }

  /**
    Every item done was stepped from the environment the fold had built
    over the items before it, and that step gave the environment of the
    next prefix.
  */
  lemma FoldStepAt<Env, X, E>(xs: seq<X>, env: Env, step: (Env, X) -> Result<Env, E>, i: nat)
    requires i < |Fold(xs, env, step).done|
    ensures Fold(xs[..i], env, step).outcome.Success?
    ensures Fold(xs[..i + 1], env, step).outcome.Success?
    ensures step(Fold(xs[..i], env, step).outcome.value, xs[i]) == Fold(xs[..i + 1], env, step).outcome
  {
    var p, q := xs[..i], xs[..i + 1];
    FoldPrefixSucceeds(xs, env, step, i);
    FoldPrefixSucceeds(xs, env, step, i + 1);
    PrefixSnoc(xs, i);
    StepAfterPrefix(p, xs[i], q, env, step);
  }

  /** When folding `p` and `p + [x]` both succeed, the step on `x` went from the first environment to the second. */
  lemma StepAfterPrefix<Env, X, E>(p: seq<X>, x: X, q: seq<X>, env: Env, step: (Env, X) -> Result<Env, E>)
    requires q == p + [x]
    requires Fold(p, env, step).outcome.Success?
    requires Fold(q, env, step).outcome.Success?
    ensures step(Fold(p, env, step).outcome.value, x) == Fold(q, env, step).outcome
  {
    FoldSnoc(p, x, env, step);
  }

  /** Once a step fails, nothing after the failing item is looked at: any continuation gives the same run. */
  lemma {:induction false} FoldIgnoresRestAfterFailure<Env, X, E>(xs: seq<X>, ys: seq<X>, env: Env, step: (Env, X) -> Result<Env, E>)
    requires Fold(xs, env, step).outcome.Failure?
    ensures var k := |Fold(xs, env, step).done|;
      k < |xs| && Fold(xs[..k + 1] + ys, env, step) == Fold(xs, env, step)
  {
    var k := |Fold(xs, env, step).done|;
    var zs := xs[..k + 1] + ys;
    assert zs[0] == xs[0];
    match step(env, xs[0])
    case Failure(e) =>
    case Success(next) =>
      FoldIgnoresRestAfterFailure(xs[1..], ys, next, step);
      assert zs[1..] == xs[1..][..k] + ys;
  }

  // ---------------------------------------------------------------------
  // register_local_utils
  // ---------------------------------------------------------------------

  /**
    Why registering utilities failed: the rule did not deserialize, the
    registry refused the insertion, or (corrected behaviour) a reference
    cycle was found while ordering.
  */
  datatype UtilError<CE, IE> = Deserialize(cause: CE) | MatchesReference(reason: IE) | CyclicRule(id: string)

  /** One iteration of `register_local_utils`: deserialize the rule against the registry so far, then insert it under its id. */
  function LocalStep<Env, C, CE, IE>(
    compile: (Env, Rule) -> Result<C, CE>, insert: (Env, string, C) -> Result<Env, IE>,
    env: Env, entry: (string, Rule)): (r: Result<Env, UtilError<CE, IE>>)
    ensures compile(env, entry.1).Failure? ==> r == Failure(Deserialize(compile(env, entry.1).error))
    ensures compile(env, entry.1).Success? ==>
      var inserted := insert(env, entry.0, compile(env, entry.1).value);
      && (inserted.Failure? ==> r == Failure(MatchesReference(inserted.error)))
      && (inserted.Success? ==> r == Success(inserted.value))
  {
    match compile(env, entry.1)
    case Failure(e) => Failure(Deserialize(e))
    case Success(c) =>
      match insert(env, entry.0, c)
      case Failure(e) => Failure(MatchesReference(e))
      case Success(next) => Success(next)
  }

  /** `LocalStep` as the step function of a fold. */
  function LocalSteps<Env, C, CE, IE>(compile: (Env, Rule) -> Result<C, CE>, insert: (Env, string, C) -> Result<Env, IE>)
    : (Env, (string, Rule)) -> Result<Env, UtilError<CE, IE>>
  {
    (env: Env, entry: (string, Rule)) => LocalStep(compile, insert, env, entry)
  }

  /** Pairs each id of the order with its rule from the map, the `expect("must exist")` lookup. */
  function Entries(utils: map<string, Rule>, order: seq<string>): (entries: seq<(string, Rule)>)
    requires forall id :: id in order ==> id in utils
    ensures Firsts(entries) == order
    ensures forall i :: 0 <= i < |entries| ==> entries[i].1 == utils[entries[i].0]
  {
    seq(|order|, i requires 0 <= i < |order| => (order[i], utils[order[i]]))
  }

  /**
    The registration loop of `register_local_utils` over a computed order:
    each rule in turn is deserialized and inserted, and the first failure
    ends the loop.
  */
  function RegisterInOrder<Env, C, CE, IE>(
    utils: map<string, Rule>, order: seq<string>, env: Env,
    compile: (Env, Rule) -> Result<C, CE>, insert: (Env, string, C) -> Result<Env, IE>)
    : (r: Run<Env, (string, Rule), UtilError<CE, IE>>)
    requires forall id :: id in order ==> id in utils
    ensures order == [] ==> r == Run([], Success(env))
    ensures Firsts(r.done) <= order
    ensures forall i :: 0 <= i < |r.done| ==> r.done[i].1 == utils[r.done[i].0]
    ensures r.outcome.Success? <==> Firsts(r.done) == order
  {
    var entries := Entries(utils, order);
    var r := Fold(entries, env, LocalSteps(compile, insert));
    assert Firsts(r.done) == Firsts(entries)[..|r.done|];
    r
  }

  /**
    The loop registers `order + [id]` by registering `order` and then, unless
    that failed, deserializing the rule of `id` against the registry built so
    far and inserting it: a deserialize or insert failure becomes the result
    with the items before `id` done, and success adds `id` to the registry.
  */
  lemma RegisterInOrderSnoc<Env, C, CE, IE>(
    utils: map<string, Rule>, order: seq<string>, id: string, env: Env,
    compile: (Env, Rule) -> Result<C, CE>, insert: (Env, string, C) -> Result<Env, IE>)
    requires forall x :: x in order ==> x in utils
    requires id in utils
    ensures var prev := RegisterInOrder(utils, order, env, compile, insert);
      var r := RegisterInOrder(utils, order + [id], env, compile, insert);
      && (prev.outcome.Failure? ==> r == prev)
      && (prev.outcome.Success? ==>
            var s := LocalStep(compile, insert, prev.outcome.value, (id, utils[id]));
            && (s.Failure? ==> r == Run(prev.done, Failure(s.error)))
            && (s.Success? ==> r == Run(prev.done + [(id, utils[id])], Success(s.value))))
  {
    assert Entries(utils, order + [id]) == Entries(utils, order) + [(id, utils[id])];
    FoldSnoc(Entries(utils, order), (id, utils[id]), env, LocalSteps(compile, insert));
  }

  /**
    Each registered rule was deserialized and inserted against the registry
    built from exactly the rules before it in the order, and that gave the
    registry of the next prefix.
  */
  lemma RegisterInOrderStepAt<Env, C, CE, IE>(
    utils: map<string, Rule>, order: seq<string>, env: Env,
    compile: (Env, Rule) -> Result<C, CE>, insert: (Env, string, C) -> Result<Env, IE>, i: nat)
    requires forall x :: x in order ==> x in utils
    requires i < |RegisterInOrder(utils, order, env, compile, insert).done|
    ensures var before := RegisterInOrder(utils, order[..i], env, compile, insert);
      var after := RegisterInOrder(utils, order[..i + 1], env, compile, insert);
      && before.outcome.Success? && Firsts(before.done) == order[..i]
      && after.outcome.Success?
      && LocalStep(compile, insert, before.outcome.value, (order[i], utils[order[i]])) == after.outcome
  {
    var entries := Entries(utils, order);
    assert forall x :: x in order[..i] ==> x in order;
    assert forall x :: x in order[..i + 1] ==> x in order;
    assert Entries(utils, order[..i]) == entries[..i];
    assert Entries(utils, order[..i + 1]) == entries[..i + 1];
    FoldStepAt(entries, env, LocalSteps(compile, insert), i);
  }

  /**
    `register_local_utils`: orders the utilities (reporting a reference cycle
    instead of recursing forever), then deserializes and inserts each rule in
    that order, stopping at the first failure.
  */
  function RegisterLocalUtils<Env, C, CE, IE>(
    utils: map<string, Rule>, keys: seq<string>, env: Env,
    compile: (Env, Rule) -> Result<C, CE>, insert: (Env, string, C) -> Result<Env, IE>)
    : (r: Run<Env, (string, Rule), UtilError<CE, IE>>)
    ensures forall i :: 0 <= i < |r.done| ==> r.done[i].0 in utils && r.done[i].1 == utils[r.done[i].0]
    ensures GetOrderChecked(utils, keys).Failure? ==>
      r == Run([], Failure(CyclicRule(GetOrderChecked(utils, keys).error)))
    ensures GetOrderChecked(utils, keys).Success? ==>
      && (forall id :: id in GetOrderChecked(utils, keys).value ==> id in utils)
      && r == RegisterInOrder(utils, GetOrderChecked(utils, keys).value, env, compile, insert)
  {
    match GetOrderChecked(utils, keys)
    case Failure(id) => Run([], Failure(CyclicRule(id)))
    case Success(order) =>
      GetOrderCheckedWellFormed(utils, keys);
      RegisterInOrder(utils, order, env, compile, insert)
  }

  /**
    On acyclic utilities the rules are registered by the loop over the order
    of the walk as written; every rule is deserialized against a registry
    that already holds each utility it refers to; and registration succeeds
    exactly when every utility was registered.
  */
  lemma RegisterLocalUtilsInDependencyOrder<Env, C, CE, IE>(
    utils: map<string, Rule>, keys: seq<string>, env: Env,
    compile: (Env, Rule) -> Result<C, CE>, insert: (Env, string, C) -> Result<Env, IE>,
    rank: map<string, nat>)
    requires Ranked(utils, rank)
    requires forall k :: k in utils ==> k in keys
    ensures forall id :: id in GetOrder(utils, keys, rank) ==> id in utils
    ensures var r := RegisterLocalUtils(utils, keys, env, compile, insert);
      && r == RegisterInOrder(utils, GetOrder(utils, keys, rank), env, compile, insert)
      && (forall i :: 0 <= i < |r.done| ==>
            forall d :: d in Deps(r.done[i].1) && d in utils ==> d in Firsts(r.done)[..i])
      && (r.outcome.Success? <==> (forall k :: k in Firsts(r.done) <==> k in utils))
  {
    var r := RegisterLocalUtils(utils, keys, env, compile, insert);
    var order := GetOrder(utils, keys, rank);
    GetOrderCheckedAgrees(utils, keys, rank);
    GetOrderIsKeySet(utils, keys, rank);
    VisitKeysWellFormed(utils, keys, EmptySorter, rank);
    var n := |r.done|;
    assert Firsts(r.done) == order[..n];
    DependenciesFirstPrefix(utils, order, n);
    RegisteredAfterDependencies(utils, r.done);
    if !r.outcome.Success? {
      // a proper prefix of a duplicate-free order misses its next id
      assert order[n] !in order[..n];
    }
  }

  /** A prefix of a dependencies-first order is dependencies-first. */
  lemma DependenciesFirstPrefix(utils: map<string, Rule>, order: seq<string>, n: nat)
    requires DependenciesFirst(utils, order) && n <= |order|
    ensures DependenciesFirst(utils, order[..n])
  {
    forall j | 0 <= j < n
      ensures order[..n][j] in utils
      ensures forall d :: d in Deps(utils[order[..n][j]]) && d in utils ==> d in order[..n][..j]
    {
      assert order[..n][..j] == order[..j];
    }
  }

  /** Registered entries whose ids are dependencies-first each come after every utility their rule refers to. */
  lemma RegisteredAfterDependencies(utils: map<string, Rule>, done: seq<(string, Rule)>)
    requires DependenciesFirst(utils, Firsts(done))
    requires forall i :: 0 <= i < |done| ==> done[i].1 == utils[done[i].0]
    ensures forall i :: 0 <= i < |done| ==>
      forall d :: d in Deps(done[i].1) && d in utils ==> d in Firsts(done)[..i]
  {
    forall i | 0 <= i < |done|
      ensures forall d :: d in Deps(done[i].1) && d in utils ==> d in Firsts(done)[..i]
    {
      assert Firsts(done)[i] == done[i].0;
    }
  }

  // ---------------------------------------------------------------------
  // parse_global_utils
  // ---------------------------------------------------------------------

  /** A global rule core: its id and its rule. */
  datatype RuleCore = RuleCore(id: string, rule: Rule)

  /** Why building the global registry failed: the matcher could not be built, or the insertion was refused. */
  datatype GlobalError<ME, IE> = Matcher(cause: ME) | InsertRefused(reason: IE)

  /** One iteration of `parse_global_utils`: build the matcher against the registry so far, then insert it under the rule's id. */
  function GlobalStep<Env, M, ME, IE>(
    getMatcher: (Env, RuleCore) -> Result<M, ME>, insert: (Env, string, M) -> Result<Env, IE>,
    env: Env, core: RuleCore): (r: Result<Env, GlobalError<ME, IE>>)
    ensures getMatcher(env, core).Failure? ==> r == Failure(Matcher(getMatcher(env, core).error))
    ensures getMatcher(env, core).Success? ==>
      var inserted := insert(env, core.id, getMatcher(env, core).value);
      && (inserted.Failure? ==> r == Failure(InsertRefused(inserted.error)))
      && (inserted.Success? ==> r == Success(inserted.value))
  {
    match getMatcher(env, core)
    case Failure(e) => Failure(Matcher(e))
    case Success(m) =>
      match insert(env, core.id, m)
      case Failure(e) => Failure(InsertRefused(e))
      case Success(next) => Success(next)
  }

  /** `GlobalStep` as the step function of a fold. */
  function GlobalSteps<Env, M, ME, IE>(getMatcher: (Env, RuleCore) -> Result<M, ME>, insert: (Env, string, M) -> Result<Env, IE>)
    : (Env, RuleCore) -> Result<Env, GlobalError<ME, IE>>
  {
    (env: Env, core: RuleCore) => GlobalStep(getMatcher, insert, env, core)
  }

  /**
    `parse_global_utils`: processes the rule cores in list order, starting
    from the empty registry, and stops at the first matcher or insertion
    failure.
  */
  function ParseGlobalUtils<Env, M, ME, IE>(
    utils: seq<RuleCore>, empty: Env,
    getMatcher: (Env, RuleCore) -> Result<M, ME>, insert: (Env, string, M) -> Result<Env, IE>)
    : (r: Run<Env, RuleCore, GlobalError<ME, IE>>)
    ensures utils == [] ==> r == Run([], Success(empty))
    ensures r.done <= utils
    ensures r.outcome.Success? <==> r.done == utils
  {
    Fold(utils, empty, GlobalSteps(getMatcher, insert))
  }

  /**
    Parsing `utils + [core]` is parsing `utils` and then, unless that failed,
    building the matcher of `core` against the registry built so far and
    inserting it: either failure becomes the result, success extends the
    registry.
  */
  lemma ParseGlobalUtilsSnoc<Env, M, ME, IE>(
    utils: seq<RuleCore>, core: RuleCore, empty: Env,
    getMatcher: (Env, RuleCore) -> Result<M, ME>, insert: (Env, string, M) -> Result<Env, IE>)
    ensures var prev := ParseGlobalUtils(utils, empty, getMatcher, insert);
      var r := ParseGlobalUtils(utils + [core], empty, getMatcher, insert);
      && (prev.outcome.Failure? ==> r == prev)
      && (prev.outcome.Success? ==>
            var s := GlobalStep(getMatcher, insert, prev.outcome.value, core);
            && (s.Failure? ==> r == Run(utils, Failure(s.error)))
            && (s.Success? ==> r == Run(utils + [core], Success(s.value))))
  {
    FoldSnoc(utils, core, empty, GlobalSteps(getMatcher, insert));
  }

  /**
    A failed parse built every core before the failing one successfully, and
    the matcher or insertion of that core produced exactly the reported error.
  */
  lemma ParseGlobalUtilsFirstFailure<Env, M, ME, IE>(
    utils: seq<RuleCore>, empty: Env,
    getMatcher: (Env, RuleCore) -> Result<M, ME>, insert: (Env, string, M) -> Result<Env, IE>)
    requires ParseGlobalUtils(utils, empty, getMatcher, insert).outcome.Failure?
    ensures var r := ParseGlobalUtils(utils, empty, getMatcher, insert);
      var k := |r.done|;
      && k < |utils|
      && ParseGlobalUtils(utils[..k], empty, getMatcher, insert).outcome.Success?
      && GlobalStep(getMatcher, insert, ParseGlobalUtils(utils[..k], empty, getMatcher, insert).outcome.value, utils[k])
         == Failure(r.outcome.error)
  {
    FoldFailsAtFirstFailure(utils, empty, GlobalSteps(getMatcher, insert));
  }
}
