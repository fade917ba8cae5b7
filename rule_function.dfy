/**
 * Rule functions: a transform from state to state-or-falsy, built up by
 * composing steps. `Then`, `Filter`, `FilterNot`, `Use` and `Tap` each wrap
 * the transform built so far.
 */
module RuleFunctions {
  import opened Outcomes
  import opened ParseState

  /** A rule function; `transform` is the composition built so far. */
  datatype RuleFunction = RuleFunction(transform: Transform)

  /** A fresh rule function: its default transform is the identity. */
  const Identity: RuleFunction := RuleFunction((s: State) => Some(s))

  /** What `RuleFunction.exec` accepts: a plain function or a rule function. */
  datatype Callable = Plain(f: Transform) | Composed(rf: RuleFunction)

  /** The `exec` method: run the transform. */
  function Run(rf: RuleFunction, s: State): Option<State> {
    rf.transform(s)
  }

  /** `RuleFunction.exec(fn, state)` */
  function Exec(c: Callable, s: State): Option<State> {
    match c
    case Plain(f) => f(s)
    case Composed(rf) => Run(rf, s)
  }

  /** `compose(composer)`: a new rule function whose transform is the
      composer applied to the current one. */
  function Compose(rf: RuleFunction, composer: Transform -> Transform): RuleFunction {
    RuleFunction(composer(rf.transform))
  }

  /** `then(next)` */
  function Then(rf: RuleFunction, next: Transform): RuleFunction {
    Compose(rf, (prev: Transform) => (s: State) => match prev(s) case None => None case Some(p) => next(p))
  }

  /** `tap(interceptor)`: the interceptor sees the result; its own result is
      dropped. */
  function Tap<X>(rf: RuleFunction, interceptor: Option<State> -> X): RuleFunction {
    Compose(rf, (prev: Transform) => (s: State) => var p := prev(s); var _ := interceptor(p); p)
  }

  /** The result of the first alternative that yields a state, in order. */
  function FirstTruthy(alternatives: seq<Callable>, s: State): Option<State>
    decreases |alternatives|
  {
    if |alternatives| == 0 then None
    else match Exec(alternatives[0], s)
      case Some(t) => Some(t)
      case None => FirstTruthy(alternatives[1..], s)
  }

  /** `use(alternatives)` */
  function Use(rf: RuleFunction, alternatives: seq<Callable>): RuleFunction {
    Then(rf, (s: State) => FirstTruthy(alternatives, s))
  }

  /** `filter(match)` */
  function Filter(rf: RuleFunction, match_: State -> bool): RuleFunction {
    Compose(rf, (prev: Transform) => (s: State) =>
      match prev(s) case None => None case Some(p) => if match_(p) then Some(p) else None)
  }

  /** `filterNot(match)`: pass only when `match` yields a falsy result. */
  function FilterNot(rf: RuleFunction, match_: Callable): RuleFunction {
    Filter(rf, (s: State) => Exec(match_, s).None?)
  }

  // ----- the algebra --------------------------------------------------------

  /** A fresh rule function returns its input. */
  lemma IdentityRuns(s: State)
    ensures Run(Identity, s) == Some(s)
  {
  }

  /** `then` stops at a falsy result and otherwise hands the result on. */
  lemma ThenRuns(rf: RuleFunction, next: Transform, s: State)
    ensures Run(rf, s).None? ==> Run(Then(rf, next), s).None?
    ensures Run(rf, s).Some? ==> Run(Then(rf, next), s) == next(Run(rf, s).value)
  {
  }

  /** `then` is associative. */
  lemma ThenAssociative(rf: RuleFunction, f: Transform, g: Transform, s: State)
    ensures Run(Then(Then(rf, f), g), s)
      == Run(Then(rf, (x: State) => match f(x) case None => None case Some(y) => g(y)), s)
  {
  }

  /** `tap` returns the result it intercepts. */
  lemma TapRuns<X>(rf: RuleFunction, interceptor: Option<State> -> X, s: State)
    ensures Run(Tap(rf, interceptor), s) == Run(rf, s)
  {
  }

  /** `filter` passes the previous result unchanged exactly when it is a
      state the predicate accepts. */
  lemma FilterRuns(rf: RuleFunction, match_: State -> bool, s: State)
    ensures Run(Filter(rf, match_), s).Some? <==> Run(rf, s).Some? && match_(Run(rf, s).value)
    ensures Run(Filter(rf, match_), s).Some? ==> Run(Filter(rf, match_), s) == Run(rf, s)
  {
  }

  /** `filterNot(m)` passes exactly when `m` yields a falsy result. */
  lemma FilterNotRuns(rf: RuleFunction, match_: Callable, s: State)
    ensures Run(FilterNot(rf, match_), s).Some? <==> Run(rf, s).Some? && Exec(match_, Run(rf, s).value).None?
    ensures Run(FilterNot(rf, match_), s).Some? ==> Run(FilterNot(rf, match_), s) == Run(rf, s)
  {
  }

  /** The alternatives are tried in order and the first state obtained is
      the result; there is none exactly when every alternative fails. */
  lemma {:induction false} FirstTruthySpec(alternatives: seq<Callable>, s: State)
    ensures FirstTruthy(alternatives, s).None? <==> forall i :: 0 <= i < |alternatives| ==> Exec(alternatives[i], s).None?
    ensures FirstTruthy(alternatives, s).Some? ==>
      exists i :: 0 <= i < |alternatives| && Exec(alternatives[i], s) == FirstTruthy(alternatives, s)
        && forall j :: 0 <= j < i ==> Exec(alternatives[j], s).None?
    decreases |alternatives|
  {
    if |alternatives| > 0 {
      FirstTruthySpec(alternatives[1..], s);
      if Exec(alternatives[0], s).None? {
        forall i | 1 <= i < |alternatives|
          ensures Exec(alternatives[i], s) == Exec(alternatives[1..][i - 1], s)
        {
        }
        if FirstTruthy(alternatives, s).Some? {
          var k :| 0 <= k < |alternatives[1..]| && Exec(alternatives[1..][k], s) == FirstTruthy(alternatives[1..], s)
            && forall j :: 0 <= j < k ==> Exec(alternatives[1..][j], s).None?;
          assert Exec(alternatives[k + 1], s) == FirstTruthy(alternatives, s);
          forall j | 0 <= j < k + 1 ensures Exec(alternatives[j], s).None? {
            if j > 0 {
              assert Exec(alternatives[1..][j - 1], s).None?;
            }
          }
        }
      }
    }
  }

  /** `use` runs the alternatives on the previous result. */
  lemma UseRuns(rf: RuleFunction, alternatives: seq<Callable>, s: State)
    ensures Run(rf, s).None? ==> Run(Use(rf, alternatives), s).None?
    ensures Run(rf, s).Some? ==> Run(Use(rf, alternatives), s) == FirstTruthy(alternatives, Run(rf, s).value)
  {
  }
}
