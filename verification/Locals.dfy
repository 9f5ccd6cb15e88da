/** Fixpoint evaluation of saved local expressions (`evaluateLocals` in
    internal/cli/runtime.go).  An environment holds the local values known so far; parsing
    and evaluating one expression is a given function of its name and the environment. */
module Locals {

  type Env = map<string, int>

  datatype Outcome = Known(value: int) | NotKnown | Failure

  type Evaluator = (string, Env) -> Outcome

  /** `b` knows at least what `a` knows. */
  ghost predicate Below(a: Env, b: Env) {
    forall k :: k in a ==> k in b && a[k] == b[k]
  }

  /** Knowing more never changes or loses a value. */
  ghost predicate Monotone(eval: Evaluator, names: set<string>) {
    forall n, a, b :: n in names && Below(a, b) && eval(n, a).Known? ==> eval(n, b) == eval(n, a)
  }

  ghost predicate ErrorFree(eval: Evaluator, names: set<string>) {
    forall n, a :: n in names ==> eval(n, a) != Failure
  }

  /** A value already known for a pending name is the one its expression evaluates to. */
  ghost predicate Consistent(eval: Evaluator, names: set<string>, start: Env) {
    forall n, a :: n in names && n in start && Below(start, a) && eval(n, a).Known? ==> eval(n, a).value == start[n]
  }

  ghost predicate WellBehaved(eval: Evaluator, names: set<string>, start: Env) {
    Monotone(eval, names) && ErrorFree(eval, names) && Consistent(eval, names, start)
  }

  /** Every expression that evaluates has its value in the environment. */
  ghost predicate Closed(eval: Evaluator, names: set<string>, env: Env) {
    forall n :: n in names && eval(n, env).Known? ==> n in env && env[n] == eval(n, env).value
  }

  /** The least closed environment from `start` on. */
  ghost predicate Least(eval: Evaluator, names: set<string>, start: Env, env: Env) {
    && Below(start, env) && Closed(eval, names, env)
    && forall e :: Below(start, e) && Closed(eval, names, e) ==> Below(env, e)
  }

  lemma LeastIsUnique(eval: Evaluator, names: set<string>, start: Env, a: Env, b: Env)
    requires Least(eval, names, start, a) && Least(eval, names, start, b)
    ensures a == b
  {
    assert Below(a, b) && Below(b, a);
    assert a.Keys == b.Keys;
  }

  // ---------------------------------------------------------------- progress

  /** Halfway: what has been evaluated stands, and nothing known is more than it must be. */
  ghost predicate Underway(eval: Evaluator, names: set<string>, start: Env, env: Env, pending: set<string>) {
    && pending <= names && Below(start, env) && env.Keys <= start.Keys + (names - pending)
    && (forall n :: n in names && n !in pending ==> n in env && eval(n, env) == Known(env[n]))
    && forall e :: Below(start, e) && Closed(eval, names, e) ==> Below(env, e)
  }

  /** One value more: the environment grows, and stays within every closed one. */
  lemma KeepsUnderway(eval: Evaluator, names: set<string>, start: Env, env: Env, pending: set<string>, n: string)
    requires WellBehaved(eval, names, start) && Underway(eval, names, start, env, pending)
    requires n in pending && eval(n, env).Known?
    ensures Below(env, env[n := eval(n, env).value])
    ensures Underway(eval, names, start, env[n := eval(n, env).value], pending - {n})
  {
    var v := eval(n, env).value;
    var next := env[n := v];
    assert n in env ==> n in start && env[n] == start[n] == v;
    assert Below(env, next);
    forall m | m in names && m !in pending - {n} ensures m in next && eval(m, next) == Known(next[m]) {
      if m == n {
        assert eval(n, next) == eval(n, env);
      } else {
        assert eval(m, next) == eval(m, env);
      }
    }
    forall e | Below(start, e) && Closed(eval, names, e) ensures Below(next, e) {
      assert Below(env, e) && eval(n, e) == eval(n, env);
    }
  }

  /** When nothing pending evaluates, the environment is the least closed one. */
  lemma DoneIsLeast(eval: Evaluator, names: set<string>, start: Env, env: Env, pending: set<string>)
    requires Underway(eval, names, start, env, pending) && forall n :: n in pending ==> !eval(n, env).Known?
    ensures Least(eval, names, start, env)
  {
    forall n | n in names && eval(n, env).Known? ensures n in env && env[n] == eval(n, env).value {
      assert n !in pending;
    }
  }

  /** Passes over the pending expressions in whatever order the map yields them, until one
      makes no progress.  On a well-behaved evaluator the outcome is the least closed
      environment, so the order cannot matter; each pass but the last leaves less pending. */
  method EvaluateLocals(start: Env, expressions: set<string>, eval: Evaluator) returns (ok: bool, values: Env)
    ensures WellBehaved(eval, expressions, start) ==> ok && Least(eval, expressions, start, values)
    ensures !ok ==> !ErrorFree(eval, expressions)
  {
    ok, values := true, start;
    var pending := expressions;
    ghost var good := WellBehaved(eval, expressions, start);
    assert Underway(eval, expressions, start, start, expressions);
    while |pending| > 0
      invariant pending <= expressions
      invariant good ==> Underway(eval, expressions, start, values, pending)
      decreases |pending|
    {
      var before := pending;
      var progress;
      ok, values, pending, progress := OnePass(start, expressions, eval, values, pending);
      if !ok {
        return;
      }
      if !progress {
        if good {
          DoneIsLeast(eval, expressions, start, values, pending);
        }
        return;
      }
    }
    if good {
      DoneIsLeast(eval, expressions, start, values, pending);
    }
  }

  method OnePass(ghost start: Env, ghost expressions: set<string>, eval: Evaluator, env: Env, before: set<string>)
    returns (ok: bool, values: Env, pending: set<string>, progress: bool)
    requires before <= expressions
    requires WellBehaved(eval, expressions, start) ==> Underway(eval, expressions, start, env, before)
    ensures pending <= before && (progress ==> |pending| < |before|) && (!progress ==> pending == before)
    ensures !ok ==> !ErrorFree(eval, expressions)
    ensures WellBehaved(eval, expressions, start) ==> Underway(eval, expressions, start, values, pending)
    ensures ok && !progress ==> values == env && forall n :: n in pending ==> !eval(n, values).Known?
  {
    ok, values, pending, progress := true, env, before, false;
    var todo := before;
    while todo != {}
      invariant todo <= pending <= before
      invariant progress ==> |pending| < |before|
      invariant !progress ==> values == env && pending == before && forall n :: n in before - todo ==>
                  !eval(n, env).Known?
      invariant WellBehaved(eval, expressions, start) ==> Underway(eval, expressions, start, values, pending)
      decreases |todo|
    {
      var name :| name in todo;
      todo := todo - {name};
      var outcome := eval(name, values);
      if outcome == Failure {
        ok := false;
        return;
      }
      if outcome.NotKnown? {
        continue;
      }
      if WellBehaved(eval, expressions, start) {
        KeepsUnderway(eval, expressions, start, values, pending, name);
      }
      values := values[name := outcome.value];
      pending := pending - {name};
      progress := true;
    }
  }

  // ------------------------------------------------------------------ orders

  datatype State = Stuck | State(env: Env, pending: set<string>)

  /** The state after the first `k` picked expressions have been evaluated in this order; stuck
      when one of them is not pending or not known at its turn. */
  function Evaluated(eval: Evaluator, start: Env, names: set<string>, picks: seq<string>, k: nat): State
    requires k <= |picks|
  {
    if k == 0 then State(start, names) else
      match Evaluated(eval, start, names, picks, k - 1)
      case Stuck => Stuck
      case State(env, pending) =>
        var n := picks[k - 1];
        if n in pending && eval(n, env).Known? then State(env[n := eval(n, env).value], pending - {n}) else Stuck
  }

  /** A complete run in the given order. */
  ghost predicate Run(eval: Evaluator, start: Env, names: set<string>, picks: seq<string>, env: Env) {
    var end := Evaluated(eval, start, names, picks, |picks|);
    end.State? && end.env == env && forall n :: n in end.pending ==> !eval(n, env).Known?
  }

  lemma {:induction false} RunUnderway(eval: Evaluator, start: Env, names: set<string>, picks: seq<string>, k: nat)
    requires WellBehaved(eval, names, start) && k <= |picks| && Evaluated(eval, start, names, picks, k).State?
    ensures var s := Evaluated(eval, start, names, picks, k);
            Underway(eval, names, start, s.env, s.pending)
  {
    if k > 0 {
      RunUnderway(eval, start, names, picks, k - 1);
      var s := Evaluated(eval, start, names, picks, k - 1);
      KeepsUnderway(eval, names, start, s.env, s.pending, picks[k - 1]);
    }
  }

  /** On a well-behaved evaluator every order ends in the same environment. */
  lemma OrdersAgree(eval: Evaluator, start: Env, names: set<string>, p: seq<string>, q: seq<string>, a: Env, b: Env)
    requires WellBehaved(eval, names, start) && Run(eval, start, names, p, a) && Run(eval, start, names, q, b)
    ensures a == b
  {
    RunUnderway(eval, start, names, p, |p|);
    RunUnderway(eval, start, names, q, |q|);
    DoneIsLeast(eval, names, start, a, Evaluated(eval, start, names, p, |p|).pending);
    DoneIsLeast(eval, names, start, b, Evaluated(eval, start, names, q, |q|).pending);
    LeastIsUnique(eval, names, start, a, b);
  }

  /** What a caller can check beforehand: no pending name has a value yet, or at most one name
      is pending. */
  predicate OrderFree(start: Env, names: set<string>) {
    (forall n :: n in names ==> n !in start) || |names| <= 1
  }

  /** It is enough for every monotone error-free evaluator... */
  lemma OrderFreeAgree(eval: Evaluator, start: Env, names: set<string>, p: seq<string>, q: seq<string>, a: Env, b: Env)
    requires Monotone(eval, names) && ErrorFree(eval, names) && OrderFree(start, names)
    requires Run(eval, start, names, p, a) && Run(eval, start, names, q, b)
    ensures a == b
  {
    if forall n :: n in names ==> n !in start {
      OrdersAgree(eval, start, names, p, q, a, b);
    } else {
      var n :| n in names;
      assert |names - {n}| == 0;
      assert names == {n};
      OneName(eval, start, n, p, |p|);
      OneName(eval, start, n, q, |q|);
    }
  }

  /** With one name a run takes its value, if it has one, and nothing else. */
  lemma {:induction false} OneName(eval: Evaluator, start: Env, n: string, p: seq<string>, k: nat)
    requires k <= |p|
    ensures var s := Evaluated(eval, start, {n}, p, k);
            s == Stuck || (k == 0 && s == State(start, {n}))
            || (k == 1 && eval(n, start).Known? && s == State(start[n := eval(n, start).value], {}))
  {
    if k > 0 {
      OneName(eval, start, n, p, k - 1);
      assert {n} - {n} == {};
    }
  }

  /** ...and otherwise some monotone error-free evaluator tells two orders apart: one name has
      a stale value, and another copies it before or after it is refreshed. */
  lemma OrderMatters(start: Env, names: set<string>)
    returns (eval: Evaluator, p: seq<string>, q: seq<string>, a: Env, b: Env)
    requires !OrderFree(start, names)
    ensures Monotone(eval, names) && ErrorFree(eval, names)
    ensures Run(eval, start, names, p, a) && Run(eval, start, names, q, b) && a != b
  {
    var n :| n in names && n in start;
    assert |names - {n}| > 0;
    var m :| m in names - {n};
    var v, w := start[n] + 1, start[n];
    eval := Copying(n, m, v);
    p, q := [n, m], [m, n];
    a, b := start[n := v][m := v], start[m := w][n := v];
    TwoPicks(eval, start, names, p);
    TwoPicks(eval, start, names, q);
    assert a[m] == v && b[m] == w;
  }

  lemma TwoPicks(eval: Evaluator, start: Env, names: set<string>, p: seq<string>)
    requires |p| == 2 && p[0] != p[1] && p[0] in names && p[1] in names && eval(p[0], start).Known?
    requires var first := start[p[0] := eval(p[0], start).value];
             eval(p[1], first).Known?
    ensures var first := start[p[0] := eval(p[0], start).value];
            Evaluated(eval, start, names, p, 2)
            == State(first[p[1] := eval(p[1], first).value], names - {p[0]} - {p[1]})
  {
    assert Evaluated(eval, start, names, p, 0) == State(start, names);
    assert Evaluated(eval, start, names, p, 1) == State(start[p[0] := eval(p[0], start).value], names - {p[0]});
  }

  /** `n` evaluates to `v`, `m` to whatever `n` has, and nothing else evaluates. */
  ghost function Copying(n: string, m: string, v: int): Evaluator {
    (name: string, env: Env) =>
      if name == n then Known(v) else if name == m && n in env then Known(env[n]) else NotKnown
  }
}
