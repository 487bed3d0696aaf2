/**
 * The shape of `workLoop`'s `while (nextUnitOfWork && !shouldYield)` loop,
 * independent of what one unit of work does: a step applied while there is
 * work, until the deadline says to yield.
 */
module Slices {
  import opened Wrappers

  /** `n` applications of `step`. */
  function Iterate<S>(step: S -> S, s: S, n: nat): S
    decreases n
  {
    if n == 0 then s else Iterate(step, step(s), n - 1)
  }

  /** `m` steps and then `n` more are `m + n` steps. */
  lemma {:induction false} IterateAdd<S>(step: S -> S, s: S, m: nat, n: nat)
    ensures Iterate(step, Iterate(step, s, m), n) == Iterate(step, s, m + n)
    decreases m
  {
    if m > 0 {
      IterateAdd(step, step(s), m - 1, n);
    }
  }

  /** A state the step leaves alone stays put. */
  lemma {:induction false} IterateFixed<S>(step: S -> S, s: S, n: nat)
    requires step(s) == s
    ensures Iterate(step, s, n) == s
    decreases n
  {
    if n > 0 {
      IterateFixed(step, s, n - 1);
    }
  }

  /** Once the steps reach a state the step leaves alone, further steps change nothing. */
  lemma IterateSettles<S>(step: S -> S, s: S, m: nat, n: nat)
    requires m <= n && step(Iterate(step, s, m)) == Iterate(step, s, m)
    ensures Iterate(step, s, n) == Iterate(step, s, m)
  {
    IterateAdd(step, s, m, n - m);
    IterateFixed(step, Iterate(step, s, m), n - m);
  }

  /** What `step` preserves, `n` steps preserve. */
  lemma {:induction false} IterateKeeps<S>(step: S -> S, inv: S -> bool, s: S, n: nat)
    requires inv(s)
    requires forall x :: inv(x) ==> inv(step(x))
    ensures inv(Iterate(step, s, n))
    decreases n
  {
    if n > 0 {
      IterateKeeps(step, inv, step(s), n - 1);
    }
  }

  /**
   * One idle callback's loop: while `busy`, take a step, then read the next
   * deadline entry (`true`: the time left dropped below 1 ms, so yield);
   * past the end of `deadline` the time is up.
   */
  function Slice<S>(step: S -> S, busy: S -> bool, s: S, deadline: seq<bool>): S
    decreases |deadline|
  {
    if !busy(s) then s
    else if deadline == [] || deadline[0] then step(s)
    else Slice(step, busy, step(s), deadline[1..])
  }

  /** How many steps that loop takes. */
  function SliceCount<S>(step: S -> S, busy: S -> bool, s: S, deadline: seq<bool>): nat
    decreases |deadline|
  {
    if !busy(s) then 0
    else if deadline == [] || deadline[0] then 1
    else 1 + SliceCount(step, busy, step(s), deadline[1..])
  }

  /**
   * The deadline only decides how many steps a callback takes: the loop is
   * the first `SliceCount` steps, at least one when there is work, none when
   * there is not, and it stops with work left only where the deadline says
   * to yield.
   */
  lemma {:induction false} SliceIterates<S>(step: S -> S, busy: S -> bool, s: S, deadline: seq<bool>)
    ensures Slice(step, busy, s, deadline) == Iterate(step, s, SliceCount(step, busy, s, deadline))
    ensures busy(s) ==> 1 <= SliceCount(step, busy, s, deadline) <= |deadline| + 1
    ensures !busy(s) ==> SliceCount(step, busy, s, deadline) == 0
    ensures busy(Slice(step, busy, s, deadline)) ==>
              var c := SliceCount(step, busy, s, deadline);
              c >= 1 && (c > |deadline| || deadline[c - 1])
    decreases |deadline|
  {
    if busy(s) && deadline != [] && !deadline[0] {
      var t := step(s);
      SliceIterates(step, busy, t, deadline[1..]);
      var c := SliceCount(step, busy, t, deadline[1..]);
      assert Iterate(step, s, 1 + c) == Iterate(step, t, c);
      if busy(Slice(step, busy, t, deadline[1..])) && c <= |deadline[1..]| {
        assert deadline[1..][c - 1] == deadline[c];
      }
    }
  }

  /**
   * One idle callback: the loop, then `finish` on what it leaves (the
   * commit of a finished tree, or nothing); a `Fail` is an exception.
   */
  function Callback<S, E>(step: S -> S, busy: S -> bool, finish: S -> Result<S, E>, s: S, deadline: seq<bool>): Result<S, E> {
    finish(Slice(step, busy, s, deadline))
  }

  /** Callbacks one after the other; an exception ends them. */
  function Callbacks<S, E>(step: S -> S, busy: S -> bool, finish: S -> Result<S, E>, s: S, deadlines: seq<seq<bool>>): Result<S, E>
    decreases |deadlines|
  {
    if deadlines == [] then Ok(s)
    else
      match Callback(step, busy, finish, s, deadlines[0])
      case Fail(e) => Fail(e)
      case Ok(t) => Callbacks(step, busy, finish, t, deadlines[1..])
  }

  /** What the steps and a successful `finish` preserve, callbacks preserve. */
  lemma {:induction false} CallbacksKeep<S, E>(step: S -> S, busy: S -> bool, finish: S -> Result<S, E>, inv: S -> bool, s: S, deadlines: seq<seq<bool>>)
    requires inv(s)
    requires forall x :: inv(x) ==> inv(step(x))
    requires forall x :: inv(x) && finish(x).Ok? ==> inv(finish(x).value)
    ensures Callbacks(step, busy, finish, s, deadlines).Ok? ==> inv(Callbacks(step, busy, finish, s, deadlines).value)
    decreases |deadlines|
  {
    if deadlines != [] {
      SliceIterates(step, busy, s, deadlines[0]);
      var c := SliceCount(step, busy, s, deadlines[0]);
      IterateKeeps(step, inv, s, c);
      var w := Callback(step, busy, finish, s, deadlines[0]);
      assert w == finish(Iterate(step, s, c));
      if w.Ok? {
        CallbacksKeep(step, busy, finish, inv, w.value, deadlines[1..]);
      }
    }
  }

  /**
   * How the steps, the loop condition and `finish` fit together: a `done`
   * state has no work and nothing to finish, nothing is finished while
   * there is work, `finish` either changes nothing or makes the state
   * `done`, and a step without work changes nothing.
   */
  ghost predicate Fits<S(!new), E>(step: S -> S, busy: S -> bool, finish: S -> Result<S, E>, done: S -> bool) {
    && (forall x :: done(x) ==> !busy(x) && finish(x) == Ok(x))
    && (forall x :: busy(x) ==> finish(x) == Ok(x))
    && (forall x :: finish(x).Ok? ==> finish(x).value == x || done(finish(x).value))
    && (forall x :: !busy(x) ==> step(x) == x)
  }

  /** How many steps callbacks take until one of them is `done` or throws. */
  function CallbacksCount<S, E>(step: S -> S, busy: S -> bool, finish: S -> Result<S, E>, done: S -> bool, s: S, deadlines: seq<seq<bool>>): nat
    decreases |deadlines|
  {
    if deadlines == [] then 0
    else
      var c := SliceCount(step, busy, s, deadlines[0]);
      match Callback(step, busy, finish, s, deadlines[0])
      case Fail(_) => c
      case Ok(t) => if done(t) then c else c + CallbacksCount(step, busy, finish, done, t, deadlines[1..])
  }

  /** Callbacks from a `done` state do nothing. */
  lemma {:induction false} CallbacksIdle<S(!new), E>(step: S -> S, busy: S -> bool, finish: S -> Result<S, E>, done: S -> bool, s: S, deadlines: seq<seq<bool>>)
    requires Fits(step, busy, finish, done) && done(s)
    ensures Callbacks(step, busy, finish, s, deadlines) == Ok(s)
    decreases |deadlines|
  {
    if deadlines != [] {
      assert !busy(s) && finish(s) == Ok(s);
      assert Callback(step, busy, finish, s, deadlines[0]) == Ok(s);
      CallbacksIdle(step, busy, finish, done, s, deadlines[1..]);
    }
  }

  /**
   * Whatever the deadlines, callbacks are the first `CallbacksCount` steps
   * of the one fixed sequence, followed, once there is no work left, by
   * `finish`.
   */
  lemma {:induction false} CallbacksShape<S(!new), E>(step: S -> S, busy: S -> bool, finish: S -> Result<S, E>, done: S -> bool, s: S, deadlines: seq<seq<bool>>)
    requires Fits(step, busy, finish, done)
    ensures
      var u := Iterate(step, s, CallbacksCount(step, busy, finish, done, s, deadlines));
      var r := Callbacks(step, busy, finish, s, deadlines);
      && (r.Fail? || done(r.value) ==> !busy(u) && finish(u) == r)
      && (r.Ok? && !done(r.value) ==> r.value == u)
    decreases |deadlines|
  {
    var u := Iterate(step, s, CallbacksCount(step, busy, finish, done, s, deadlines));
    var r := Callbacks(step, busy, finish, s, deadlines);
    if deadlines == [] {
      assert u == s && r == Ok(s);
      if done(s) {
        assert !busy(s) && finish(s) == Ok(s);
      }
    } else {
      var rest := deadlines[1..];
      var c := SliceCount(step, busy, s, deadlines[0]);
      SliceIterates(step, busy, s, deadlines[0]);
      var v := Iterate(step, s, c);
      var w := finish(v);
      assert w == Callback(step, busy, finish, s, deadlines[0]);
      if w.Fail? {
        assert !busy(v);
        assert r == w && u == v;
      } else if done(w.value) {
        CallbacksIdle(step, busy, finish, done, w.value, rest);
        assert r == w && u == v;
        assert !busy(v);
      } else {
        var t := w.value;
        assert t == v;
        var n := CallbacksCount(step, busy, finish, done, t, rest);
        assert r == Callbacks(step, busy, finish, t, rest);
        assert CallbacksCount(step, busy, finish, done, s, deadlines) == c + n;
        CallbacksShape(step, busy, finish, done, t, rest);
        IterateAdd(step, s, c, n);
      }
    }
  }

  /**
   * The deadlines affect only how the steps are spread over callbacks: two
   * runs of callbacks from the same state that both get to `done`, or both
   * throw, end the same way.
   */
  lemma CallbacksAgree<S(!new), E>(step: S -> S, busy: S -> bool, finish: S -> Result<S, E>, done: S -> bool, s: S, ds1: seq<seq<bool>>, ds2: seq<seq<bool>>)
    requires Fits(step, busy, finish, done)
    requires Callbacks(step, busy, finish, s, ds1).Fail? || done(Callbacks(step, busy, finish, s, ds1).value)
    requires Callbacks(step, busy, finish, s, ds2).Fail? || done(Callbacks(step, busy, finish, s, ds2).value)
    ensures Callbacks(step, busy, finish, s, ds1) == Callbacks(step, busy, finish, s, ds2)
  {
    CallbacksShape(step, busy, finish, done, s, ds1);
    CallbacksShape(step, busy, finish, done, s, ds2);
    var n1 := CallbacksCount(step, busy, finish, done, s, ds1);
    var n2 := CallbacksCount(step, busy, finish, done, s, ds2);
    if n1 <= n2 {
      IterateSettles(step, s, n1, n2);
    } else {
      IterateSettles(step, s, n2, n1);
    }
  }
}
