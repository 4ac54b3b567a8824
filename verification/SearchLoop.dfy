/** The capped retry loop behind the prime searches: attempt `j` either
    fails, keeps a value or moves on, and threads a state to the next
    attempt. The loop is stated once, over an arbitrary attempt function,
    together with its reference meaning: the first attempt that keeps a
    value, counted from the state reached by the attempts before it. */
module SearchLoop {
  import opened Results

  /** Attempts `j` to `maxAttempts - 1`, starting in state `st`. */
  function Loop<S>(step: (nat, S) -> Result<(Option<nat>, S)>, st: S, j: nat, maxAttempts: nat)
    : Result<(nat, S)>
    decreases maxAttempts - j
  {
    if j >= maxAttempts then
      Err(Exhausted)
    else
      match step(j, st)
      case Err(e) => Err(e)
      case Ok((found, next)) =>
        if found.Some? then Ok((found.value, next))
        else Loop(step, next, j + 1, maxAttempts)
  }

  /** From a `good` state every attempt succeeds and leads to a `good` state. */
  ghost predicate Total<S(!new)>(step: (nat, S) -> Result<(Option<nat>, S)>, good: S -> bool) {
    forall j: nat, st: S :: good(st) ==> step(j, st).Ok? && good(step(j, st).value.1)
  }

  /** The state after `k` attempts of a loop started in `st` at attempt `i`. */
  function After<S(!new)>(step: (nat, S) -> Result<(Option<nat>, S)>, good: S -> bool, st: S, i: nat, k: nat): (r: S)
    requires Total(step, good) && good(st)
    ensures good(r)
    decreases k
  {
    if k == 0 then st else step(i + k - 1, After(step, good, st, i, k - 1)).value.1
  }

  /** What attempt number `i + k` yields, run from the state after `k` attempts. */
  function Candidate<S(!new)>(step: (nat, S) -> Result<(Option<nat>, S)>, good: S -> bool, st: S, i: nat, k: nat)
    : Option<nat>
    requires Total(step, good) && good(st)
  {
    step(i + k, After(step, good, st, i, k)).value.0
  }

  /** Which attempts, counted from `i`, keep a value. */
  function Kept<S(!new)>(step: (nat, S) -> Result<(Option<nat>, S)>, good: S -> bool, st: S, i: nat): nat -> bool
    requires Total(step, good) && good(st)
  {
    (k: nat) => Candidate(step, good, st, i, k).Some?
  }

  /** The first `j` in `[k, count)` with `accepts(j)`. */
  function FirstTrue(accepts: nat -> bool, k: nat, count: int): Option<nat>
    decreases count - k
  {
    if k >= count then None
    else if accepts(k) then Some(k)
    else FirstTrue(accepts, k + 1, count)
  }

  /** `FirstTrue` finds nothing exactly when no index in `[k, count)` is
      accepted, and otherwise the least accepted one. */
  lemma {:induction false} FirstTrueMeaning(accepts: nat -> bool, k: nat, count: int)
    ensures var r := FirstTrue(accepts, k, count);
            && (r.None? <==> forall j: nat :: k <= j < count ==> !accepts(j))
            && (r.Some? ==> k <= r.value < count && accepts(r.value)
                            && forall j: nat :: k <= j < r.value ==> !accepts(j))
    decreases count - k
  {
    if k < count && !accepts(k) {
      FirstTrueMeaning(accepts, k + 1, count);
    }
  }

  /** What the loop reports for a first keeping attempt `k`: the value it
      kept and the state after it; nothing kept means exhaustion. */
  function Outcome<S(!new)>(step: (nat, S) -> Result<(Option<nat>, S)>, good: S -> bool, st: S, i: nat, hit: Option<nat>)
    : Result<(nat, S)>
    requires Total(step, good) && good(st)
  {
    match hit
    case None => Err(Exhausted)
    case Some(k) =>
      match Candidate(step, good, st, i, k)
      case None => Err(Exhausted)
      case Some(v) => Ok((v, After(step, good, st, i, k + 1)))
  }

  /** One attempt of the loop resumed after `m` attempts (in state `sm` at
      attempt number `j`): it either keeps attempt `m`'s value or resumes
      after `m1 == m + 1` attempts, in state `sm1` at number `j1`. */
  lemma ResumeStep<S(!new)>(step: (nat, S) -> Result<(Option<nat>, S)>, good: S -> bool, st: S, i: nat, maxAttempts: nat,
                      m: nat, sm: S, j: nat, m1: nat, sm1: S, j1: nat)
    requires Total(step, good) && good(st) && j < maxAttempts
    requires sm == After(step, good, st, i, m) && j == i + m
    requires m1 == m + 1 && sm1 == After(step, good, st, i, m1) && j1 == j + 1
    ensures Kept(step, good, st, i)(m) ==>
              Loop(step, sm, j, maxAttempts) == Outcome(step, good, st, i, Some(m))
    ensures !Kept(step, good, st, i)(m) ==>
              Loop(step, sm, j, maxAttempts) == Loop(step, sm1, j1, maxAttempts)
  {
    assert step(j, sm).Ok?;
    assert step(j, sm).value.1 == sm1;
  }

  /** The loop resumed after `m` attempts reports the first keeping attempt
      from `m` on. */
  lemma {:induction false} LoopResumed<S(!new)>(step: (nat, S) -> Result<(Option<nat>, S)>, good: S -> bool, st: S,
                                          i: nat, maxAttempts: nat, m: nat, sm: S, j: nat)
    requires Total(step, good) && good(st)
    requires sm == After(step, good, st, i, m) && j == i + m
    ensures Loop(step, sm, j, maxAttempts)
            == Outcome(step, good, st, i, FirstTrue(Kept(step, good, st, i), m, maxAttempts - i))
    decreases maxAttempts - j
  {
    if j < maxAttempts {
      var m1 := m + 1;
      var sm1 := After(step, good, st, i, m1);
      var j1 := j + 1;
      ResumeStep(step, good, st, i, maxAttempts, m, sm, j, m1, sm1, j1);
      if !Kept(step, good, st, i)(m) {
        LoopResumed(step, good, st, i, maxAttempts, m1, sm1, j1);
      }
    }
  }

  /** The loop from attempt `i` returns the value of the first attempt that
      keeps one, with the state after that attempt, and is exhausted
      exactly when no attempt below the cap keeps a value. */
  lemma LoopFindsFirst<S(!new)>(step: (nat, S) -> Result<(Option<nat>, S)>, good: S -> bool, st: S, i: nat, maxAttempts: nat)
    requires Total(step, good) && good(st)
    ensures Loop(step, st, i, maxAttempts)
            == Outcome(step, good, st, i, FirstTrue(Kept(step, good, st, i), 0, maxAttempts - i))
  {
    LoopResumed(step, good, st, i, maxAttempts, 0, st, i);
  }
}
