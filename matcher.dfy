/**
 * The matcher capability and its iteration protocol. A matcher is known only
 * through its `find_at(content, at)` primitive, given here as a function
 * value; every other search operation is built on it.
 */
module Matcher {
  import opened Wrappers
  import opened Newlines
  import opened Ranges

  /** `Matcher::find_at`: the next match at or after `at`, no match, or the matcher's error. */
  type FindAt<ME> = (seq<Byte>, nat) -> Result<Option<Range>, ME>

  /**
   * The closure handed to `try_find_iter`. A Rust `FnMut` may keep state; here
   * that state is whatever it can derive from the matches it was given before,
   * which are passed as the first argument.
   */
  type Callback<E> = (seq<Range>, Range) -> Result<bool, E>

  /** What `try_find_iter` returns: the matcher's error outside, the callback's inside. */
  type Outcome<E, ME> = Result<Result<(), E>, ME>

  /** A matcher that only reports matches lying inside the content and not before `at`. */
  ghost predicate WellBehaved<ME>(findAt: FindAt<ME>)
  {
    forall content: seq<Byte>, at: nat ::
      findAt(content, at).Ok? && findAt(content, at).value.Some? ==>
        var m := findAt(content, at).value.value;
        at <= m.start <= m.end <= |content|
  }

  /** `Matcher::find`. */
  function Find<ME>(findAt: FindAt<ME>, content: seq<Byte>): (r: Result<Option<Range>, ME>)
    ensures r == findAt(content, 0)
  {
    findAt(content, 0)
  }

  /** `Matcher::is_match_at`: whether `find_at` finds anything; its error is passed on. */
  function IsMatchAt<ME>(findAt: FindAt<ME>, content: seq<Byte>, at: nat): (r: Result<bool, ME>)
    ensures r.Ok? <==> findAt(content, at).Ok?
    ensures r.Ok? ==> (r.value <==> findAt(content, at).value.Some?)
    ensures r.Err? ==> r.error == findAt(content, at).error
  {
    match findAt(content, at)
    case Err(e) => Err(e)
    case Ok(m) => Ok(m.Some?)
  }

  /** `Matcher::is_match`. */
  function IsMatch<ME>(findAt: FindAt<ME>, content: seq<Byte>): (r: Result<bool, ME>)
    ensures r == IsMatchAt(findAt, content, 0)
    ensures r.Ok? ==> (r.value <==> Find(findAt, content).value.Some?)
  {
    IsMatchAt(findAt, content, 0)
  }

  /** `Matcher::shortest_match_at`: only the end offset of what `find_at` finds. */
  function ShortestMatchAt<ME>(findAt: FindAt<ME>, content: seq<Byte>, at: nat): (r: Result<Option<nat>, ME>)
    ensures r.Ok? <==> findAt(content, at).Ok?
    ensures r.Ok? ==> (r.value.Some? <==> findAt(content, at).value.Some?)
    ensures r.Ok? && r.value.Some? ==> r.value.value == findAt(content, at).value.value.end
    ensures r.Err? ==> r.error == findAt(content, at).error
    ensures WellBehaved(findAt) && r.Ok? && r.value.Some? ==> at <= r.value.value <= |content|
  {
    match findAt(content, at)
    case Err(e) => Err(e)
    case Ok(None) => Ok(None)
    case Ok(Some(m)) => Ok(Some(m.end))
  }

  /** `Matcher::shortest_match`. */
  function ShortestMatch<ME>(findAt: FindAt<ME>, content: seq<Byte>): (r: Result<Option<nat>, ME>)
    ensures r == ShortestMatchAt(findAt, content, 0)
    ensures WellBehaved(findAt) && r.Ok? && r.value.Some? ==> r.value.value <= |content|
  {
    ShortestMatchAt(findAt, content, 0)
  }

  /** A match exists at `at` exactly when a shortest match end exists there. */
  lemma MatchIffShortestMatch<ME>(findAt: FindAt<ME>, content: seq<Byte>, at: nat)
    ensures IsMatchAt(findAt, content, at) == Ok(true) <==> ShortestMatchAt(findAt, content, at).Ok? && ShortestMatchAt(findAt, content, at).value.Some?
    ensures IsMatchAt(findAt, content, at) == Ok(false) <==> ShortestMatchAt(findAt, content, at) == Ok(None)
  {
  }

  /** The result of running the iteration protocol: its outcome and the matches handed to the callback. */
  datatype Run<E, ME> = Run(outcome: Outcome<E, ME>, reported: seq<Range>)

  /**
   * Reference definition of the `try_find_iter` loop from the state
   * (`lastEnd`, `lastMatch`) with `reported` matches already handed over.
   */
  function Iterate<E, ME>(findAt: FindAt<ME>, matched: Callback<E>, content: seq<Byte>,
                          lastEnd: nat, lastMatch: Option<nat>, reported: seq<Range>): (run: Run<E, ME>)
    requires WellBehaved(findAt)
    ensures |reported| <= |run.reported| && run.reported[..|reported|] == reported
    decreases |content| + 1 - lastEnd
  {
    if lastEnd > |content| then Run(Ok(Ok(())), reported)
    else match findAt(content, lastEnd)
      case Err(e) => Run(Err(e), reported)
      case Ok(None) => Run(Ok(Ok(())), reported)
      case Ok(Some(m)) =>
        var next := if m.start == m.end then m.end + 1 else m.end;
        if m.start == m.end && lastMatch == Some(m.end) then
          Iterate(findAt, matched, content, next, lastMatch, reported)
        else
          match matched(reported, m)
          case Ok(true) => Iterate(findAt, matched, content, next, Some(m.end), reported + [m])
          case Ok(false) => Run(Ok(Ok(())), reported + [m])
          case Err(e) => Run(Ok(Err(e)), reported + [m])
  }

  /**
   * Reported matches lie inside the content, their ends strictly increase,
   * and each starts at or after the end of the one before.
   */
  ghost predicate Ordered(content: seq<Byte>, rs: seq<Range>)
  {
    && (forall i :: 0 <= i < |rs| ==> rs[i].start <= rs[i].end <= |content|)
    && (forall i, j :: 0 <= i < j < |rs| ==> rs[i].end < rs[j].end)
    && (forall i :: 0 <= i < |rs| - 1 ==> rs[i].end <= rs[i + 1].start)
  }

  /** Every match but the last was answered `Ok(true)` by the callback. */
  ghost predicate Continued<E>(matched: Callback<E>, rs: seq<Range>)
  {
    forall i :: 0 <= i < |rs| - 1 ==> matched(rs[..i], rs[i]) == Ok(true)
  }

  /** How the run ended, in terms of the callback's last answer. */
  ghost predicate StopsAsCallbackSays<E, ME>(matched: Callback<E>, run: Run<E, ME>)
  {
    var rs := run.reported;
    && (run.outcome.Err? ==> forall i :: 0 <= i < |rs| ==> matched(rs[..i], rs[i]) == Ok(true))
    && (run.outcome.Ok? && run.outcome.value.Err? ==>
          rs != [] && matched(rs[..|rs| - 1], rs[|rs| - 1]) == Err(run.outcome.value.error))
    && (rs != [] && matched(rs[..|rs| - 1], rs[|rs| - 1]) == Ok(false) ==> run.outcome == Ok(Ok(())))
  }

  /** Every match handed over so far was answered `Ok(true)`. */
  ghost predicate AllContinued<E>(matched: Callback<E>, rs: seq<Range>)
  {
    forall i :: 0 <= i < |rs| ==> matched(rs[..i], rs[i]) == Ok(true)
  }

  /** The state the loop keeps between two `find_at` calls. */
  ghost predicate LoopState<E>(matched: Callback<E>, content: seq<Byte>, lastEnd: nat, lastMatch: Option<nat>, rs: seq<Range>)
  {
    && lastEnd <= |content| + 1
    && Ordered(content, rs)
    && AllContinued(matched, rs)
    && (rs == [] ==> lastMatch == None)
    && (rs != [] ==> lastMatch == Some(rs[|rs| - 1].end) && rs[|rs| - 1].end <= lastEnd)
  }

  /** A match found at `lastEnd` that is not suppressed extends the reported matches in order. */
  lemma OrderedStep<E>(matched: Callback<E>, content: seq<Byte>, lastEnd: nat, lastMatch: Option<nat>, rs: seq<Range>, m: Range)
    requires LoopState(matched, content, lastEnd, lastMatch, rs)
    requires lastEnd <= m.start <= m.end <= |content|
    requires !(m.start == m.end && lastMatch == Some(m.end))
    ensures Ordered(content, rs + [m])
  {
    var rs' := rs + [m];
    forall i, j | 0 <= i < j < |rs'| ensures rs'[i].end < rs'[j].end {
      if j == |rs| && i < |rs| {
        assert rs[i].end <= rs[|rs| - 1].end;
      }
    }
  }

  /** Handing over one more match keeps what the callback answered before. */
  lemma ContinuedStep<E>(matched: Callback<E>, rs: seq<Range>, m: Range)
    requires AllContinued(matched, rs)
    ensures (rs + [m])[..|rs|] == rs
    ensures Continued(matched, rs + [m])
    ensures matched(rs, m) == Ok(true) ==> AllContinued(matched, rs + [m])
  {
    var rs' := rs + [m];
    assert rs'[..|rs|] == rs;
    forall i | 0 <= i < |rs| ensures matched(rs'[..i], rs'[i]) == Ok(true) {
      assert rs'[..i] == rs[..i];
    }
  }

  /** A run that ends without handing over a further match keeps the loop state's guarantees. */
  lemma EndsWithoutMatch<E, ME>(matched: Callback<E>, content: seq<Byte>, lastEnd: nat, lastMatch: Option<nat>,
                                rs: seq<Range>, outcome: Outcome<E, ME>)
    requires LoopState(matched, content, lastEnd, lastMatch, rs)
    requires outcome.Ok? ==> outcome.value.Ok?
    ensures Ordered(content, rs) && Continued(matched, rs)
    ensures StopsAsCallbackSays(matched, Run(outcome, rs))
  {
  }

  /** A run that ends because the callback did not answer `Ok(true)` for the match `m`. */
  lemma EndsAtCallback<E, ME>(matched: Callback<E>, content: seq<Byte>, lastEnd: nat, lastMatch: Option<nat>,
                              rs: seq<Range>, m: Range)
    requires LoopState(matched, content, lastEnd, lastMatch, rs)
    requires lastEnd <= m.start <= m.end <= |content|
    requires !(m.start == m.end && lastMatch == Some(m.end))
    requires matched(rs, m) != Ok(true)
    ensures var outcome: Outcome<E, ME> :=
        match matched(rs, m) case Err(e) => Ok(Err(e)) case Ok(_) => Ok(Ok(()));
      && Ordered(content, rs + [m]) && Continued(matched, rs + [m])
      && StopsAsCallbackSays(matched, Run(outcome, rs + [m]))
  {
    OrderedStep(matched, content, lastEnd, lastMatch, rs, m);
    ContinuedStep(matched, rs, m);
  }

  /** From a loop state, the run hands over matches in order, only ever adding to them. */
  lemma {:induction false} IterateOrdered<E, ME>(findAt: FindAt<ME>, matched: Callback<E>, content: seq<Byte>,
                                                 lastEnd: nat, lastMatch: Option<nat>, rs: seq<Range>)
    requires WellBehaved(findAt)
    requires LoopState(matched, content, lastEnd, lastMatch, rs)
    ensures Ordered(content, Iterate(findAt, matched, content, lastEnd, lastMatch, rs).reported)
    ensures Continued(matched, Iterate(findAt, matched, content, lastEnd, lastMatch, rs).reported)
    ensures StopsAsCallbackSays(matched, Iterate(findAt, matched, content, lastEnd, lastMatch, rs))
    decreases |content| + 1 - lastEnd
  {
    var run := Iterate(findAt, matched, content, lastEnd, lastMatch, rs);
    if lastEnd > |content| || findAt(content, lastEnd).Err? || findAt(content, lastEnd).value.None? {
      assert run.reported == rs && (run.outcome.Ok? ==> run.outcome.value.Ok?);
      EndsWithoutMatch(matched, content, lastEnd, lastMatch, rs, run.outcome);
    } else {
      var m := findAt(content, lastEnd).value.value;
      var next := if m.start == m.end then m.end + 1 else m.end;
      if m.start == m.end && lastMatch == Some(m.end) {
        assert run == Iterate(findAt, matched, content, next, lastMatch, rs);
        IterateOrdered(findAt, matched, content, next, lastMatch, rs);
      } else if matched(rs, m) == Ok(true) {
        assert run == Iterate(findAt, matched, content, next, Some(m.end), rs + [m]);
        OrderedStep(matched, content, lastEnd, lastMatch, rs, m);
        ContinuedStep(matched, rs, m);
        IterateOrdered(findAt, matched, content, next, Some(m.end), rs + [m]);
      } else {
        EndsAtCallback<E, ME>(matched, content, lastEnd, lastMatch, rs, m);
      }
    }
  }

  /**
   * `Matcher::try_find_iter`: hands every match to `matched`, stepping past
   * zero-width matches and skipping an empty match that ends where the last
   * reported match ended.
   */
  method TryFindIter<E, ME>(findAt: FindAt<ME>, content: seq<Byte>, matched: Callback<E>)
    returns (outcome: Outcome<E, ME>, reported: seq<Range>, ghost calls: nat)
    requires WellBehaved(findAt)
    ensures Run(outcome, reported) == Iterate(findAt, matched, content, 0, None, [])
    ensures Ordered(content, reported)
    ensures Continued(matched, reported)
    ensures StopsAsCallbackSays(matched, Run(outcome, reported))
    ensures calls <= |content| + 1
  {
    var lastEnd: nat := 0;
    var lastMatch: Option<nat> := None;
    reported, calls := [], 0;
    IterateOrdered(findAt, matched, content, 0, None, []);
    while true
      invariant lastEnd <= |content| + 1
      invariant calls <= lastEnd
      invariant Iterate(findAt, matched, content, lastEnd, lastMatch, reported) == Iterate(findAt, matched, content, 0, None, [])
      decreases |content| + 1 - lastEnd
    {
      if lastEnd > |content| {
        return Ok(Ok(())), reported, calls;
      }
      calls := calls + 1;
      var found := findAt(content, lastEnd);
      if found.Err? {
        return Err(found.error), reported, calls;
      }
      if found.value.None? {
        return Ok(Ok(())), reported, calls;
      }
      var m := found.value.value;
      if m.start == m.end {
        lastEnd := m.end + 1;
        if Some(m.end) == lastMatch {
          continue;
        }
      } else {
        lastEnd := m.end;
      }
      lastMatch := Some(m.end);
      var answer := matched(reported, m);
      reported := reported + [m];
      match answer
      case Ok(true) =>
      case Ok(false) =>
        return Ok(Ok(())), reported, calls;
      case Err(e) =>
        return Ok(Err(e)), reported, calls;
    }
  }

  /** A failing first `find_at` call ends the run with that error before any callback runs. */
  lemma FirstCallError<E, ME>(findAt: FindAt<ME>, content: seq<Byte>, matched: Callback<E>)
    requires WellBehaved(findAt)
    requires findAt(content, 0).Err?
    ensures Iterate(findAt, matched, content, 0, None, []) == Run(Err(findAt(content, 0).error), [])
  {
  }

  /** A run that fails passes on, unchanged, the error of one of its `find_at` calls. */
  lemma {:induction false} IterateErrorIsMatchers<E, ME>(findAt: FindAt<ME>, matched: Callback<E>, content: seq<Byte>,
                                                        lastEnd: nat, lastMatch: Option<nat>, reported: seq<Range>)
    requires WellBehaved(findAt)
    requires Iterate(findAt, matched, content, lastEnd, lastMatch, reported).outcome.Err?
    ensures exists at: nat :: (lastEnd <= at <= |content| && findAt(content, at).Err?
                               && Iterate(findAt, matched, content, lastEnd, lastMatch, reported).outcome.error
                                  == findAt(content, at).error)
    decreases |content| + 1 - lastEnd
  {
    match findAt(content, lastEnd)
    case Err(e) =>
    case Ok(Some(m)) =>
      var next := if m.start == m.end then m.end + 1 else m.end;
      if m.start == m.end && lastMatch == Some(m.end) {
        IterateErrorIsMatchers(findAt, matched, content, next, lastMatch, reported);
      } else {
        IterateErrorIsMatchers(findAt, matched, content, next, Some(m.end), reported + [m]);
      }
  }

  /** The callback `find_iter` wraps its infallible closure in. */
  function Infallible(matched: (seq<Range>, Range) -> bool): (cb: Callback<()>)
    ensures forall rs, m :: cb(rs, m) == Ok(matched(rs, m))
  {
    (rs: seq<Range>, m: Range) => Ok(matched(rs, m))
  }

  /**
   * `Matcher::find_iter`: `try_find_iter` with a closure that never fails,
   * so only the matcher's error can come back.
   */
  method FindIter<ME>(findAt: FindAt<ME>, content: seq<Byte>, matched: (seq<Range>, Range) -> bool)
    returns (outcome: Result<(), ME>, reported: seq<Range>)
    requires WellBehaved(findAt)
    ensures outcome.Err? <==> Iterate(findAt, Infallible(matched), content, 0, None, []).outcome.Err?
    ensures outcome.Err? ==> outcome.error == Iterate(findAt, Infallible(matched), content, 0, None, []).outcome.error
    ensures outcome.Err? ==> exists at: nat :: at <= |content| && findAt(content, at).Err? && outcome.error == findAt(content, at).error
    ensures reported == Iterate(findAt, Infallible(matched), content, 0, None, []).reported
    ensures Ordered(content, reported)
    ensures forall i :: 0 <= i < |reported| - 1 ==> matched(reported[..i], reported[i])
    ensures outcome.Err? ==> forall i :: 0 <= i < |reported| ==> matched(reported[..i], reported[i])
  {
    var r;
    ghost var calls;
    r, reported, calls := TryFindIter(findAt, content, Infallible(matched));
    match r
    case Err(e) =>
      IterateErrorIsMatchers(findAt, Infallible(matched), content, 0, None, []);
      outcome := Err(e);
    case Ok(Ok(_)) => outcome := Ok(());
    case Ok(Err(_)) => assert false;
  }
}
