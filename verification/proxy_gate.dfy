/** Concurrent requests to the proxy of `src/server/web/router.ts`. Node runs
    one turn of the event loop at a time, so a handler runs without interruption
    between two `await`s. For the in-flight set `otwDL` only two turns matter: the
    one that checks the local file's absence, tests `otwDL.has` and calls
    `otwDL.add` with no `await` in between, and the one that ends the fetch phase
    with `otwDL.delete`. */
module ProxyGate {
  import Router
  import opened Wrappers
  import opened Strings

  /** Where one request stands. */
  datatype Phase = Waiting | Fetching(domain: string) | Done

  /** The in-flight set and the phase of every request. */
  datatype State = State(inFlight: set<string>, phases: seq<Phase>)

  /** One turn: request `i` reaches the gate for `domain` (after learning whether
      the file exists), or request `i` leaves its fetch phase (`mkdirFailed` when
      it leaves through a failing `mkdir`). */
  datatype Step =
    | Admit(i: nat, domain: string, fileExists: bool)
    | Finish(i: nat, mkdirFailed: bool)

  /** Whether leaving the fetch phase removes the domain. */
  predicate Releases(variant: Router.Variant, mkdirFailed: bool) {
    !(variant == Router.AsWritten && mkdirFailed)
  }

  /** The effect of one turn; a step for a request in the wrong phase changes
      nothing. */
  function Next(variant: Router.Variant, s: State, step: Step): (s': State)
    ensures |s'.phases| == |s.phases|
    ensures step.Admit? && step.i < |s.phases| && s.phases[step.i] == Waiting ==>
              (s'.phases[step.i] == Fetching(step.domain) <==>
                 !step.fileExists && step.domain !in s.inFlight)
    ensures forall j :: 0 <= j < |s.phases| && j != step.i ==> s'.phases[j] == s.phases[j]
  {
    match step
    case Admit(i, d, exists_) =>
      if i < |s.phases| && s.phases[i] == Waiting then
        if exists_ || d in s.inFlight then State(s.inFlight, s.phases[i := Done])
        else State(s.inFlight + {d}, s.phases[i := Fetching(d)])
      else s
    case Finish(i, failed) =>
      if i < |s.phases| && s.phases[i].Fetching? then
        var d := s.phases[i].domain;
        State(if Releases(variant, failed) then s.inFlight - {d} else s.inFlight, s.phases[i := Done])
      else s
  }

  /** A schedule of turns, in order. */
  function Run(variant: Router.Variant, s: State, steps: seq<Step>): (s': State)
    ensures |s'.phases| == |s.phases|
    decreases |steps|
  {
    if |steps| == 0 then s else Run(variant, Next(variant, s, steps[0]), steps[1..])
  }

  /** A schedule of two turns. */
  lemma RunTwo(variant: Router.Variant, s: State, a: Step, b: Step)
    ensures Run(variant, s, [a, b]) == Next(variant, Next(variant, s, a), b)
  {
    var s1 := Next(variant, s, a);
    assert [a, b][1..] == [b];
    assert Run(variant, s, [a, b]) == Run(variant, s1, [b]);
    assert [b][1..] == [];
    assert Run(variant, s1, [b]) == Run(variant, Next(variant, s1, b), []);
  }

  /** Every fetching request holds its domain in the set. */
  predicate Held(s: State) {
    forall i :: 0 <= i < |s.phases| && s.phases[i].Fetching? ==> s.phases[i].domain in s.inFlight
  }

  /** Single flight: no two requests fetch the same domain at once. */
  predicate SingleFlight(s: State) {
    forall i, j :: 0 <= i < |s.phases| && 0 <= j < |s.phases| && i != j &&
                   s.phases[i].Fetching? && s.phases[j].Fetching? ==>
                   s.phases[i].domain != s.phases[j].domain
  }

  /** The set holds exactly the domains being fetched. */
  predicate Exact(s: State) {
    forall d :: d in s.inFlight ==> exists i :: 0 <= i < |s.phases| && s.phases[i] == Fetching(d)
  }

  predicate Inv(s: State) { Held(s) && SingleFlight(s) }

  /** No request has started. */
  function Init(n: nat): (s: State)
    ensures Inv(s) && Exact(s) && |s.phases| == n
  {
    State({}, seq(n, _ => Waiting))
  }

  /** Every turn keeps the invariant. */
  lemma NextPreserves(variant: Router.Variant, s: State, step: Step)
    requires Inv(s)
    ensures Inv(Next(variant, s, step))
  {
    var s' := Next(variant, s, step);
    match step
    case Admit(i, d, e) =>
      if i < |s.phases| && s.phases[i] == Waiting && !e && d !in s.inFlight {
        forall j | 0 <= j < |s'.phases| && j != i && s'.phases[j].Fetching?
          ensures s'.phases[j].domain != d
        {
          assert s.phases[j].domain in s.inFlight;
        }
      }
    case Finish(i, failed) =>
      if i < |s.phases| && s.phases[i].Fetching? {
        var d := s.phases[i].domain;
        forall j | 0 <= j < |s'.phases| && s'.phases[j].Fetching?
          ensures s'.phases[j].domain in s'.inFlight
        {
          assert s.phases[j].domain != d;
        }
      }
  }

  /** Every schedule keeps the invariant. */
  lemma {:induction false} RunPreserves(variant: Router.Variant, s: State, steps: seq<Step>)
    requires Inv(s)
    ensures Inv(Run(variant, s, steps))
    decreases |steps|
  {
    if |steps| > 0 {
      NextPreserves(variant, s, steps[0]);
      RunPreserves(variant, Next(variant, s, steps[0]), steps[1..]);
    }
  }

  /** From the start, no schedule ever has two requests fetching the same domain. */
  lemma NoDuplicateFetch(variant: Router.Variant, n: nat, steps: seq<Step>)
    ensures SingleFlight(Run(variant, Init(n), steps))
  {
    RunPreserves(variant, Init(n), steps);
  }

  /** Corrected, every turn keeps the set exact. */
  lemma NextExact(s: State, step: Step)
    requires Inv(s) && Exact(s)
    ensures Exact(Next(Router.Corrected, s, step))
  {
    var s' := Next(Router.Corrected, s, step);
    forall d | d in s'.inFlight
      ensures exists k :: 0 <= k < |s'.phases| && s'.phases[k] == Fetching(d)
    {
      match step
      case Admit(i, d0, e) =>
        if d == d0 && i < |s.phases| && s.phases[i] == Waiting && !e && d0 !in s.inFlight {
          assert s'.phases[i] == Fetching(d);
        } else {
          var k :| 0 <= k < |s.phases| && s.phases[k] == Fetching(d);
          assert s'.phases[k] == Fetching(d);
        }
      case Finish(i, failed) =>
        var k :| 0 <= k < |s.phases| && s.phases[k] == Fetching(d);
        if i < |s.phases| && s.phases[i].Fetching? {
          assert k != i;
        }
        assert s'.phases[k] == Fetching(d);
    }
  }

  /** Corrected, every schedule keeps the set exact: a domain is in flight only
      while some request fetches it. */
  lemma {:induction false} RunExact(s: State, steps: seq<Step>)
    requires Inv(s) && Exact(s)
    ensures Exact(Run(Router.Corrected, s, steps))
    decreases |steps|
  {
    if |steps| > 0 {
      NextExact(s, steps[0]);
      NextPreserves(Router.Corrected, s, steps[0]);
      RunExact(Next(Router.Corrected, s, steps[0]), steps[1..]);
    }
  }

  /** As written, one failing `mkdir` leaves a domain in the set with no request
      fetching it, and the next request for it that finds no file is turned away. */
  lemma StaleDomainAsWritten(d: string)
    ensures var s := Run(Router.AsWritten, Init(2), [Admit(0, d, false), Finish(0, true)]);
            && !Exact(s)
            && Next(Router.AsWritten, s, Admit(1, d, false)).phases[1] == Done
  {
    var s0 := Init(2);
    var s1 := Next(Router.AsWritten, s0, Admit(0, d, false));
    assert s1.phases[0] == Fetching(d);
    var s2 := Next(Router.AsWritten, s1, Finish(0, true));
    RunTwo(Router.AsWritten, s0, Admit(0, d, false), Finish(0, true));
    assert s2.phases == [Done, Waiting];
    assert d in s2.inFlight;
  }

  /** The gate is keyed on the origin URL, but the cache file on the game and the
      path: a starrails request for the CN server and one for another server,
      both for path `u`, have different origins, so both pass the gate and fetch
      at once, and each writes and renames the same temporary file. */
  lemma CrossServerSharedTemp(variant: Router.Variant, u: string, server: string, raw: string,
                              decode: string -> Option<string>, io1: Router.ProxyIO, io2: Router.ProxyIO)
    requires server != "cn"
    requires decode(raw) == Some(u)
    requires !Contains(u, Router.NoticeToken) && !Contains(u, Router.ServerInfoToken)
    requires !io1.fileExists && io1.mkdirOk && !io2.fileExists && io2.mkdirOk
    ensures var d1 := Router.DomainFor(Router.StarRail, "cn", u);
            var d2 := Router.DomainFor(Router.StarRail, server, u);
            var s := Run(variant, Init(2), [Admit(0, d1, false), Admit(1, d2, false)]);
            && d1 != d2
            && s.phases == [Fetching(d1), Fetching(d2)]
            && Inv(s)
    // each request fetches while the other holds its own origin
    ensures var d1 := Router.DomainFor(Router.StarRail, "cn", u);
            var d2 := Router.DomainFor(Router.StarRail, server, u);
            && Router.Get(d1) in Router.Handle(variant, Router.Request(Router.StarRail, "cn", raw), decode, {d2}, io1).effects
            && Router.Get(d2) in Router.Handle(variant, Router.Request(Router.StarRail, server, raw), decode, {d1}, io2).effects
  {
    var d1 := Router.DomainFor(Router.StarRail, "cn", u);
    var d2 := Router.DomainFor(Router.StarRail, server, u);
    assert |d1| != |d2|;
    Router.TestingModeIff(Router.StarRail, "cn", u);
    Router.TestingModeIff(Router.StarRail, server, u);
    var s0 := Init(2);
    var s1 := Next(variant, s0, Admit(0, d1, false));
    assert s1.phases == [Fetching(d1), Waiting];
    var s2 := Next(variant, s1, Admit(1, d2, false));
    assert s2.phases == [Fetching(d1), Fetching(d2)];
    RunTwo(variant, s0, Admit(0, d1, false), Admit(1, d2, false));
    NoDuplicateFetch(variant, 2, [Admit(0, d1, false), Admit(1, d2, false)]);
    RunPreserves(variant, s0, [Admit(0, d1, false), Admit(1, d2, false)]);
  }

  /** A request handled with no other turn in between goes through the gate
      turn and then the end of its fetch phase: the in-flight set it leaves is
      the sequential handler's. */
  lemma HandleIsTwoTurns(variant: Router.Variant, req: Router.Request,
                         decode: string -> Option<string>, inFlight: set<string>,
                         io: Router.ProxyIO)
    requires decode(req.rawPath).Some?
    requires !Router.TestingBlocked(Router.DomainFor(req.game, req.server, decode(req.rawPath).value))
    ensures var d := Router.DomainFor(req.game, req.server, decode(req.rawPath).value);
            var s := Run(variant, State(inFlight, [Waiting]), [Admit(0, d, io.fileExists), Finish(0, !io.mkdirOk)]);
            && s.inFlight == Router.Handle(variant, req, decode, inFlight, io).inFlight
            && s.phases == [Done]
  {
    var d := Router.DomainFor(req.game, req.server, decode(req.rawPath).value);
    var s0 := State(inFlight, [Waiting]);
    var s1 := Next(variant, s0, Admit(0, d, io.fileExists));
    var s2 := Next(variant, s1, Finish(0, !io.mkdirOk));
    RunTwo(variant, s0, Admit(0, d, io.fileExists), Finish(0, !io.mkdirOk));
    if !io.fileExists && d !in inFlight {
      assert s1 == State(inFlight + {d}, [Fetching(d)]);
    }
  }
}
