/** The retry loop of `forceDownload` in `src/util/library.ts`. The network, the
    file system and the clock are outside the model: `net(i)` is the outcome of
    the `i`-th `axios.get`, and the file operations the function performs are
    recorded as a trace of effects. */
module Download {
  import opened Wrappers
  import Library

  /** What one attempt produced. */
  datatype Attempt =
      /** `axios.get` returned a response with this status; `writeOk` says whether
          the following `fs.writeFile` succeeded (only a 200 reaches it). */
    | Response(status: int, writeOk: bool)
      /** `axios.get` threw; `status` is the error's HTTP status, absent for
          transport errors. */
    | Thrown(errorStatus: Option<int>)

  /** File-system, network and timer operations, in the order they are issued. */
  datatype Effect = Unlink(path: string) | Get(link: string) | WriteFile(path: string) | Sleep(ms: int)

  /** How the loop ended: a 200 was answered (`written` says whether
      `fs.writeFile` succeeded), a 404 was seen, or the budget ran out. */
  datatype End = Saved(written: bool) | NotFound | Exhausted

  datatype Run = Run(end: End, effects: seq<Effect>)

  /** `sleep(n)` waits `1000 * n` milliseconds. */
  function SleepMs(seconds: int): int { 1000 * seconds }

  /** The pause after a thrown, non-404 attempt: `sleep(5)`. */
  const RetryDelayMs: int := SleepMs(5)

  /** Either way of reporting 404: a returned status or a thrown error's status. */
  predicate Is404(a: Attempt) {
    (a.Response? && a.status == 404) || (a.Thrown? && a.errorStatus == Some(404))
  }

  predicate Is200(a: Attempt) { a.Response? && a.status == 200 }

  /** An attempt that ends the loop. */
  predicate Terminal(a: Attempt) { Is404(a) || Is200(a) }

  /** Attempts `lo .. hi - 1` all ask for another try. */
  predicate AllRetry(net: nat -> Attempt, lo: nat, hi: int) {
    forall j: nat :: lo <= j < hi ==> !Terminal(net(j))
  }

  /** The number of `axios.get` calls in a trace. */
  function Gets(effects: seq<Effect>): nat {
    if |effects| == 0 then 0
    else (if effects[0].Get? then 1 else 0) + Gets(effects[1..])
  }

  /** Every pause lasts `sleep(5)` and comes straight after a request. */
  predicate PausesFollowRequests(effects: seq<Effect>) {
    forall k :: 0 <= k < |effects| && effects[k].Sleep? ==>
      effects[k].ms == 5000 && k > 0 && effects[k - 1].Get?
  }

  /** Every `axios.get` in the trace asks for `link`. */
  predicate RequestsOnly(effects: seq<Effect>, link: string) {
    forall k :: 0 <= k < |effects| && effects[k].Get? ==> effects[k].link == link
  }

  /** `while (attempt < maxRetries) { … }`, starting from `attempt`. */
  function AttemptLoop(link: string, path: string, attempt: nat, maxRetries: int,
                       net: nat -> Attempt): (r: Run)
    ensures Gets(r.effects) <= if attempt < maxRetries then maxRetries - attempt else 0
    ensures forall k :: 0 <= k < |r.effects| ==> !r.effects[k].Unlink?
    ensures forall k :: 0 <= k < |r.effects| && r.effects[k].WriteFile? ==>
              r.effects[k].path == path && r.end.Saved?
    ensures PausesFollowRequests(r.effects)
    ensures RequestsOnly(r.effects, link)
    ensures |r.effects| > 0 ==> r.effects[0] == Get(link)
    decreases if attempt < maxRetries then maxRetries - attempt else 0
  {
    if attempt >= maxRetries then Run(Exhausted, [])
    else
      var a := net(attempt);
      if Is404(a) then
        GetsOne(link, []);
        assert [Get(link)] + [] == [Get(link)];
        Run(NotFound, [Get(link)])
      else if Is200(a) then
        GetsOne(link, [WriteFile(path)]);
        assert [Get(link)] + [WriteFile(path)] == [Get(link), WriteFile(path)];
        Run(Saved(a.writeOk), [Get(link), WriteFile(path)])
      else
        var rest := AttemptLoop(link, path, attempt + 1, maxRetries, net);
        var pause := if a.Thrown? then [Sleep(RetryDelayMs)] else [];
        RetryStep(link, path, pause, rest);
        Run(rest.end, [Get(link)] + pause + rest.effects)
  }

  /** A retried attempt, its optional pause, then the rest of the loop. */
  lemma RetryStep(link: string, path: string, pause: seq<Effect>, rest: Run)
    requires pause == [] || pause == [Sleep(RetryDelayMs)]
    requires forall k :: 0 <= k < |rest.effects| ==> !rest.effects[k].Unlink?
    requires forall k :: 0 <= k < |rest.effects| && rest.effects[k].WriteFile? ==>
               rest.effects[k].path == path && rest.end.Saved?
    requires PausesFollowRequests(rest.effects)
    requires RequestsOnly(rest.effects, link)
    requires |rest.effects| > 0 ==> rest.effects[0] == Get(link)
    ensures var e := [Get(link)] + pause + rest.effects;
            && Gets(e) == 1 + Gets(rest.effects)
            && (forall k :: 0 <= k < |e| ==> !e[k].Unlink?)
            && (forall k :: 0 <= k < |e| && e[k].WriteFile? ==> e[k].path == path && rest.end.Saved?)
            && PausesFollowRequests(e)
            && RequestsOnly(e, link)
            && e[0] == Get(link)
  {
    var head := [Get(link)] + pause;
    var e := head + rest.effects;
    GetsOne(link, pause);
    GetsAppend(head, rest.effects);
    forall k | 0 <= k < |e| && e[k].Sleep?
      ensures e[k].ms == 5000 && k > 0 && e[k - 1].Get?
    {
      if k >= |head| {
        assert e[k] == rest.effects[k - |head|];
      }
    }
    forall k | 0 <= k < |e| && e[k].Get?
      ensures e[k].link == link
    {
      if k >= |head| {
        assert e[k] == rest.effects[k - |head|];
      }
    }
  }

  /** The number of pauses in a trace. */
  function Sleeps(effects: seq<Effect>): nat {
    if |effects| == 0 then 0
    else (if effects[0].Sleep? then 1 else 0) + Sleeps(effects[1..])
  }

  /** The attempts `lo .. hi - 1` that threw with a status other than 404: the
      `catch` branch, the only one that sleeps before the next try. */
  function Pausing(net: nat -> Attempt, lo: nat, hi: nat): nat
    decreases hi - lo
  {
    if lo >= hi then 0
    else (if net(lo).Thrown? && !Is404(net(lo)) then 1 else 0) + Pausing(net, lo + 1, hi)
  }

  /** The loop pauses once after every attempt that threw without a 404, and
      never after a returned status: a returned non-200, non-404 is retried at
      once. */
  lemma {:induction false} PauseCount(link: string, path: string, attempt: nat, maxRetries: int,
                                      net: nat -> Attempt)
    ensures var r := AttemptLoop(link, path, attempt, maxRetries, net);
            Sleeps(r.effects) == Pausing(net, attempt, attempt + Gets(r.effects))
    decreases if attempt < maxRetries then maxRetries - attempt else 0
  {
    if attempt < maxRetries {
      var a := net(attempt);
      var r := AttemptLoop(link, path, attempt, maxRetries, net);
      if Is404(a) {
        assert r.effects == [Get(link)];
        assert Sleeps(r.effects) == 0 by { assert r.effects[1..] == []; }
        assert Pausing(net, attempt + 1, attempt + 1) == 0;
      } else if Is200(a) {
        assert r.effects == [Get(link), WriteFile(path)];
        assert Sleeps([WriteFile(path)]) == 0 by { assert [WriteFile(path)][1..] == []; }
        assert r.effects[1..] == [WriteFile(path)];
        GetsOne(link, [WriteFile(path)]);
        assert [Get(link)] + [WriteFile(path)] == r.effects;
        assert Pausing(net, attempt + 1, attempt + 1) == 0;
      } else {
        var rest := AttemptLoop(link, path, attempt + 1, maxRetries, net);
        var pause := if a.Thrown? then [Sleep(RetryDelayMs)] else [];
        PauseCount(link, path, attempt + 1, maxRetries, net);
        RetryStep(link, path, pause, rest);
        SleepsStep(link, pause, rest.effects);
      }
    }
  }

  /** A request and its optional pause add that pause to the rest. */
  lemma SleepsStep(link: string, pause: seq<Effect>, rest: seq<Effect>)
    requires pause == [] || pause == [Sleep(RetryDelayMs)]
    ensures Sleeps([Get(link)] + pause + rest) == |pause| + Sleeps(rest)
  {
    var e := [Get(link)] + pause + rest;
    assert e[1..] == pause + rest;
    if pause != [] {
      assert (pause + rest)[1..] == rest;
    }
  }

  /** One request, optionally followed by a pause or a write, counts once. */
  lemma GetsOne(link: string, tail: seq<Effect>)
    requires |tail| <= 1 && forall k :: 0 <= k < |tail| ==> !tail[k].Get?
    ensures Gets([Get(link)] + tail) == 1
  {
    var s := [Get(link)] + tail;
    assert s[1..] == tail;
    if |tail| == 1 {
      assert tail[1..] == [];
    }
  }

  lemma {:induction false} GetsAppend(a: seq<Effect>, b: seq<Effect>)
    ensures Gets(a + b) == Gets(a) + Gets(b)
    decreases |a|
  {
    if |a| > 0 {
      assert (a + b)[1..] == a[1..] + b;
      GetsAppend(a[1..], b);
    } else {
      assert a + b == b;
    }
  }

  /** When attempt `i` is the first to end the loop, the loop ends there, with
      `Saved` for a 200 and `NotFound` for a 404, after exactly the requests
      `attempt .. i`. */
  lemma {:induction false} FirstTerminalDecides(link: string, path: string, attempt: nat,
                                                maxRetries: int, net: nat -> Attempt, i: nat)
    requires attempt <= i < maxRetries
    requires Terminal(net(i)) && AllRetry(net, attempt, i)
    ensures AttemptLoop(link, path, attempt, maxRetries, net).end
            == if Is404(net(i)) then NotFound else Saved(net(i).writeOk)
    ensures Gets(AttemptLoop(link, path, attempt, maxRetries, net).effects) == i - attempt + 1
    decreases i - attempt
  {
    if attempt < i {
      assert !Terminal(net(attempt));
      FirstTerminalDecides(link, path, attempt + 1, maxRetries, net, i);
      var a := net(attempt);
      var pause := if a.Thrown? then [Sleep(RetryDelayMs)] else [];
      GetsOne(link, pause);
    } else {
      GetsOne(link, [WriteFile(path)]);
      GetsOne(link, []);
      assert [Get(link)] + [WriteFile(path)] == [Get(link), WriteFile(path)];
      assert [Get(link)] + [] == [Get(link)];
    }
  }

  /** When every attempt within the budget asks for another try, the loop uses
      the whole budget and ends `Exhausted`. */
  lemma {:induction false} AllRetryExhausts(link: string, path: string, attempt: nat,
                                            maxRetries: int, net: nat -> Attempt)
    requires AllRetry(net, attempt, maxRetries)
    ensures AttemptLoop(link, path, attempt, maxRetries, net).end == Exhausted
    ensures Gets(AttemptLoop(link, path, attempt, maxRetries, net).effects)
            == if attempt < maxRetries then maxRetries - attempt else 0
    decreases if attempt < maxRetries then maxRetries - attempt else 0
  {
    if attempt < maxRetries {
      AllRetryExhausts(link, path, attempt + 1, maxRetries, net);
      var a := net(attempt);
      var pause := if a.Thrown? then [Sleep(RetryDelayMs)] else [];
      GetsOne(link, pause);
    }
  }

  /** The loop ends `Saved` exactly when some attempt within the budget answers
      200 and every earlier one asked for another try; a 404 anywhere before it
      ends the loop first. */
  lemma {:induction false} SavedIff(link: string, path: string, attempt: nat,
                                    maxRetries: int, net: nat -> Attempt)
    ensures AttemptLoop(link, path, attempt, maxRetries, net).end.Saved? <==>
      exists i: nat :: attempt <= i < maxRetries && Is200(net(i)) && AllRetry(net, attempt, i)
    decreases if attempt < maxRetries then maxRetries - attempt else 0
  {
    if attempt < maxRetries {
      SavedIff(link, path, attempt + 1, maxRetries, net);
      var a := net(attempt);
      if Is200(a) {
        assert AllRetry(net, attempt, attempt);
      } else if !Is404(a) {
        if exists i: nat :: attempt + 1 <= i < maxRetries && Is200(net(i)) && AllRetry(net, attempt + 1, i) {
          var i: nat :| attempt + 1 <= i < maxRetries && Is200(net(i)) && AllRetry(net, attempt + 1, i);
          assert AllRetry(net, attempt, i);
        }
      }
    }
  }

  /** `forceDownload(link, fileFullPath, maxRetries)`: both arguments are cleaned
      with `trimAny(removeControlChars(…))`, an existing destination is unlinked,
      and the loop writes straight to the destination (no temporary file). Every
      request asks for the cleaned link, and the unlink and every write go to the
      cleaned path. */
  function ForceDownload(link: string, fileFullPath: string, maxRetries: int,
                         fileExists: bool, net: nat -> Attempt): (r: Run)
    ensures Gets(r.effects) <= if maxRetries > 0 then maxRetries else 0
    ensures fileExists <==> |r.effects| > 0 && r.effects[0].Unlink?
    ensures fileExists ==> r.effects[0] == Unlink(CleanArg(fileFullPath))
    ensures forall k :: 0 <= k < |r.effects| && r.effects[k].Unlink? ==> k == 0
    ensures RequestsOnly(r.effects, CleanArg(link))
    ensures |r.effects| > 0 && !fileExists ==> r.effects[0] == Get(CleanArg(link))
    ensures forall k :: 0 <= k < |r.effects| && r.effects[k].WriteFile? ==>
              r.effects[k].path == CleanArg(fileFullPath) && r.end.Saved?
  {
    var path := CleanArg(fileFullPath);
    var loop := AttemptLoop(CleanArg(link), path, 0, maxRetries, net);
    var pre := if fileExists then [Unlink(path)] else [];
    UnlinkThenLoop(pre, path, CleanArg(link), loop);
    Run(loop.end, pre + loop.effects)
  }

  /** The optional unlink followed by the loop's trace. */
  lemma UnlinkThenLoop(pre: seq<Effect>, path: string, link: string, loop: Run)
    requires pre == [] || pre == [Unlink(path)]
    requires forall k :: 0 <= k < |loop.effects| ==> !loop.effects[k].Unlink?
    requires forall k :: 0 <= k < |loop.effects| && loop.effects[k].WriteFile? ==>
               loop.effects[k].path == path && loop.end.Saved?
    requires RequestsOnly(loop.effects, link)
    requires |loop.effects| > 0 ==> loop.effects[0] == Get(link)
    ensures var e := pre + loop.effects;
            && Gets(e) == Gets(loop.effects)
            && (pre != [] <==> |e| > 0 && e[0].Unlink?)
            && (pre != [] ==> e[0] == Unlink(path))
            && (forall k :: 0 <= k < |e| && e[k].Unlink? ==> k == 0)
            && (forall k :: 0 <= k < |e| && e[k].WriteFile? ==> e[k].path == path && loop.end.Saved?)
            && RequestsOnly(e, link)
            && (|e| > 0 && pre == [] ==> e[0] == Get(link))
  {
    var e := pre + loop.effects;
    GetsAppend(pre, loop.effects);
    if pre != [] {
      assert Gets(pre) == 0 by { assert pre[1..] == []; }
    }
    assert forall k :: |pre| <= k < |e| ==> e[k] == loop.effects[k - |pre|];
  }

  /** `trimAny(removeControlChars(x))`, applied to both arguments: no control
      character is left, and no space at either end. */
  function CleanArg(x: string): (r: string)
    ensures Library.NoControl(r)
    ensures |r| > 0 ==> r[0] != ' ' && r[|r| - 1] != ' '
  {
    var c := Library.RemoveControlChars(x);
    TrimKeepsClean(c);
    Library.TrimAny(c, " ")
  }

  /** Trimming a string without control characters leaves none. */
  lemma TrimKeepsClean(c: string)
    requires Library.NoControl(c)
    ensures Library.NoControl(Library.TrimAny(c, " "))
  {
    var r := Library.TrimAny(c, " ");
    var i: nat, j: nat :| Library.CutOnlyFrom(c, " ", i, j) && r == c[i..j];
    assert forall k :: 0 <= k < |r| ==> r[k] == c[i + k];
  }

  /** Cleaning an already cleaned argument changes nothing. */
  lemma CleanArgIdempotent(x: string)
    ensures CleanArg(CleanArg(x)) == CleanArg(x)
  {
    var r := CleanArg(x);
    Library.NoControlKept(r);
  }

  /** The boolean `forceDownload` resolves to: true only after a saved 200, so a
      404 and an exhausted budget both give false. */
  function Returned(r: Run): bool { r.end.Saved? }

  /** The destination holds the body of the 200 once the run is over. */
  predicate Wrote(r: Run) { r.end.Saved? && r.end.written }

  /** The loop as the source writes it: a counter, a 404 exit, a 200 exit and
      retries; returns the boolean result and the number of requests made. */
  method AttemptLoopImperative(link: string, path: string, maxRetries: int, net: nat -> Attempt)
    returns (ok: bool, requests: nat)
    ensures ok == Returned(AttemptLoop(link, path, 0, maxRetries, net))
    ensures requests == Gets(AttemptLoop(link, path, 0, maxRetries, net).effects)
  {
    var attempt: nat := 0;
    requests := 0;
    while attempt < maxRetries
      invariant AllRetry(net, 0, attempt)
      invariant requests == attempt
      invariant attempt == 0 || attempt <= maxRetries
      decreases maxRetries - attempt
    {
      var a := net(attempt);
      requests := requests + 1;
      if Is404(a) {
        FirstTerminalDecides(link, path, 0, maxRetries, net, attempt);
        return false, requests;
      }
      if !Is200(a) {
        attempt := attempt + 1;
        continue;
      }
      FirstTerminalDecides(link, path, 0, maxRetries, net, attempt);
      return true, requests;
    }
    AllRetryExhausts(link, path, 0, maxRetries, net);
    ok := false;
  }

  /** With a budget of three, a permanent 404 costs one request. */
  lemma Permanent404(link: string, path: string, net: nat -> Attempt)
    requires forall i: nat :: net(i) == Thrown(Some(404))
    ensures AttemptLoop(link, path, 0, 3, net).end == NotFound
    ensures Gets(AttemptLoop(link, path, 0, 3, net).effects) == 1
  {
    FirstTerminalDecides(link, path, 0, 3, net, 0);
  }

  /** With a budget of three, persistent transient failures cost three requests
      and end with false. */
  lemma PersistentTransient(link: string, path: string, net: nat -> Attempt)
    requires forall i: nat :: !Terminal(net(i))
    ensures AttemptLoop(link, path, 0, 3, net).end == Exhausted
    ensures Gets(AttemptLoop(link, path, 0, 3, net).effects) == 3
  {
    AllRetryExhausts(link, path, 0, 3, net);
  }

  /** A 200 whose write fails still makes `forceDownload` resolve to true. */
  lemma SavedEvenIfWriteFails(link: string, path: string, maxRetries: int, net: nat -> Attempt)
    requires 0 < maxRetries && net(0) == Response(200, false)
    ensures Returned(AttemptLoop(link, path, 0, maxRetries, net))
    ensures !Wrote(AttemptLoop(link, path, 0, maxRetries, net))
  {
  }

  /** A budget of zero or less makes no request and resolves to false. */
  lemma NoBudgetNoRequest(link: string, fileFullPath: string, maxRetries: int, fileExists: bool,
                          net: nat -> Attempt)
    requires maxRetries <= 0
    ensures Gets(ForceDownload(link, fileFullPath, maxRetries, fileExists, net).effects) == 0
    ensures !Returned(ForceDownload(link, fileFullPath, maxRetries, fileExists, net))
  {
  }

  /** The status code the crawler's comparisons (`== 0`, `== -1`) were written
      for: 0 after a saved 200, -1 after a 404, 1 when the budget ran out. */
  function ResultCode(r: Run): (code: int)
    ensures code == 0 <==> Returned(r)
    ensures code == -1 <==> r.end == NotFound
  {
    match r.end
    case Saved(_) => 0
    case NotFound => -1
    case Exhausted => 1
  }
}
