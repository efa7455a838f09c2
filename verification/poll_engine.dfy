/**
 The change detector of `ListenForContainerLogs` (internal/api.go). Each
 tick fetches the whole log buffer; the loop keeps the last observed
 fingerprint and the fingerprint last sent to the front end, and emits the
 full buffer as a "new logs" event when the observed fingerprint is
 non-empty and differs from the one last sent.

 The ticker becomes a finite sequence of fetch results and the loop a fold
 of `Step` over it; the Docker fetch and the event emission are the inputs
 and outputs of that fold. The fold is stated for any fingerprint function,
 so that its laws show which facts about the fingerprint they rely on; the
 loop itself (`Tick`, `Listen`) uses `LogTail.Fingerprint`, the function of
 the source.
 */
module PollEngine {
  import opened LogTail

  datatype Option<T> = None | Some(value: T)

  /** Outcome of one `containerLogs` call: the buffer, or an error. */
  datatype FetchResult = Fetched(logs: string) | FetchFailed(error: string)

  /** `lastLogTimeStamp` and `lastSentLogTimeStamp` of the polling loop. */
  datatype PollState = PollState(lastObserved: string, lastSent: string)

  /** The state after one tick and the text it emitted, if any. */
  datatype StepResult = StepResult(state: PollState, emitted: Option<string>)

  /** The state after a run of ticks and the texts emitted, in order. */
  datatype RunResult = RunResult(state: PollState, emitted: seq<string>)

  /** Both fingerprints start empty. */
  const Initial: PollState := PollState("", "")

  /** Every fingerprint the function computes is well formed. */
  ghost predicate WellFormedOutputs(fingerprint: string -> string)
  {
    forall logs :: WellFormedFingerprint(fingerprint(logs))
  }

  /**
   The invariant of every state the loop reaches from `Initial`: whatever
   was observed has been sent, and it is a well-formed fingerprint.
   */
  predicate Consistent(st: PollState)
  {
    && st.lastSent == st.lastObserved
    && WellFormedFingerprint(st.lastObserved)
  }

  /** One iteration of the polling loop. */
  function Step(fingerprint: string -> string, st: PollState, fetch: FetchResult): (r: StepResult)
    ensures fetch.FetchFailed? ==> r == StepResult(st, None)
    ensures fetch.Fetched? && fingerprint(fetch.logs) == "" ==> r.state.lastObserved == st.lastObserved
    ensures fetch.Fetched? && fingerprint(fetch.logs) != "" ==> r.state.lastObserved == fingerprint(fetch.logs)
    ensures st.lastObserved != "" ==> r.state.lastObserved != ""
    ensures r.emitted.Some? <==> fetch.Fetched? && r.state.lastObserved != "" && r.state.lastObserved != st.lastSent
    ensures r.emitted.Some? ==> r.emitted.value == fetch.logs && r.state.lastSent == r.state.lastObserved
    ensures r.emitted.None? ==> r.state.lastSent == st.lastSent
  {
    match fetch
    case FetchFailed(_) => StepResult(st, None)
    case Fetched(logs) =>
      var fp := fingerprint(logs);
      var observed := if fp != "" then fp else st.lastObserved;
      if observed != st.lastSent && observed != "" then
        StepResult(PollState(observed, observed), Some(logs))
      else
        StepResult(PollState(observed, st.lastSent), None)
  }

  /** The texts a step emitted, as a sequence of zero or one element. */
  function Emitted(r: StepResult): seq<string>
  {
    if r.emitted.Some? then [r.emitted.value] else []
  }

  /** True when every fetch in `fetches` failed. */
  predicate AllFailed(fetches: seq<FetchResult>)
  {
    forall i :: 0 <= i < |fetches| ==> fetches[i].FetchFailed?
  }

  /** The polling loop over a finite sequence of ticks, starting from `st`. */
  function Run(fingerprint: string -> string, st: PollState, fetches: seq<FetchResult>): (r: RunResult)
    ensures |r.emitted| <= |fetches|
    ensures st.lastObserved != "" ==> r.state.lastObserved != ""
    ensures r.emitted == [] ==> r.state.lastSent == st.lastSent
    decreases |fetches|
  {
    if |fetches| == 0 then RunResult(st, [])
    else
      var s := Step(fingerprint, st, fetches[0]);
      var rest := Run(fingerprint, s.state, fetches[1..]);
      RunResult(rest.state, Emitted(s) + rest.emitted)
  }

  /**
   Reference behaviour of the engine, with one fingerprint instead of two:
   a fetched text is emitted when its fingerprint is non-empty and differs
   from the last non-empty fingerprint seen before it.
   */
  function Reference(fingerprint: string -> string, last: string, fetches: seq<FetchResult>): seq<string>
    decreases |fetches|
  {
    if |fetches| == 0 then []
    else
      match fetches[0]
      case FetchFailed(_) => Reference(fingerprint, last, fetches[1..])
      case Fetched(logs) =>
        var fp := fingerprint(logs);
        if fp != "" && fp != last then [logs] + Reference(fingerprint, fp, fetches[1..])
        else Reference(fingerprint, last, fetches[1..])
  }

  /** One tick of a run over the suffix of `fetches` from position `i`. */
  lemma RunUnfold(fingerprint: string -> string, st: PollState, fetches: seq<FetchResult>, i: nat)
    requires i < |fetches|
    ensures var s := Step(fingerprint, st, fetches[i]);
            var tail := Run(fingerprint, s.state, fetches[i + 1..]);
            Run(fingerprint, st, fetches[i..]) == RunResult(tail.state, Emitted(s) + tail.emitted)
  {
    assert fetches[i..][0] == fetches[i];
    assert fetches[i..][1..] == fetches[i + 1..];
  }

  /** Failed fetches alone change nothing and emit nothing. */
  lemma {:induction false} FailedFetchesSilent(fingerprint: string -> string, st: PollState, fetches: seq<FetchResult>)
    requires AllFailed(fetches)
    ensures Run(fingerprint, st, fetches) == RunResult(st, [])
    decreases |fetches|
  {
    if |fetches| > 0 {
      assert fetches[0].FetchFailed?;
      FailedFetchesSilent(fingerprint, st, fetches[1..]);
    }
  }

  /** Running on a concatenation is running on each part in turn. */
  lemma {:induction false} RunAppend(fingerprint: string -> string, st: PollState, xs: seq<FetchResult>, ys: seq<FetchResult>)
    ensures var a := Run(fingerprint, st, xs);
            var b := Run(fingerprint, a.state, ys);
            Run(fingerprint, st, xs + ys) == RunResult(b.state, a.emitted + b.emitted)
    decreases |xs|
  {
    if |xs| == 0 {
      assert xs + ys == ys;
    } else {
      var s := Step(fingerprint, st, xs[0]);
      assert (xs + ys)[0] == xs[0];
      assert (xs + ys)[1..] == xs[1..] + ys;
      RunAppend(fingerprint, s.state, xs[1..], ys);
      var a' := Run(fingerprint, s.state, xs[1..]);
      var b := Run(fingerprint, a'.state, ys);
      assert Emitted(s) + (a'.emitted + b.emitted) == (Emitted(s) + a'.emitted) + b.emitted;
    }
  }

  /** Failed fetches change nothing and emit nothing, wherever they sit among the ticks. */
  lemma FailuresInvisible(fingerprint: string -> string, st: PollState,
                          xs: seq<FetchResult>, gap: seq<FetchResult>, ys: seq<FetchResult>)
    requires AllFailed(gap)
    ensures Run(fingerprint, st, xs + gap + ys) == Run(fingerprint, st, xs + ys)
  {
    var a := Run(fingerprint, st, xs);
    FailedFetchesSilent(fingerprint, a.state, gap);
    RunAppend(fingerprint, st, xs, gap);
    assert a.emitted + [] == a.emitted;
    RunAppend(fingerprint, st, xs + gap, ys);
    RunAppend(fingerprint, st, xs, ys);
  }

  /** Every emitted text is the full text of one of the successful fetches. */
  lemma {:induction false} EmittedWereFetched(fingerprint: string -> string, st: PollState, fetches: seq<FetchResult>)
    ensures forall e :: e in Run(fingerprint, st, fetches).emitted ==> Fetched(e) in fetches
    decreases |fetches|
  {
    if |fetches| > 0 {
      var s := Step(fingerprint, st, fetches[0]);
      EmittedWereFetched(fingerprint, s.state, fetches[1..]);
      assert forall f :: f in fetches[1..] ==> f in fetches;
    }
  }

  /** A step keeps a consistent state consistent. */
  lemma StepPreservesConsistent(fingerprint: string -> string, st: PollState, fetch: FetchResult)
    requires WellFormedOutputs(fingerprint)
    requires Consistent(st)
    ensures Consistent(Step(fingerprint, st, fetch).state)
  {
    if fetch.Fetched? {
      assert WellFormedFingerprint(fingerprint(fetch.logs));
    }
  }

  /** A run keeps a consistent state consistent. */
  lemma {:induction false} RunPreservesConsistent(fingerprint: string -> string, st: PollState, fetches: seq<FetchResult>)
    requires WellFormedOutputs(fingerprint)
    requires Consistent(st)
    ensures Consistent(Run(fingerprint, st, fetches).state)
    decreases |fetches|
  {
    if |fetches| > 0 {
      StepPreservesConsistent(fingerprint, st, fetches[0]);
      RunPreservesConsistent(fingerprint, Step(fingerprint, st, fetches[0]).state, fetches[1..]);
    }
  }

  /** The fingerprint of the source yields only well-formed fingerprints. */
  lemma FingerprintOutputsWellFormed()
    ensures WellFormedOutputs(Fingerprint)
  {
  }

  /** Every state the source's loop reaches from `Initial` is consistent. */
  lemma ReachableConsistent(fetches: seq<FetchResult>)
    ensures Consistent(Run(Fingerprint, Initial, fetches).state)
  {
    FingerprintOutputsWellFormed();
    RunPreservesConsistent(Fingerprint, Initial, fetches);
  }

  /** From a consistent state the two-fingerprint loop emits what the reference emits. */
  lemma {:induction false} RunMatchesReference(fingerprint: string -> string, st: PollState, fetches: seq<FetchResult>)
    requires WellFormedOutputs(fingerprint)
    requires Consistent(st)
    ensures Run(fingerprint, st, fetches).emitted == Reference(fingerprint, st.lastObserved, fetches)
    decreases |fetches|
  {
    if |fetches| > 0 {
      StepPreservesConsistent(fingerprint, st, fetches[0]);
      RunMatchesReference(fingerprint, Step(fingerprint, st, fetches[0]).state, fetches[1..]);
    }
  }

  /** The source's loop, started from empty fingerprints, behaves as the reference. */
  lemma EngineMatchesReference(fetches: seq<FetchResult>)
    ensures Run(Fingerprint, Initial, fetches).emitted == Reference(Fingerprint, "", fetches)
  {
    FingerprintOutputsWellFormed();
    RunMatchesReference(Fingerprint, Initial, fetches);
  }

  /**
   Every emitted text has a non-empty fingerprint, the first differs from
   the fingerprint already sent, and no two consecutive ones share a
   fingerprint.
   */
  ghost predicate FingerprintsChange(fingerprint: string -> string, sent: string, e: seq<string>)
  {
    && (forall i :: 0 <= i < |e| ==> fingerprint(e[i]) != "")
    && (|e| > 0 ==> fingerprint(e[0]) != sent)
    && (forall i :: 0 < i < |e| ==> fingerprint(e[i - 1]) != fingerprint(e[i]))
  }

  /** Putting a text with a new, non-empty fingerprint in front keeps the fingerprints changing. */
  lemma FingerprintsChangeCons(fingerprint: string -> string, sent: string, v: string, e: seq<string>)
    requires fingerprint(v) != "" && fingerprint(v) != sent
    requires FingerprintsChange(fingerprint, fingerprint(v), e)
    ensures FingerprintsChange(fingerprint, sent, [v] + e)
  {
    var e' := [v] + e;
    forall i | 0 < i < |e'|
      ensures fingerprint(e'[i - 1]) != fingerprint(e'[i])
    {
      if i > 1 {
        assert e'[i - 1] == e[i - 2] && e'[i] == e[i - 1];
      }
    }
    forall i | 0 <= i < |e'|
      ensures fingerprint(e'[i]) != ""
    {
      if i > 0 {
        assert e'[i] == e[i - 1];
      }
    }
  }

  /**
   From a consistent state no notification repeats the fingerprint of the
   one before it (nor the one already sent), and the last notification's
   fingerprint is what the final state records as sent.
   */
  lemma {:induction false} EmissionsChangeFingerprint(fingerprint: string -> string, st: PollState, fetches: seq<FetchResult>)
    requires WellFormedOutputs(fingerprint)
    requires Consistent(st)
    ensures FingerprintsChange(fingerprint, st.lastSent, Run(fingerprint, st, fetches).emitted)
    ensures var e := Run(fingerprint, st, fetches).emitted;
            |e| > 0 ==> fingerprint(e[|e| - 1]) == Run(fingerprint, st, fetches).state.lastSent
    decreases |fetches|
  {
    if |fetches| > 0 {
      var s := Step(fingerprint, st, fetches[0]);
      StepPreservesConsistent(fingerprint, st, fetches[0]);
      EmissionsChangeFingerprint(fingerprint, s.state, fetches[1..]);
      var rest := Run(fingerprint, s.state, fetches[1..]);
      var e := Run(fingerprint, st, fetches).emitted;
      if s.emitted.Some? {
        assert fingerprint(s.emitted.value) == s.state.lastSent;
        assert e == [s.emitted.value] + rest.emitted;
        if rest.emitted != [] {
          assert e[|e| - 1] == rest.emitted[|rest.emitted| - 1];
        }
        FingerprintsChangeCons(fingerprint, st.lastSent, s.emitted.value, rest.emitted);
      } else {
        assert s.state.lastSent == st.lastSent;
        assert e == rest.emitted;
      }
    }
  }

  /** Polling the same buffer twice in a row emits nothing the second time. */
  lemma RepeatedPollSilent(fingerprint: string -> string, st: PollState, logs: string)
    ensures Step(fingerprint, Step(fingerprint, st, Fetched(logs)).state, Fetched(logs)).emitted == None
  {
  }

  /**
   After a successful poll, a poll with the same fingerprint emits nothing,
   whatever the rest of its text: an unchanged tail line, or one whose first
   thirty bytes agree with the previous one.
   */
  lemma UnchangedTailSilent(st: PollState, logs1: string, logs2: string)
    requires LastLine(logs1) == LastLine(logs2) || Fingerprint(logs1) == Fingerprint(logs2)
    ensures Step(Fingerprint, Step(Fingerprint, st, Fetched(logs1)).state, Fetched(logs2)).emitted == None
  {
  }

  /** From a consistent state, a tail line of at least thirty bytes with a new prefix is emitted, in full. */
  lemma NewTailEmits(st: PollState, logs: string)
    requires Consistent(st)
    requires |LastLine(logs)| >= FingerprintWidth
    requires LastLine(logs)[..FingerprintWidth] != st.lastObserved
    ensures Step(Fingerprint, st, Fetched(logs)).emitted == Some(logs)
    ensures var fp := LastLine(logs)[..FingerprintWidth];
            Step(Fingerprint, st, Fetched(logs)).state == PollState(fp, fp)
  {
  }

  /** A tail line shorter than thirty bytes changes nothing and, from a consistent state, emits nothing. */
  lemma ShortTailSilent(st: PollState, logs: string)
    requires |LastLine(logs)| < FingerprintWidth
    ensures Step(Fingerprint, st, Fetched(logs)).state.lastObserved == st.lastObserved
    ensures Consistent(st) ==> Step(Fingerprint, st, Fetched(logs)) == StepResult(st, None)
  {
  }

  /**
   Advancing the loop of `Listen` by one tick keeps the loop's invariant:
   what has been emitted, followed by what the rest of the run emits, is
   what the whole run emits.
   */
  lemma ListenAdvance(fingerprint: string -> string, fetches: seq<FetchResult>, i: nat, total: RunResult,
                      before: PollState, sent: seq<string>, emit: Option<string>, emitted: seq<string>)
    requires i < |fetches|
    requires var rest := Run(fingerprint, before, fetches[i..]);
             total == RunResult(rest.state, sent + rest.emitted)
    requires Step(fingerprint, before, fetches[i]).emitted == emit
    requires emitted == if emit.Some? then sent + [emit.value] else sent
    ensures var rest := Run(fingerprint, Step(fingerprint, before, fetches[i]).state, fetches[i + 1..]);
            total == RunResult(rest.state, emitted + rest.emitted)
  {
    var step := Step(fingerprint, before, fetches[i]);
    var whole := Run(fingerprint, before, fetches[i..]);
    var tail := Run(fingerprint, step.state, fetches[i + 1..]);
    assert whole == RunResult(tail.state, Emitted(step) + tail.emitted) by {
      RunUnfold(fingerprint, before, fetches, i);
    }
    assert sent + whole.emitted == emitted + tail.emitted by {
      assert emitted == sent + Emitted(step);
      assert (sent + Emitted(step)) + tail.emitted == sent + (Emitted(step) + tail.emitted);
    }
  }

  /**
   The body of the polling loop of `ListenForContainerLogs`, written as the
   source writes it: skip a failed fetch, record a non-empty fingerprint,
   and emit when the recorded fingerprint is new.
   */
  method Tick(lastLogTimeStamp: string, lastSentLogTimeStamp: string, fetch: FetchResult)
    returns (observed: string, sent: string, emit: Option<string>)
    ensures StepResult(PollState(observed, sent), emit)
            == Step(Fingerprint, PollState(lastLogTimeStamp, lastSentLogTimeStamp), fetch)
  {
    observed, sent, emit := lastLogTimeStamp, lastSentLogTimeStamp, None;
    match fetch {
      case FetchFailed(_) =>
      case Fetched(logs) =>
        var timeStamp := Fingerprint(logs);
        if timeStamp != "" {
          observed := timeStamp;
        }
        if observed != sent && observed != "" {
          sent := observed;
          emit := Some(logs);
        }
    }
  }

  /**
   The polling loop of `ListenForContainerLogs` over a finite sequence of
   ticks, from empty fingerprints.
   */
  method Listen(fetches: seq<FetchResult>) returns (final: PollState, emitted: seq<string>)
    ensures RunResult(final, emitted) == Run(Fingerprint, Initial, fetches)
    ensures emitted == Reference(Fingerprint, "", fetches)
    ensures Consistent(final)
  {
    var lastLogTimeStamp := "";
    var lastSentLogTimeStamp := "";
    emitted := [];
    var i := 0;
    assert fetches[i..] == fetches;
    while i < |fetches|
      invariant 0 <= i <= |fetches|
      invariant var rest := Run(Fingerprint, PollState(lastLogTimeStamp, lastSentLogTimeStamp), fetches[i..]);
                Run(Fingerprint, Initial, fetches) == RunResult(rest.state, emitted + rest.emitted)
      decreases |fetches| - i
    {
      ghost var before := PollState(lastLogTimeStamp, lastSentLogTimeStamp);
      ghost var sent := emitted;
      var emit;
      lastLogTimeStamp, lastSentLogTimeStamp, emit := Tick(lastLogTimeStamp, lastSentLogTimeStamp, fetches[i]);
      if emit.Some? {
        emitted := emitted + [emit.value];
      }
      ListenAdvance(Fingerprint, fetches, i, Run(Fingerprint, Initial, fetches), before, sent, emit, emitted);
      i := i + 1;
    }
    final := PollState(lastLogTimeStamp, lastSentLogTimeStamp);
    assert fetches[i..] == [];
    ReachableConsistent(fetches);
    EngineMatchesReference(fetches);
  }
}
