/** The scale controller: startup reconciliation, and the termination handler
    that scales the deployment down and waits, polling, for confirmation.

    The cluster API is an abstract trace. Reads are answered, in order, from a
    given sequence of `Scale` values; a read past its end is a read that raised,
    and the exception ends the process. Every call the controller makes, and
    every pause, is recorded in a `seq<Call<V>>`, `V` being the type of the
    replica count sent with a patch. Sleeping is recorded, not performed. */
module Controller {
  import opened Wrappers
  import opened Config

  /** Seconds slept after an unconfirmed poll. */
  const PollInterval: nat := 5
  /** Seconds of waiting after which the handler gives up. */
  const Timeout: nat := 120
  /** Confirmation polls before giving up: Timeout / PollInterval. */
  const MaxPolls: nat := 24

  /** A deployment's scale subresource: `spec.replicas` and `status.replicas`. */
  datatype Scale = Scale(desired: nat, observed: nat)

  /** One interaction with the outside world. */
  datatype Call<V> = ReadScale | PatchScale(replicas: V) | Sleep(seconds: nat)

  /** How the process ends: `sys.exit(code)`, or an exception from a client
      call that nothing catches. */
  datatype Outcome = Exit(code: int) | Raised

  function ReadCount<V>(trace: seq<Call<V>>): nat
  {
    if |trace| == 0 then 0
    else (if trace[0].ReadScale? then 1 else 0) + ReadCount(trace[1..])
  }

  /** Seconds spent sleeping. */
  function Elapsed<V>(trace: seq<Call<V>>): nat
  {
    if |trace| == 0 then 0
    else (if trace[0].Sleep? then trace[0].seconds else 0) + Elapsed(trace[1..])
  }

  /** The replica counts patched, in order. */
  function Writes<V>(trace: seq<Call<V>>): seq<V>
  {
    if |trace| == 0 then []
    else (if trace[0].PatchScale? then [trace[0].replicas] else []) + Writes(trace[1..])
  }

  lemma {:induction false} ReadCountConcat<V>(a: seq<Call<V>>, b: seq<Call<V>>)
    ensures ReadCount(a + b) == ReadCount(a) + ReadCount(b)
    decreases |a|
  {
    if |a| == 0 {
      assert a + b == b;
    } else {
      assert (a + b)[1..] == a[1..] + b;
      ReadCountConcat(a[1..], b);
    }
  }

  lemma {:induction false} ElapsedConcat<V>(a: seq<Call<V>>, b: seq<Call<V>>)
    ensures Elapsed(a + b) == Elapsed(a) + Elapsed(b)
    decreases |a|
  {
    if |a| == 0 {
      assert a + b == b;
    } else {
      assert (a + b)[1..] == a[1..] + b;
      ElapsedConcat(a[1..], b);
    }
  }

  lemma {:induction false} WritesConcat<V>(a: seq<Call<V>>, b: seq<Call<V>>)
    ensures Writes(a + b) == Writes(a) + Writes(b)
    decreases |a|
  {
    if |a| == 0 {
      assert a + b == b;
    } else {
      assert (a + b)[1..] == a[1..] + b;
      WritesConcat(a[1..], b);
      var head: seq<V> := if a[0].PatchScale? then [a[0].replicas] else [];
      calc {
        Writes(a + b);
        head + Writes(a[1..] + b);
        head + (Writes(a[1..]) + Writes(b));
        (head + Writes(a[1..])) + Writes(b);
        Writes(a) + Writes(b);
      }
    }
  }

  /** Appending calls adds up their reads, sleeps and patches. */
  lemma TraceConcat<V>(a: seq<Call<V>>, b: seq<Call<V>>)
    ensures ReadCount(a + b) == ReadCount(a) + ReadCount(b)
    ensures Elapsed(a + b) == Elapsed(a) + Elapsed(b)
    ensures Writes(a + b) == Writes(a) + Writes(b)
  {
    ReadCountConcat(a, b);
    ElapsedConcat(a, b);
    WritesConcat(a, b);
  }

  /** A single call's contribution to a trace. */
  lemma SingleCall<V>(c: Call<V>)
    ensures ReadCount([c]) == (if c.ReadScale? then 1 else 0)
    ensures Elapsed([c]) == (if c.Sleep? then c.seconds else 0)
    ensures Writes([c]) == (if c.PatchScale? then [c.replicas] else [])
  {
    assert [c][1..] == [];
  }

  /** One more call adds its own read, sleep or patch to a trace. */
  lemma AppendCall<V>(trace: seq<Call<V>>, c: Call<V>)
    ensures ReadCount(trace + [c]) == ReadCount(trace) + (if c.ReadScale? then 1 else 0)
    ensures Elapsed(trace + [c]) == Elapsed(trace) + (if c.Sleep? then c.seconds else 0)
    ensures Writes(trace + [c]) == Writes(trace) + (if c.PatchScale? then [c.replicas] else [])
  {
    TraceConcat(trace, [c]);
    SingleCall(c);
  }

  /** The count the deployment is asked for after `writes`: the last one
      patched, or the count it had. */
  function Requested(desired: nat, writes: seq<nat>): nat
  {
    if |writes| == 0 then desired else writes[|writes| - 1]
  }

  /** Later patches decide the requested count; no patches leave it as it was. */
  lemma RequestedAfter(desired: nat, first: seq<nat>, later: seq<nat>)
    ensures |later| > 0 ==> Requested(desired, first + later) == later[|later| - 1]
    ensures |later| == 0 ==> Requested(desired, first + later) == Requested(desired, first)
  {
    if |later| == 0 {
      assert first + later == first;
    }
  }

  /** Startup reconciliation: the patches issued for a deployment whose
      desired count is `desired`. */
  function Reconcile(maxReplicas: nat, desired: nat): (writes: seq<nat>)
    ensures |writes| <= 1
    ensures |writes| == 1 <==> desired != maxReplicas
    ensures forall w :: w in writes ==> w == maxReplicas
  {
    if desired != maxReplicas then [maxReplicas] else []
  }

  /** Reconciliation converges in one step: afterwards the deployment is asked
      for the maximum, and reconciling again patches nothing. */
  lemma ReconcileConverges(maxReplicas: nat, desired: nat)
    ensures Requested(desired, Reconcile(maxReplicas, desired)) == maxReplicas
    ensures Reconcile(maxReplicas, Requested(desired, Reconcile(maxReplicas, desired))) == []
  {
  }

  /** Startup reconciliation as written, where the maximum may be text. */
  function ReconcileAsWritten(maxReplicas: ReplicaSetting, desired: nat): (writes: seq<ReplicaSetting>)
    ensures |writes| <= 1
    ensures |writes| == 1 <==> !SameCount(desired, maxReplicas)
    ensures forall w :: w in writes ==> w == maxReplicas
    ensures maxReplicas.Text? ==> writes == [maxReplicas]
  {
    if !SameCount(desired, maxReplicas) then [maxReplicas] else []
  }

  /** A deployment already at the configured maximum, given as text, is
      patched anyway. */
  lemma TextMaximumAlwaysPatches(desired: nat)
    ensures ReconcileAsWritten(Text(PyText.Decimal(desired)), desired) != []
    ensures Reconcile(desired, desired) == []
  {
  }

  /** The process after startup: idle and waiting for the termination signal,
      having made the calls in `trace`; or stopped by a configuration error. */
  datatype Startup = Watching(config: Config, trace: seq<Call<nat>>) | ConfigFailed(error: ConfigError)

  /** The calls of startup reconciliation: read the scale, then the patches
      `Reconcile` decides on. */
  function StartupCalls(maxReplicas: nat, desired: nat): (trace: seq<Call<nat>>)
    ensures |trace| > 0 && trace[0] == ReadScale
    ensures ReadCount(trace) == 1 && Elapsed(trace) == 0
    ensures Writes(trace) == Reconcile(maxReplicas, desired)
  {
    var patches: seq<Call<nat>> := if desired != maxReplicas then [PatchScale(maxReplicas)] else [];
    TraceConcat([ReadScale], patches);
    SingleCall<nat>(ReadScale);
    SingleCall(PatchScale(maxReplicas));
    [ReadScale] + patches
  }

  /** Startup: resolve the configuration, read the scale, reconcile. */
  function Start(env: map<string, string>, namespaceFile: Option<string>, desired: nat): (s: Startup)
    ensures s.ConfigFailed? <==> Resolve(env, namespaceFile).Err?
    ensures s.ConfigFailed? ==> s.error == Resolve(env, namespaceFile).error
    ensures s.Watching? ==>
      && s.config == Resolve(env, namespaceFile).value
      && |s.trace| > 0 && s.trace[0] == ReadScale
      && ReadCount(s.trace) == 1
      && Elapsed(s.trace) == 0
      && |Writes(s.trace)| <= 1
      && (|Writes(s.trace)| == 1 <==> desired != s.config.maxReplicas)
      && Requested(desired, Writes(s.trace)) == s.config.maxReplicas
  {
    match Resolve(env, namespaceFile)
    case Err(e) => ConfigFailed(e)
    case Ok(config) =>
      ReconcileConverges(config.maxReplicas, desired);
      Watching(config, StartupCalls(config.maxReplicas, desired))
  }

  /** Every read among the first `k` observations is unconfirmed. */
  predicate NoneConfirmed(confirmed: nat -> bool, observed: seq<nat>, k: nat)
    requires k <= |observed|
  {
    forall i :: 0 <= i < k ==> !confirmed(observed[i])
  }

  /** The confirmation loop's calls in order: a read at every even position and
      a `PollInterval` sleep at every odd one, so a sleep separates each
      unconfirmed read from the next read. */
  predicate Alternates<V>(trace: seq<Call<V>>)
  {
    forall i :: 0 <= i < |trace| ==>
      if i % 2 == 0 then trace[i].ReadScale? else trace[i].Sleep? && trace[i].seconds == PollInterval
  }

  /** The confirmation loop: read the observed count until `confirmed` holds
      of it or `Timeout` seconds have been spent sleeping, `PollInterval`
      seconds after each unconfirmed read. `observed` holds the answers to
      successive polls; `polls` counts read attempts, a read that raised
      included, and `waitTime` is the `wait_time` counter. */
  method ConfirmScaleDown<V>(confirmed: nat -> bool, observed: seq<nat>)
    returns (trace: seq<Call<V>>, polls: nat, waitTime: nat, outcome: Outcome)
    ensures outcome == Exit(0) || outcome == Exit(1) || outcome == Raised
    ensures ReadCount(trace) == polls && Elapsed(trace) == waitTime && Writes(trace) == []
    ensures 1 <= polls <= MaxPolls && waitTime <= Timeout
    ensures Alternates(trace)
    ensures |trace| == if outcome == Exit(1) then 2 * polls else 2 * polls - 1
    ensures outcome == Exit(0) ==>
      && polls <= |observed|
      && confirmed(observed[polls - 1])
      && NoneConfirmed(confirmed, observed, polls - 1)
      && waitTime == PollInterval * (polls - 1)
      && trace[|trace| - 1] == ReadScale
    ensures outcome == Exit(1) ==>
      && polls == MaxPolls <= |observed|
      && NoneConfirmed(confirmed, observed, MaxPolls)
      && waitTime == Timeout
    ensures outcome == Raised ==>
      && polls == |observed| + 1
      && NoneConfirmed(confirmed, observed, |observed|)
      && waitTime == PollInterval * |observed|
  {
    trace := [];
    polls := 0;
    waitTime := 0;
    while waitTime < Timeout
      invariant polls <= MaxPolls && polls <= |observed|
      invariant waitTime == PollInterval * polls
      invariant NoneConfirmed(confirmed, observed, polls)
      invariant ReadCount(trace) == polls && Elapsed(trace) == waitTime && Writes(trace) == []
      invariant |trace| == 2 * polls && Alternates(trace)
      decreases Timeout - waitTime
    {
      AppendCall(trace, ReadScale);
      trace := trace + [ReadScale];
      if polls == |observed| {
        polls := polls + 1;
        outcome := Raised;
        return;
      }
      var status := observed[polls];
      polls := polls + 1;
      if confirmed(status) {
        outcome := Exit(0);
        return;
      }
      AppendCall(trace, Sleep(PollInterval));
      trace := trace + [Sleep(PollInterval)];
      waitTime := waitTime + PollInterval;
    }
    outcome := Exit(1);
  }

  /** The answers to the confirmation polls: the observed count of every read
      after the handler's first. */
  function ObservedAfterFirst(responses: seq<Scale>): (observed: seq<nat>)
    requires |responses| > 0
    ensures |observed| == |responses| - 1
    ensures forall i :: 0 <= i < |observed| ==> observed[i] == responses[i + 1].observed
  {
    seq(|responses| - 1, i requires 0 <= i < |responses| - 1 => responses[i + 1].observed)
  }

  /** The handler's first two calls, the read and the patch, ahead of the polls. */
  lemma PatchBeforePolls<V>(minReplicas: V, polls: seq<Call<V>>)
    ensures ReadCount([ReadScale, PatchScale(minReplicas)] + polls) == 1 + ReadCount(polls)
    ensures Elapsed([ReadScale, PatchScale(minReplicas)] + polls) == Elapsed(polls)
    ensures Writes([ReadScale, PatchScale(minReplicas)] + polls) == [minReplicas] + Writes(polls)
  {
    TraceConcat([ReadScale, PatchScale(minReplicas)], polls);
    TraceConcat([ReadScale], [PatchScale(minReplicas)]);
    assert [ReadScale, PatchScale(minReplicas)] == [ReadScale] + [PatchScale(minReplicas)];
    SingleCall<V>(ReadScale);
    SingleCall(PatchScale(minReplicas));
  }

  /** The loop's verdict restated over the handler's read answers, where
      answer k (k >= 1) is the k-th confirmation read: success exactly when one
      of the first `MaxPolls` confirmation reads confirms, and then at the first
      such read; timeout exactly when all `MaxPolls` of them are answered and
      none confirms. */
  lemma PollVerdict(confirmed: nat -> bool, responses: seq<Scale>, polls: nat, outcome: Outcome)
    requires |responses| > 0
    requires outcome == Exit(0) || outcome == Exit(1) || outcome == Raised
    requires 1 <= polls <= MaxPolls
    requires outcome == Exit(0) ==>
      && polls < |responses|
      && confirmed(responses[polls].observed)
      && forall j :: 1 <= j < polls ==> !confirmed(responses[j].observed)
    requires outcome == Exit(1) ==>
      && polls == MaxPolls < |responses|
      && forall j :: 1 <= j <= MaxPolls ==> !confirmed(responses[j].observed)
    requires outcome == Raised ==>
      && polls == |responses|
      && forall j :: 1 <= j < |responses| ==> !confirmed(responses[j].observed)
    ensures outcome == Exit(0) <==>
      exists k :: 1 <= k < |responses| && k <= MaxPolls && confirmed(responses[k].observed)
    ensures outcome == Exit(1) <==>
      && |responses| > MaxPolls
      && forall k :: 1 <= k <= MaxPolls ==> !confirmed(responses[k].observed)
    ensures forall k ::
      (&& 1 <= k < |responses| && k <= MaxPolls && confirmed(responses[k].observed)
       && (forall j :: 1 <= j < k ==> !confirmed(responses[j].observed))) ==>
        outcome == Exit(0) && polls == k
  {
  }

  /** Runs the confirmation loop on the answers after the handler's first read,
      and restates its result over those answers. */
  method PollResponses<V>(confirmed: nat -> bool, responses: seq<Scale>)
    returns (trace: seq<Call<V>>, polls: nat, outcome: Outcome)
    requires |responses| > 0
    ensures outcome == Exit(0) || outcome == Exit(1) || outcome == Raised
    ensures ReadCount(trace) == polls && Writes(trace) == []
    ensures 1 <= polls <= MaxPolls && Elapsed(trace) <= Timeout
    ensures Alternates(trace)
    ensures |trace| == if outcome == Exit(1) then 2 * polls else 2 * polls - 1
    ensures outcome == Exit(0) ==> Elapsed(trace) == PollInterval * (polls - 1)
    ensures outcome == Exit(1) ==> polls == MaxPolls && Elapsed(trace) == Timeout
    ensures outcome == Exit(0) <==>
      exists k :: 1 <= k < |responses| && k <= MaxPolls && confirmed(responses[k].observed)
    ensures outcome == Exit(1) <==>
      && |responses| > MaxPolls
      && forall k :: 1 <= k <= MaxPolls ==> !confirmed(responses[k].observed)
    ensures forall k ::
      (&& 1 <= k < |responses| && k <= MaxPolls && confirmed(responses[k].observed)
       && (forall j :: 1 <= j < k ==> !confirmed(responses[j].observed))) ==>
        outcome == Exit(0) && polls == k
  {
    var observed := ObservedAfterFirst(responses);
    var waitTime;
    trace, polls, waitTime, outcome := ConfirmScaleDown(confirmed, observed);
    assert forall j :: 1 <= j < |responses| ==> observed[j - 1] == responses[j].observed;
    PollVerdict(confirmed, responses, polls, outcome);
  }

  /** The termination handler: read the scale, patch it to `minReplicas`, then
      wait for the deployment to report `minReplicas` running. */
  method HandleTermination(minReplicas: nat, responses: seq<Scale>)
    returns (trace: seq<Call<nat>>, outcome: Outcome)
    ensures outcome == Exit(0) || outcome == Exit(1) || outcome == Raised
    ensures |responses| == 0 ==> trace == [ReadScale] && outcome == Raised
    ensures |responses| > 0 ==>
      && |trace| >= 2 && trace[0] == ReadScale && trace[1] == PatchScale(minReplicas)
      && Writes(trace) == [minReplicas]
      && Alternates(trace[2..])
    ensures ReadCount(trace) <= 1 + MaxPolls && Elapsed(trace) <= Timeout
    ensures outcome == Exit(0) <==>
      exists k :: 1 <= k < |responses| && k <= MaxPolls && responses[k].observed == minReplicas
    ensures outcome == Exit(1) <==>
      && |responses| > MaxPolls
      && forall k :: 1 <= k <= MaxPolls ==> responses[k].observed != minReplicas
    ensures forall k ::
      (&& 1 <= k < |responses| && k <= MaxPolls && responses[k].observed == minReplicas
       && (forall j :: 1 <= j < k ==> responses[j].observed != minReplicas)) ==>
        && outcome == Exit(0)
        && ReadCount(trace) == 1 + k
        && Elapsed(trace) == PollInterval * (k - 1)
    ensures outcome == Exit(1) ==> ReadCount(trace) == 1 + MaxPolls && Elapsed(trace) == Timeout
  {
    if |responses| == 0 {
      trace := [ReadScale];
      outcome := Raised;
      return;
    }
    var pollTrace, polls;
    pollTrace, polls, outcome := PollResponses((c: nat) => c == minReplicas, responses);
    trace := [ReadScale, PatchScale(minReplicas)] + pollTrace;
    PatchBeforePolls(minReplicas, pollTrace);
    assert trace[2..] == pollTrace;
  }

  /** The termination handler as written, where the minimum may be text: the
      poll compares the observed count to the setting with Python `==`. */
  method HandleTerminationAsWritten(minReplicas: ReplicaSetting, responses: seq<Scale>)
    returns (trace: seq<Call<ReplicaSetting>>, outcome: Outcome)
    ensures outcome == Exit(0) || outcome == Exit(1) || outcome == Raised
    ensures |responses| == 0 ==> trace == [ReadScale] && outcome == Raised
    ensures |responses| > 0 ==>
      && |trace| >= 2 && trace[0] == ReadScale && trace[1] == PatchScale(minReplicas)
      && Writes(trace) == [minReplicas]
      && Alternates(trace[2..])
    ensures ReadCount(trace) <= 1 + MaxPolls && Elapsed(trace) <= Timeout
    ensures outcome == Exit(0) <==>
      exists k :: 1 <= k < |responses| && k <= MaxPolls && SameCount(responses[k].observed, minReplicas)
    ensures minReplicas.Text? ==> outcome != Exit(0)
    ensures minReplicas.Text? && |responses| > MaxPolls ==>
      && outcome == Exit(1)
      && ReadCount(trace) == 1 + MaxPolls
      && Elapsed(trace) == Timeout
  {
    if |responses| == 0 {
      trace := [ReadScale];
      outcome := Raised;
      return;
    }
    var pollTrace, polls;
    pollTrace, polls, outcome := PollResponses((c: nat) => SameCount(c, minReplicas), responses);
    trace := [ReadScale, PatchScale(minReplicas)] + pollTrace;
    PatchBeforePolls(minReplicas, pollTrace);
    assert trace[2..] == pollTrace;
  }

  /** What follows startup: nothing after a configuration error; otherwise,
      once the termination signal arrives, the handler, run against the read
      answers `responses` with the configured minimum. */
  method AfterStartup(startup: Startup, desired: nat, responses: seq<Scale>)
    returns (trace: seq<Call<nat>>, outcome: Outcome)
    requires startup.Watching? ==>
      && |startup.trace| > 0 && startup.trace[0] == ReadScale
      && Elapsed(startup.trace) == 0
      && |Writes(startup.trace)| <= 1
      && Requested(desired, Writes(startup.trace)) == startup.config.maxReplicas
    ensures startup.ConfigFailed? ==> trace == [] && outcome == Raised
    ensures startup.Watching? ==>
      && |trace| > 0 && trace[0] == ReadScale
      && Elapsed(trace) <= Timeout
      && |Writes(trace)| <= 2
      && (|responses| > 0 ==> Requested(desired, Writes(trace)) == startup.config.minReplicas)
      && (|responses| == 0 ==> Requested(desired, Writes(trace)) == startup.config.maxReplicas)
      && (outcome == Exit(0) <==>
            exists k :: 1 <= k < |responses| && k <= MaxPolls && responses[k].observed == startup.config.minReplicas)
  {
    match startup
    case ConfigFailed(_) =>
      trace := [];
      outcome := Raised;
    case Watching(config, startTrace) =>
      var handlerTrace;
      handlerTrace, outcome := HandleTermination(config.minReplicas, responses);
      trace := startTrace + handlerTrace;
      TraceConcat(startTrace, handlerTrace);
      var handlerWrites := Writes(handlerTrace);
      RequestedAfter(desired, Writes(startTrace), handlerWrites);
      if |responses| == 0 {
        assert handlerWrites == [] by { SingleCall<nat>(ReadScale); }
      } else {
        assert handlerWrites == [config.minReplicas];
      }
  }

  /** One lifetime of the process: startup against a deployment whose desired
      count is `desired`, then, once the termination signal arrives, the
      handler against the read answers `responses`. */
  method Run(env: map<string, string>, namespaceFile: Option<string>, desired: nat, responses: seq<Scale>)
    returns (trace: seq<Call<nat>>, outcome: Outcome)
    ensures Resolve(env, namespaceFile).Err? ==> trace == [] && outcome == Raised
    ensures Resolve(env, namespaceFile).Ok? ==>
      var config := Resolve(env, namespaceFile).value;
      && |trace| > 0 && trace[0] == ReadScale
      && Elapsed(trace) <= Timeout
      && |Writes(trace)| <= 2
      && (|responses| > 0 ==> Requested(desired, Writes(trace)) == config.minReplicas)
      && (|responses| == 0 ==> Requested(desired, Writes(trace)) == config.maxReplicas)
      && (outcome == Exit(0) <==>
            exists k :: 1 <= k < |responses| && k <= MaxPolls && responses[k].observed == config.minReplicas)
  {
    var startup := Start(env, namespaceFile, desired);
    trace, outcome := AfterStartup(startup, desired, responses);
  }
}
