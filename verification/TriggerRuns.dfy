/**
 Calls and whole runs of the software trigger: a stream of samples is handed over in buffers,
 until a call fires. The state between calls is the matcher and the pending pre-trigger bytes.
 */
module TriggerRuns {
  import opened Bytes
  import opened TriggerSearch

  datatype Config = Config(stages: seq<Stage>, unitsize: nat, preTriggerSize: nat)

  ghost predicate ValidConfig(c: Config) {
    && c.unitsize > 0 && Whole(c.preTriggerSize, c.unitsize)
    && c.stages != [] && StagesFit(c.stages, c.unitsize)
  }

  datatype TriggerState = TriggerState(matcher: Matcher, pending: seq<byte>)

  predicate ValidState(c: Config, st: TriggerState) {
    st.matcher.curStage < |c.stages|
  }

  datatype Verdict =
    | Fired(offset: nat, preTrigger: seq<byte>)
    | NotFired
    | ClientError
    | OffGrid

  /** The state after soft_trigger_logic_new: everything zeroed. */
  function Fresh(c: Config): TriggerState {
    TriggerState(Matcher(0, 0, seq(c.unitsize, _ => 0 as byte)), [])
  }

  // ----- Buffers as sequences of samples -----

  function ToSamples(buf: seq<byte>, u: nat): seq<Sample>
    requires u > 0
  {
    if |buf| < u then [] else [buf[..u]] + ToSamples(buf[u..], u)
  }

  /** Sample s lies at bytes s*u .. s*u+u-1. */
  lemma {:induction false} SampleAt(buf: seq<byte>, u: nat, s: nat)
    requires u > 0 && Whole(|buf|, u)
    ensures s < |ToSamples(buf, u)| <==> Offset(s, u) < |buf|
    ensures s < |ToSamples(buf, u)| ==>
      && Offset(s + 1, u) <= |buf|
      && ToSamples(buf, u)[s] == buf[Offset(s, u)..Offset(s + 1, u)]
    decreases |buf|
  {
    if |buf| >= u && s > 0 {
      SampleAt(buf[u..], u, s - 1);
      if s < |ToSamples(buf, u)| {
        assert buf[Offset(s, u)..Offset(s + 1, u)] == buf[u..][Offset(s - 1, u)..Offset(s, u)];
      }
    }
  }

  /** The samples cover the buffer. */
  lemma {:induction false} SamplesCover(buf: seq<byte>, u: nat)
    requires u > 0 && Whole(|buf|, u)
    ensures Offset(|ToSamples(buf, u)|, u) == |buf|
    decreases |buf|
  {
    if |buf| >= u {
      SamplesCover(buf[u..], u);
    }
  }

  lemma {:induction false} ToSamplesAppend(a: seq<byte>, b: seq<byte>, u: nat)
    requires u > 0 && Whole(|a|, u)
    ensures ToSamples(a + b, u) == ToSamples(a, u) + ToSamples(b, u)
    decreases |a|
  {
    if |a| < u {
      assert a + b == b;
    } else {
      ToSamplesAppend(a[u..], b, u);
      assert (a + b)[u..] == a[u..] + b && (a + b)[..u] == a[..u];
    }
  }

  // ----- One call -----

  /** soft_trigger_logic_check on one buffer: its verdict and the state it leaves. */
  function Call(c: Config, st: TriggerState, buf: seq<byte>): (r: (Verdict, TriggerState))
    requires c.unitsize > 0 && ValidState(c, st)
    ensures ValidState(c, r.1)
  {
    var (o, m) := Scan(c.stages, c.unitsize, st.matcher, ToSamples(buf, c.unitsize), 0);
    match o
    case Found(e) =>
      (Fired(e, LastN(st.pending + Flatten(ToSamples(buf, c.unitsize)[..e]), c.preTriggerSize)), TriggerState(m, []))
    case Exhausted => (NotFired, TriggerState(m, LastN(st.pending + buf, c.preTriggerSize)))
    case NoMatches => (ClientError, TriggerState(m, st.pending))
    case Misaligned => (OffGrid, TriggerState(m, st.pending))
  }

  /** The first e samples are the first e*u bytes. */
  lemma {:induction false} SamplesAreBytes(buf: seq<byte>, u: nat, e: nat)
    requires u > 0 && Whole(|buf|, u) && e <= |ToSamples(buf, u)|
    ensures Offset(e, u) <= |buf| && Flatten(ToSamples(buf, u)[..e]) == buf[..Offset(e, u)]
    decreases e
  {
    if e > 0 {
      SamplesAreBytes(buf[u..], u, e - 1);
      assert ToSamples(buf, u)[..e] == [buf[..u]] + ToSamples(buf[u..], u)[..e - 1];
      assert buf[..Offset(e, u)] == buf[..u] + buf[u..][..Offset(e - 1, u)];
    }
  }

  /** A stage without matches is a client error as soon as a sample reaches it, and the pending bytes stay. */
  lemma EmptyStageIsClientError(c: Config, st: TriggerState, buf: seq<byte>)
    requires c.unitsize > 0 && ValidState(c, st) && c.stages[st.matcher.curStage] == [] && |buf| >= c.unitsize
    ensures Call(c, st, buf) == (ClientError, st)
  {
  }

  // ----- A run: calls until one of them does not end with "not fired" -----

  datatype RunResult =
    | Waiting(state: TriggerState)
    | FiredIn(call: nat, offset: nat, preTrigger: seq<byte>)
    | Failed(call: nat)

  predicate WholeBuffers(bufs: seq<seq<byte>>, u: nat)
    requires u > 0
  {
    forall buf <- bufs :: Whole(|buf|, u)
  }

  /** Feed the buffers one call at a time; `done` calls were made before. */
  function Run(c: Config, st: TriggerState, bufs: seq<seq<byte>>, done: nat): RunResult
    requires c.unitsize > 0 && ValidState(c, st)
    decreases |bufs|
  {
    if bufs == [] then Waiting(st)
    else
      var (v, next) := Call(c, st, bufs[0]);
      match v
      case NotFired => Run(c, next, bufs[1..], done + 1)
      case Fired(e, pre) => FiredIn(done, e, pre)
      case _ => Failed(done)
  }

  /** A run over bufs from a fresh trigger. */
  function RunFresh(c: Config, bufs: seq<seq<byte>>): RunResult
    requires c.unitsize > 0 && c.stages != []
  {
    Run(c, Fresh(c), bufs, 0)
  }

  /** The bytes of the stream before the trigger sample of a run that fired. */
  function BeforeTrigger(bufs: seq<seq<byte>>, u: nat, call: nat, offset: nat): seq<byte>
    requires call < |bufs| && Offset(offset, u) <= |bufs[call]|
  {
    Flatten(bufs[..call]) + bufs[call][..Offset(offset, u)]
  }

  /** The pre-trigger part of a run's result, when `history` was fed before it. */
  ghost predicate PreTriggerIsTail(c: Config, history: seq<byte>, bufs: seq<seq<byte>>, done: nat, r: RunResult) {
    match r
    case Waiting(st) => st.pending == LastN(history + Flatten(bufs), c.preTriggerSize)
    case FiredIn(b, e, pre) =>
      && done <= b < done + |bufs| && Offset(e, c.unitsize) <= |bufs[b - done]|
      && pre == LastN(history + BeforeTrigger(bufs, c.unitsize, b - done, e), c.preTriggerSize)
    case Failed(b) => done <= b < done + |bufs|
  }

  lemma QuietCallKeepsTail(c: Config, st: TriggerState, history: seq<byte>, buf: seq<byte>)
    requires c.unitsize > 0 && ValidState(c, st)
    requires st.pending == LastN(history, c.preTriggerSize)
    requires Call(c, st, buf).0.NotFired?
    ensures Call(c, st, buf).1.pending == LastN(history + buf, c.preTriggerSize)
  {
    LastNOfAppend(history, buf, c.preTriggerSize);
  }

  lemma SentBytesAreTail(pending: seq<byte>, history: seq<byte>, buf: seq<byte>, u: nat, e: nat, size: nat)
    requires u > 0 && Whole(|buf|, u) && e <= |ToSamples(buf, u)|
    requires pending == LastN(history, size)
    ensures Offset(e, u) <= |buf|
    ensures LastN(pending + Flatten(ToSamples(buf, u)[..e]), size) == LastN(history + buf[..Offset(e, u)], size)
  {
    SamplesAreBytes(buf, u, e);
    LastNOfAppend(history, buf[..Offset(e, u)], size);
  }

  lemma FiringCallSendsTail(c: Config, st: TriggerState, history: seq<byte>, buf: seq<byte>, e: nat, pre: seq<byte>)
    requires c.unitsize > 0 && ValidState(c, st) && Whole(|buf|, c.unitsize)
    requires st.pending == LastN(history, c.preTriggerSize)
    requires Call(c, st, buf).0 == Fired(e, pre)
    ensures Offset(e, c.unitsize) <= |buf|
    ensures pre == LastN(history + buf[..Offset(e, c.unitsize)], c.preTriggerSize)
    ensures Call(c, st, buf).1.pending == []
  {
    SentBytesAreTail(st.pending, history, buf, c.unitsize, e, c.preTriggerSize);
  }

  /** What holds of the rest of a run after a quiet first call holds of the whole run. */
  lemma TailAfterQuietCall(c: Config, history: seq<byte>, bufs: seq<seq<byte>>, done: nat, r: RunResult)
    requires bufs != []
    requires PreTriggerIsTail(c, history + bufs[0], bufs[1..], done + 1, r)
    ensures PreTriggerIsTail(c, history, bufs, done, r)
  {
    match r
    case Waiting(_) =>
      assert history + Flatten(bufs) == history + bufs[0] + Flatten(bufs[1..]);
    case FiredIn(b, e, _) =>
      assert bufs[..b - done][1..] == bufs[1..][..b - done - 1];
      assert history + BeforeTrigger(bufs, c.unitsize, b - done, e)
          == history + bufs[0] + BeforeTrigger(bufs[1..], c.unitsize, b - done - 1, e);
    case Failed(_) =>
  }

  lemma {:induction false} RunKeepsTail(
      c: Config, st: TriggerState, history: seq<byte>, bufs: seq<seq<byte>>, done: nat)
    requires c.unitsize > 0 && ValidState(c, st)
    requires WholeBuffers(bufs, c.unitsize)
    requires st.pending == LastN(history, c.preTriggerSize)
    ensures PreTriggerIsTail(c, history, bufs, done, Run(c, st, bufs, done))
    decreases |bufs|
  {
    if bufs == [] {
      assert history + Flatten(bufs) == history;
    } else {
      var (v, next) := Call(c, st, bufs[0]);
      match v
      case NotFired =>
        QuietCallKeepsTail(c, st, history, bufs[0]);
        RunKeepsTail(c, next, history + bufs[0], bufs[1..], done + 1);
        TailAfterQuietCall(c, history, bufs, done, Run(c, next, bufs[1..], done + 1));
      case Fired(e, pre) =>
        assert bufs[0] in bufs;
        FiringCallSendsTail(c, st, history, bufs[0], e, pre);
        assert history + BeforeTrigger(bufs, c.unitsize, 0, e) == history + bufs[0][..Offset(e, c.unitsize)];
      case _ =>
    }
  }

  /**
   However the stream is split into buffers, the call that fires has sent exactly the last
   preTriggerSize bytes of the stream before the trigger sample, or all of them when there are fewer.
   */
  lemma WholeRunPreTrigger(c: Config, bufs: seq<seq<byte>>)
    requires ValidConfig(c) && WholeBuffers(bufs, c.unitsize)
    ensures PreTriggerIsTail(c, [], bufs, 0, RunFresh(c, bufs))
  {
    RunKeepsTail(c, Fresh(c), [], bufs, 0);
  }
}
