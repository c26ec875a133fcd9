/**
 What the software trigger promises about the stream as a whole: that a firing is sound across
 buffer boundaries, that a match inside one buffer is never missed, where it can miss a match,
 and, for one-stage triggers with edges, that it fires at the first sample that qualifies.
 */
module TriggerStreams {
  import opened Bytes
  import opened Datafeed
  import opened TriggerSearch
  import opened TriggerRuns

  function SamplesOf(bufs: seq<seq<byte>>, u: nat): seq<Sample>
    requires u > 0
  {
    if bufs == [] then [] else ToSamples(bufs[0], u) + SamplesOf(bufs[1..], u)
  }

  /** The samples of the buffers are the samples of the stream. */
  lemma {:induction false} SamplesOfStream(bufs: seq<seq<byte>>, u: nat)
    requires u > 0 && WholeBuffers(bufs, u)
    ensures SamplesOf(bufs, u) == ToSamples(Flatten(bufs), u)
  {
    if bufs != [] {
      assert bufs[0] in bufs;
      SamplesOfStream(bufs[1..], u);
      ToSamplesAppend(bufs[0], Flatten(bufs[1..]), u);
    }
  }

  // ----- Level triggers -----

  lemma HoldsShifted(stages: seq<Stage>, k: nat, h: seq<Sample>, t: seq<Sample>, pos: nat, n: nat)
    requires Holds(stages, k, t, pos, n)
    ensures Holds(stages, k, h + t, |h| + pos, n)
  {
    var stream, start := h + t, |h| + pos;
    forall j | 0 <= j < n
      ensures HoldsAt(stages, k, stream, start, j)
    {
      assert HoldsAt(stages, k, t, pos, j);
    }
  }

  /** An open match at the end of h goes on with the first n samples of t. */
  lemma HoldsJoined(stages: seq<Stage>, k: nat, h: seq<Sample>, t: seq<Sample>, n: nat)
    requires TailHolds(stages, h, k) && Holds(stages, k, t, 0, n)
    ensures Holds(stages, 0, h + t, |h| - k, k + n)
  {
    var stream, start := h + t, |h| - k;
    forall j | 0 <= j < k + n
      ensures HoldsAt(stages, 0, stream, start, j)
    {
      if j < k {
        assert HoldsAt(stages, 0, h, |h| - k, j);
      } else {
        assert HoldsAt(stages, k, t, 0, j - k);
      }
    }
  }

  /** One scan: what it finds is a match of the stream h + samples, what it leaves open is one too. */
  ghost predicate SoundScan(stages: seq<Stage>, u: nat, h: seq<Sample>, samples: seq<Sample>, r: (Outcome, Matcher))
  {
    match r.0
    case Found(e) => EndsMatch(stages, h + samples, |h| + e)
    case Exhausted => TailHolds(stages, h + samples, r.1.curStage)
    case NoMatches => false
    case Misaligned => u > 1
  }

  lemma FreshScanSound(stages: seq<Stage>, u: nat, h: seq<Sample>, samples: seq<Sample>, r: (Outcome, Matcher))
    requires u > 0
    requires FirstMatch(stages, samples, r)
    ensures SoundScan(stages, u, h, samples, r)
  {
    match r.0
    case Found(e) => HoldsShifted(stages, 0, h, samples, e + 1 - |stages|, |stages|);
    case Exhausted => HoldsShifted(stages, 0, h, samples, |samples| - r.1.curStage, r.1.curStage);
  }

  lemma CarriedScanSound(
      stages: seq<Stage>, u: nat, k: nat, h: seq<Sample>, samples: seq<Sample>, r: (Outcome, Matcher))
    requires u > 0
    requires 0 < k < |stages| && TailHolds(stages, h, k)
    requires CarriedOutcome(stages, u, k, samples, r)
    ensures SoundScan(stages, u, h, samples, r)
  {
    if Resumes(stages, k, samples) {
      HoldsJoined(stages, k, h, samples, Min(|samples|, |stages| - k));
    } else if u == 1 {
      FreshScanSound(stages, u, h, samples, r);
    }
  }

  lemma ScanSound(stages: seq<Stage>, u: nat, m: Matcher, h: seq<Sample>, samples: seq<Sample>)
    requires u > 0
    requires Verified(stages) && LevelOnly(stages)
    requires m.curStage < |stages|
    requires TailHolds(stages, h, m.curStage)
    ensures SoundScan(stages, u, h, samples, Scan(stages, u, m, samples, 0))
  {
    var r := Scan(stages, u, m, samples, 0);
    ScanMeaning(stages, u, m, samples);
    if m.curStage > 0 {
      CarriedScanSound(stages, u, m.curStage, h, samples, r);
    } else {
      FreshScanSound(stages, u, h, samples, r);
    }
  }

  /** Taking the first buffer out of the samples that follow `h`. */
  lemma SamplesOfRest(h: seq<Sample>, bufs: seq<seq<byte>>, u: nat)
    requires u > 0 && bufs != []
    ensures h + SamplesOf(bufs, u) == h + ToSamples(bufs[0], u) + SamplesOf(bufs[1..], u)
  {
  }

  /** Taking the first of n buffers out of the samples that follow `h`. */
  lemma SamplesOfLater(h: seq<Sample>, bufs: seq<seq<byte>>, u: nat, n: nat)
    requires u > 0 && 0 < n <= |bufs|
    ensures h + SamplesOf(bufs[..n], u) == h + ToSamples(bufs[0], u) + SamplesOf(bufs[1..][..n - 1], u)
  {
    assert bufs[..n][1..] == bufs[1..][..n - 1];
    SamplesOfRest(h, bufs[..n], u);
  }

  /** A run is sound for the stream: `h` is what was fed before. */
  ghost predicate SoundRun(c: Config, h: seq<Sample>, bufs: seq<seq<byte>>, done: nat, r: RunResult)
    requires c.unitsize > 0
  {
    match r
    case Waiting(st) => TailHolds(c.stages, h + SamplesOf(bufs, c.unitsize), st.matcher.curStage)
    case FiredIn(b, e, _) =>
      && done <= b < done + |bufs|
      && EndsMatch(c.stages, h + SamplesOf(bufs, c.unitsize),
                   |h + SamplesOf(bufs[..b - done], c.unitsize)| + e)
    case Failed(_) => c.unitsize > 1
  }

  lemma SoundAfterQuietCall(c: Config, h: seq<Sample>, bufs: seq<seq<byte>>, done: nat, r: RunResult)
    requires c.unitsize > 0 && bufs != []
    requires SoundRun(c, h + ToSamples(bufs[0], c.unitsize), bufs[1..], done + 1, r)
    ensures SoundRun(c, h, bufs, done, r)
  {
    SamplesOfRest(h, bufs, c.unitsize);
    if r.FiredIn? {
      SamplesOfLater(h, bufs, c.unitsize, r.call - done);
    }
  }

  /** A match stays one when the stream goes on. */
  lemma EndsMatchLonger(stages: seq<Stage>, a: seq<Sample>, b: seq<Sample>, e: nat)
    requires EndsMatch(stages, a, e)
    ensures EndsMatch(stages, a + b, e)
  {
    var stream, start: nat := a + b, e + 1 - |stages|;
    forall j | 0 <= j < |stages|
      ensures HoldsAt(stages, 0, stream, start, j)
    {
      assert HoldsAt(stages, 0, a, start, j);
    }
  }

  lemma {:induction false} RunSound(c: Config, st: TriggerState, h: seq<Sample>, bufs: seq<seq<byte>>, done: nat)
    requires c.unitsize > 0 && ValidState(c, st)
    requires Verified(c.stages) && LevelOnly(c.stages)
    requires TailHolds(c.stages, h, st.matcher.curStage)
    ensures SoundRun(c, h, bufs, done, Run(c, st, bufs, done))
    decreases |bufs|
  {
    if bufs == [] {
      assert h + SamplesOf(bufs, c.unitsize) == h;
    } else {
      var first, rest := ToSamples(bufs[0], c.unitsize), SamplesOf(bufs[1..], c.unitsize);
      var (v, next) := Call(c, st, bufs[0]);
      ScanSound(c.stages, c.unitsize, st.matcher, h, first);
      if v.NotFired? {
        RunSound(c, next, h + first, bufs[1..], done + 1);
        SoundAfterQuietCall(c, h, bufs, done, Run(c, next, bufs[1..], done + 1));
      } else if v.Fired? {
        assert h + SamplesOf(bufs[..0], c.unitsize) == h;
        SamplesOfRest(h, bufs, c.unitsize);
        EndsMatchLonger(c.stages, h + first, rest, |h| + v.offset);
      }
    }
  }

  /** A level trigger that fires has seen its S stages on the last S samples of the stream, wherever it was split. */
  lemma FiringIsSound(c: Config, bufs: seq<seq<byte>>)
    requires ValidConfig(c) && Verified(c.stages) && LevelOnly(c.stages)
    ensures SoundRun(c, [], bufs, 0, RunFresh(c, bufs))
  {
    RunSound(c, Fresh(c), [], bufs, 0);
  }

  /**
   Exactly when a call fires: the match carried in completes, or the buffer contains a match.
   When it does both, the carried match is the one that is reported, and it ends first.
   */
  lemma CallFiresIff(c: Config, st: TriggerState, buf: seq<byte>)
    requires ValidConfig(c) && ValidState(c, st) && Verified(c.stages) && LevelOnly(c.stages)
    ensures var k := st.matcher.curStage;
      var samples := ToSamples(buf, c.unitsize);
      var completes := k > 0 && |c.stages| - k <= |samples| && Resumes(c.stages, k, samples);
      var contains := exists e: nat :: EndsMatch(c.stages, samples, e);
      var v := Call(c, st, buf).0;
      && (v.OffGrid? <==> c.unitsize > 1 && k > 0 && !Resumes(c.stages, k, samples))
      && (!v.OffGrid? ==> (v.Fired? <==> completes || contains) && (v.NotFired? <==> !completes && !contains))
      && (v.Fired? && completes ==> v.offset == |c.stages| - k - 1)
      && (v.Fired? && !completes ==>
        && EndsMatch(c.stages, samples, v.offset)
        && forall e: nat :: EndsMatch(c.stages, samples, e) ==> v.offset <= e)
  {
    ScanMeaning(c.stages, c.unitsize, st.matcher, ToSamples(buf, c.unitsize));
  }

  lemma StraddleResumes(stages: seq<Stage>, k: nat, h: seq<Sample>, samples: seq<Sample>)
    requires k < |stages| && k <= |h| && |stages| - k <= |samples|
    requires EndsMatch(stages, h + samples, |h| + (|stages| - k) - 1)
    ensures Resumes(stages, k, samples)
  {
    var n, stream, start := |stages| - k, h + samples, |h| - k;
    forall j | 0 <= j < n
      ensures HoldsAt(stages, k, samples, 0, j)
    {
      assert HoldsAt(stages, 0, stream, start, k + j);
    }
  }

  /**
   Which match across the start of a buffer is found: when the buffer contains no match itself, one that
   starts k samples before it is reported at its end if and only if k is the stage that was carried in.
   */
  lemma StraddlingMatchFoundIff(c: Config, st: TriggerState, h: seq<Sample>, buf: seq<byte>, k: nat)
    requires ValidConfig(c) && ValidState(c, st) && Verified(c.stages) && LevelOnly(c.stages)
    requires 0 < k < |c.stages| && k <= |h| && |c.stages| - k <= |ToSamples(buf, c.unitsize)|
    requires EndsMatch(c.stages, h + ToSamples(buf, c.unitsize), |h| + (|c.stages| - k) - 1)
    requires forall e: nat :: !EndsMatch(c.stages, ToSamples(buf, c.unitsize), e)
    ensures var v := Call(c, st, buf).0;
      v.Fired? && v.offset == |c.stages| - k - 1 <==> k == st.matcher.curStage
  {
    CallFiresIff(c, st, buf);
    StraddleResumes(c.stages, k, h, ToSamples(buf, c.unitsize));
  }

  // ----- One-stage triggers, edges included -----

  /** All enabled matches of the stage hold of a sample and the one before it. */
  ghost predicate StageHolds(stage: Stage, prev: Sample, sample: Sample)
  {
    forall m <- stage :: m.channel.enabled ==> MatchHolds(m, prev, sample)
  }

  /** The first match on an enabled channel is not a level. */
  predicate LeadsWithEdge(stage: Stage) {
    stage != [] && if stage[0].channel.enabled then !stage[0].kind.IsLevel() else LeadsWithEdge(stage[1..])
  }

  lemma {:induction false} CheckStageCounted(stage: Stage, count: nat, prev: Sample, sample: Sample)
    ensures var r := CheckStage(stage, count, prev, sample);
      && count <= r.1
      && (r.1 == 0 ==> r.0)
      && (count > 0 ==> (r.0 <==> StageHolds(stage, prev, sample)))
      && (count == 0 ==> (r.0 <==> !LeadsWithEdge(stage) && StageHolds(stage, prev, sample)))
  {
    if stage != [] {
      var c := if stage[0].channel.enabled then count + 1 else count;
      CheckStageCounted(stage[1..], c, prev, sample);
      assert stage == [stage[0]] + stage[1..];
    }
  }

  /**
   Sample t of the stream satisfies the stage. The first sample of the stream has no
   predecessor: an edge that leads the stage cannot hold there, later ones compare with zeros.
   */
  ghost predicate Qualifies(stage: Stage, u: nat, stream: seq<Sample>, t: nat)
    requires t < |stream|
  {
    if t == 0 then !LeadsWithEdge(stage) && StageHolds(stage, seq(u, _ => 0 as byte), stream[0])
    else StageHolds(stage, stream[t - 1], stream[t])
  }

  /** The matcher has seen exactly the first t samples of the stream, none of which qualified. */
  ghost predicate SeenUpTo(stage: Stage, u: nat, stream: seq<Sample>, t: nat, m: Matcher)
    requires t <= |stream|
  {
    && m.curStage == 0
    && (forall t' :: 0 <= t' < t ==> !Qualifies(stage, u, stream, t'))
    && if t == 0 then m.count == 0 && m.prev == seq(u, _ => 0 as byte)
       else m.count > 0 && m.prev == stream[t - 1]
  }

  ghost predicate FirstQualifying(stage: Stage, u: nat, stream: seq<Sample>, t: nat)
  {
    t < |stream| && Qualifies(stage, u, stream, t) && forall t' :: 0 <= t' < t ==> !Qualifies(stage, u, stream, t')
  }

  lemma {:induction false} ScanOneStage(
      stage: Stage, u: nat, m: Matcher, h: seq<Sample>, samples: seq<Sample>, s: nat)
    requires u > 0
    requires stage != [] && s <= |samples|
    requires SeenUpTo(stage, u, h + samples, |h| + s, m)
    ensures var (o, m') := Scan([stage], u, m, samples, s);
      if o.Found? then FirstQualifying(stage, u, h + samples, |h| + o.at)
      else o.Exhausted? && SeenUpTo(stage, u, h + samples, |h| + |samples|, m')
    decreases |samples| - s
  {
    if s < |samples| {
      var (ok, count) := CheckStage(stage, m.count, m.prev, samples[s]);
      CheckStageCounted(stage, m.count, m.prev, samples[s]);
      assert (h + samples)[|h| + s] == samples[s];
      assert ok <==> Qualifies(stage, u, h + samples, |h| + s);
      if !ok {
        ScanOneStage(stage, u, Matcher(0, count, samples[s]), h, samples, s + 1);
      }
    }
  }

  ghost predicate NoneQualifies(stage: Stage, u: nat, stream: seq<Sample>) {
    forall t :: 0 <= t < |stream| ==> !Qualifies(stage, u, stream, t)
  }

  /** A one-stage run tells the first qualifying sample of the stream; `h` is what was fed before. */
  ghost predicate FirstOfStream(stage: Stage, u: nat, h: seq<Sample>, bufs: seq<seq<byte>>, done: nat, r: RunResult)
    requires u > 0
  {
    match r
    case Waiting(_) =>
      NoneQualifies(stage, u, h + SamplesOf(bufs, u))
    case FiredIn(b, e, _) =>
      && done <= b < done + |bufs|
      && FirstQualifying(stage, u, h + SamplesOf(bufs, u), |h + SamplesOf(bufs[..b - done], u)| + e)
    case Failed(_) => false
  }

  lemma QualifiesPrefix(stage: Stage, u: nat, a: seq<Sample>, b: seq<Sample>, t: nat)
    requires t < |a|
    ensures Qualifies(stage, u, a + b, t) <==> Qualifies(stage, u, a, t)
  {
  }

  lemma LaterPosition(h: seq<Sample>, bufs: seq<seq<byte>>, u: nat, n: nat)
    requires u > 0 && 0 < n <= |bufs|
    ensures |h + SamplesOf(bufs[..n], u)| == |h + ToSamples(bufs[0], u) + SamplesOf(bufs[1..][..n - 1], u)|
  {
    SamplesOfLater(h, bufs, u, n);
  }

  lemma SameFirst(stage: Stage, u: nat, x: seq<Sample>, t: nat, y: seq<Sample>, t': nat)
    requires x == y && t == t' && FirstQualifying(stage, u, x, t)
    ensures FirstQualifying(stage, u, y, t')
  {
  }

  /** The same position in the stream, counted with the first buffer as history and as one of the buffers. */
  lemma FiredAfterQuietCall(stage: Stage, u: nat, h: seq<Sample>, bufs: seq<seq<byte>>, n: nat, e: nat)
    requires u > 0 && 0 < n <= |bufs|
    requires var h' := h + ToSamples(bufs[0], u);
      FirstQualifying(stage, u, h' + SamplesOf(bufs[1..], u), |h' + SamplesOf(bufs[1..][..n - 1], u)| + e)
    ensures FirstQualifying(stage, u, h + SamplesOf(bufs, u), |h + SamplesOf(bufs[..n], u)| + e)
  {
    var h' := h + ToSamples(bufs[0], u);
    SamplesOfRest(h, bufs, u);
    LaterPosition(h, bufs, u, n);
    SameFirst(stage, u, h' + SamplesOf(bufs[1..], u), |h' + SamplesOf(bufs[1..][..n - 1], u)| + e,
              h + SamplesOf(bufs, u), |h + SamplesOf(bufs[..n], u)| + e);
  }

  lemma FirstAfterQuietCall(
      stage: Stage, u: nat, h: seq<Sample>, bufs: seq<seq<byte>>, done: nat, r: RunResult)
    requires u > 0 && bufs != []
    requires FirstOfStream(stage, u, h + ToSamples(bufs[0], u), bufs[1..], done + 1, r)
    ensures FirstOfStream(stage, u, h, bufs, done, r)
  {
    match r
    case Waiting(_) => SamplesOfRest(h, bufs, u);
    case FiredIn(b, e, _) => FiredAfterQuietCall(stage, u, h, bufs, b - done, e);
  }

  lemma FirstInPrefix(stage: Stage, u: nat, a: seq<Sample>, b: seq<Sample>, t: nat)
    requires FirstQualifying(stage, u, a, t)
    ensures FirstQualifying(stage, u, a + b, t)
  {
    forall t' | 0 <= t' <= t ensures Qualifies(stage, u, a + b, t') <==> Qualifies(stage, u, a, t') {
      QualifiesPrefix(stage, u, a, b, t');
    }
  }

  lemma SeenFits(stage: Stage, u: nat, h: seq<Sample>, t: seq<Sample>, m: Matcher)
    requires SeenUpTo(stage, u, h, |h|, m)
    ensures SeenUpTo(stage, u, h + t, |h|, m)
  {
    forall t' | 0 <= t' < |h| ensures !Qualifies(stage, u, h + t, t') {
      QualifiesPrefix(stage, u, h, t, t');
    }
  }

  lemma {:induction false} RunOneStage(
      c: Config, st: TriggerState, h: seq<Sample>, bufs: seq<seq<byte>>, done: nat, stage: Stage)
    requires c.unitsize > 0 && c.stages == [stage] && stage != []
    requires ValidState(c, st)
    requires SeenUpTo(stage, c.unitsize, h, |h|, st.matcher)
    ensures FirstOfStream(stage, c.unitsize, h, bufs, done, Run(c, st, bufs, done))
    decreases |bufs|
  {
    var u := c.unitsize;
    if bufs == [] {
      assert h + SamplesOf(bufs, u) == h;
    } else {
      var first := ToSamples(bufs[0], u);
      SeenFits(stage, u, h, first, st.matcher);
      ScanOneStage(stage, u, st.matcher, h, first, 0);
      var (v, next) := Call(c, st, bufs[0]);
      if v.NotFired? {
        RunOneStage(c, next, h + first, bufs[1..], done + 1, stage);
        FirstAfterQuietCall(stage, u, h, bufs, done, Run(c, next, bufs[1..], done + 1));
      } else {
        assert h + SamplesOf(bufs[..0], u) == h;
        SamplesOfRest(h, bufs, u);
        FirstInPrefix(stage, u, h + first, SamplesOf(bufs[1..], u), |h| + v.offset);
      }
    }
  }

  /**
   A one-stage trigger of any kind, edges included, fires at the first qualifying sample of the
   stream: how the stream is split into buffers makes no difference.
   */
  lemma OneStageFiresFirst(c: Config, bufs: seq<seq<byte>>)
    requires ValidConfig(c) && |c.stages| == 1 && Verified(c.stages)
    ensures FirstOfStream(c.stages[0], c.unitsize, [], bufs, 0, RunFresh(c, bufs))
  {
    assert c.stages[0] in c.stages;
    RunOneStage(c, Fresh(c), [], bufs, 0, c.stages[0]);
  }

  // ----- Where the promises end: concrete streams -----

  const LOW := Match(Channel(0, true, true), Zero)
  const HIGH := Match(Channel(0, true, true), One)
  const RISE := Match(Channel(1, true, true), Rising)

  lemma ToSamplesCons(first: Sample, rest: seq<byte>, u: nat)
    requires u > 0 && |first| == u
    ensures ToSamples(first + rest, u) == [first] + ToSamples(rest, u)
  {
    assert (first + rest)[..u] == first && (first + rest)[u..] == rest;
  }

  lemma TwoSamples(a: Sample, b: Sample, u: nat)
    requires u > 0 && |a| == u && |b| == u
    ensures ToSamples(a + b, u) == [a, b]
  {
    ToSamplesCons(a, b, u);
    ToSamplesCons(b, [], u);
    assert b + [] == b;
  }

  lemma FourSamples(a: byte, b: byte, c: byte, d: byte)
    ensures ToSamples([a, b, c, d], 1) == [[a], [b], [c], [d]]
  {
    TwoSamples([c], [d], 1);
    assert [c] + [d] == [c, d];
    ToSamplesCons([b], [c, d], 1);
    assert [b] + [c, d] == [b, c, d];
    ToSamplesCons([a], [b, c, d], 1);
    assert [a] + [b, c, d] == [a, b, c, d];
  }

  lemma StraddleMatches(c: Config, whole: seq<Sample>)
    requires c == Config([[LOW], [LOW], [HIGH]], 1, 0) && whole == [[0], [0], [0], [1]]
    ensures EndsMatch(c.stages, whole, 3) && !EndsMatch(c.stages, whole, 2)
  {
    assert Holds(c.stages, 0, whole, 1, 3);
    assert !HoldsAt(c.stages, 0, whole, 0, 2);
  }

  lemma StraddleInOneBuffer(c: Config)
    requires c == Config([[LOW], [LOW], [HIGH]], 1, 0)
    ensures Call(c, Fresh(c), [0, 0, 0, 1]).0.Fired?
    ensures Call(c, Fresh(c), [0, 0, 0, 1]).0.offset == 3
    ensures Call(c, Fresh(c), [0, 0, 0, 1]).0.preTrigger == []
  {
    FourSamples(0, 0, 0, 1);
    StraddleMatches(c, [[0], [0], [0], [1]]);
    CallFiresIff(c, Fresh(c), [0, 0, 0, 1]);
  }

  lemma StraddleInTwoBuffers(c: Config)
    requires c == Config([[LOW], [LOW], [HIGH]], 1, 0)
    ensures var (v, st) := Call(c, Fresh(c), [0, 0]);
      v == NotFired && Call(c, st, [0, 1]).0 == NotFired
  {
    TwoSamples([0], [0], 1);
    TwoSamples([0], [1], 1);
    assert [0 as byte] + [0] == [0, 0] && [0 as byte] + [1] == [0, 1];
    var half: seq<Sample> := [[0], [0]];
    CallFiresIff(c, Fresh(c), [0, 0]);
    ScanMeaning(c.stages, 1, Fresh(c).matcher, half);
    assert TailHolds(c.stages, half, 2) by {
      assert Holds(c.stages, 0, half, 0, 2);
    }
    var next := Call(c, Fresh(c), [0, 0]).1;
    assert !HoldsAt(c.stages, 2, [[0], [1]], 0, 0);
    CallFiresIff(c, next, [0, 1]);
  }

  /**
   A match that lies across two buffers can be missed: with the stages low, low, high the stream
   0 0 | 0 1 does not fire although samples 1..3 match, while the same stream in one buffer does.
   */
  lemma StraddlingMatchMissed()
    ensures var c := Config([[LOW], [LOW], [HIGH]], 1, 0);
      && EndsMatch(c.stages, ToSamples([0, 0, 0, 1], 1), 3)
      && RunFresh(c, [[0, 0, 0, 1]]) == FiredIn(0, 3, [])
      && RunFresh(c, [[0, 0], [0, 1]]).Waiting?
  {
    var c := Config([[LOW], [LOW], [HIGH]], 1, 0);
    FourSamples(0, 0, 0, 1);
    StraddleMatches(c, [[0], [0], [0], [1]]);
    StraddleInOneBuffer(c);
    StraddleInTwoBuffers(c);
    var bufs: seq<seq<byte>> := [[0, 0], [0, 1]];
    assert bufs[1..] == [[0, 1]] && bufs[1..][1..] == [];
  }

  /**
   With samples wider than a byte, a match that breaks in the next buffer restarts in the middle
   of a sample: two-byte samples, stages low then high, stream 0 | 0.
   */
  lemma CarriedMatchRestartsMidSample()
    ensures var c := Config([[LOW], [HIGH]], 2, 0);
      RunFresh(c, [[0, 0], [0, 0]]) == Failed(1)
  {
    var c := Config([[LOW], [HIGH]], 2, 0);
    var one: seq<Sample> := [[0, 0]];
    ToSamplesCons([0, 0], [], 2);
    assert [0 as byte, 0] + [] == [0, 0];
    CallFiresIff(c, Fresh(c), [0, 0]);
    ScanMeaning(c.stages, 2, Fresh(c).matcher, one);
    assert TailHolds(c.stages, one, 1) by {
      assert Holds(c.stages, 0, one, 0, 1);
    }
    var next := Call(c, Fresh(c), [0, 0]).1;
    assert ToSamples([0, 0], 2) == one;
    assert Call(c, Fresh(c), [0, 0]).0.NotFired?;
    assert FirstMatch(c.stages, one, Scan(c.stages, 2, Fresh(c).matcher, one, 0));
    assert next.matcher.curStage == 1;
    assert !HoldsAt(c.stages, 1, one, 0, 0);
    CallFiresIff(c, next, [0, 0]);
    var bufs: seq<seq<byte>> := [[0, 0], [0, 0]];
    assert bufs[1..] == [[0, 0]];
  }

  /**
   An edge that does not lead its stage is compared with zeros on the very first sample:
   "channel 0 low and channel 1 rising" fires at once on a stream that starts with channel 1 high.
   */
  lemma TrailingEdgeFiresAtOnce()
    ensures RunFresh(Config([[LOW, RISE]], 1, 0), [[2]]) == FiredIn(0, 0, [])
    ensures RunFresh(Config([[RISE, LOW]], 1, 0), [[2]]).Waiting?
  {
    var c, d := Config([[LOW, RISE]], 1, 0), Config([[RISE, LOW]], 1, 0);
    assert Flatten([[2 as byte]]) == [2] && ToSamples([2], 1) == [[2]];
    OneStageFiresFirst(c, [[2]]);
    OneStageFiresFirst(d, [[2]]);
    assert [[2 as byte]][1..] == [];
    assert [] + SamplesOf([[2]], 1) == [[2]];
    assert MatchHolds(RISE, [0], [2]) && MatchHolds(LOW, [0], [2]);
    assert Qualifies([LOW, RISE], 1, [[2]], 0);
    assert LeadsWithEdge([RISE, LOW]);
    assert !Qualifies([RISE, LOW], 1, [[2]], 0);
  }
}
