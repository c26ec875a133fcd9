/**
 The stage matcher of the software trigger as a function of the samples it is given.
 `Scan` follows the loop of soft_trigger_logic_check branch by branch, counted in
 samples; the lemmas say which samples it finds.
 */
module TriggerSearch {
  import opened Bytes
  import opened Datafeed

  datatype MatchKind = Zero | One | Rising | Falling | Edge | Over | Under {
    predicate IsLevel() {
      Zero? || One?
    }
  }

  datatype Match = Match(channel: Channel, kind: MatchKind)

  type Stage = seq<Match>
  type Sample = seq<byte>

  /** What the matcher carries from one sample, and from one call, to the next. */
  datatype Matcher = Matcher(curStage: nat, count: nat, prev: Sample)

  datatype Outcome =
    | Found(at: nat)   // the last stage matched at this sample
    | Exhausted        // every sample was looked at
    | NoMatches        // the current stage has no match at all
    | Misaligned       // the restart position is not the start of a sample

  // ----- What it means to match -----

  /** The bit of a channel in a sample. A channel that the sample has no byte for reads as low. */
  predicate ChannelBit(sample: Sample, index: nat) {
    index / 8 < |sample| && BitAt(sample[index / 8], index % 8)
  }

  predicate StageFits(stage: Stage, unitsize: nat) {
    forall m <- stage :: m.channel.index < 8 * unitsize
  }

  predicate StagesFit(stages: seq<Stage>, unitsize: nat) {
    forall stage <- stages :: StageFits(stage, unitsize)
  }

  predicate LevelOnly(stages: seq<Stage>) {
    forall stage <- stages, m <- stage :: m.kind.IsLevel()
  }

  /** At least one stage and no empty stage: what verify_trigger checks before a session starts. */
  predicate Verified(stages: seq<Stage>) {
    stages != [] && forall stage <- stages :: stage != []
  }

  /** The condition `m` puts on a sample and the sample before it. */
  predicate MatchHolds(m: Match, prev: Sample, sample: Sample) {
    var before, now := ChannelBit(prev, m.channel.index), ChannelBit(sample, m.channel.index);
    match m.kind
    case Zero => !now
    case One => now
    case Rising => !before && now
    case Falling => before && !now
    case Edge => before != now
    case Over => false
    case Under => false
  }

  /** Which bit a channel is: byte index / 8 from the front, bit index % 8 from the least significant one. */
  ghost predicate IsHigh(sample: Sample, index: nat) {
    index / 8 < |sample| && exists h: nat, r: nat :: LeavesOdd(sample[index / 8], index % 8, h, r)
  }

  lemma ChannelBitIs(sample: Sample, index: nat)
    ensures ChannelBit(sample, index) <==> IsHigh(sample, index)
  {
    if index / 8 < |sample| {
      BitAtIs(sample[index / 8], index % 8);
    }
  }

  /** What each kind of match means for a sample and the one before it. */
  lemma MatchKindsMean(channel: Channel, prev: Sample, sample: Sample)
    ensures MatchHolds(Match(channel, One), prev, sample) <==> IsHigh(sample, channel.index)
    ensures MatchHolds(Match(channel, Zero), prev, sample) <==> !IsHigh(sample, channel.index)
    ensures MatchHolds(Match(channel, Rising), prev, sample) <==>
      !IsHigh(prev, channel.index) && IsHigh(sample, channel.index)
    ensures MatchHolds(Match(channel, Falling), prev, sample) <==> MatchHolds(Match(channel, Rising), sample, prev)
    ensures MatchHolds(Match(channel, Edge), prev, sample) <==>
      MatchHolds(Match(channel, Rising), prev, sample) != MatchHolds(Match(channel, Falling), prev, sample)
    ensures !MatchHolds(Match(channel, Over), prev, sample) && !MatchHolds(Match(channel, Under), prev, sample)
  {
    ChannelBitIs(prev, channel.index);
    ChannelBitIs(sample, channel.index);
  }

  /** All enabled level matches of a stage hold of one sample. */
  ghost predicate LevelsHold(stage: Stage, sample: Sample)
  {
    forall m <- stage :: m.channel.enabled ==> MatchHolds(m, sample, sample)
  }

  /** Sample pos + j satisfies stage k + j. */
  ghost predicate HoldsAt(stages: seq<Stage>, k: nat, samples: seq<Sample>, pos: nat, j: nat)
    requires k + j < |stages| && pos + j < |samples|
  {
    LevelsHold(stages[k + j], samples[pos + j])
  }

  /** Samples pos .. pos+n-1 satisfy stages k .. k+n-1, in order. */
  ghost predicate Holds(stages: seq<Stage>, k: nat, samples: seq<Sample>, pos: nat, n: nat)
  {
    && k + n <= |stages| && pos + n <= |samples|
    && forall j :: 0 <= j < n ==> HoldsAt(stages, k, samples, pos, j)
  }

  /** A match that starts at `start` breaks on a sample that is there to be seen. */
  ghost predicate Dead(stages: seq<Stage>, samples: seq<Sample>, start: nat)
  {
    exists j :: 0 <= j < |stages| && start + j < |samples| && !HoldsAt(stages, 0, samples, start, j)
  }

  // ----- The matcher -----

  /** logic_check_match; `count` already counts this check. */
  predicate CheckMatch(m: Match, count: nat, prev: Sample, sample: Sample) {
    (m.kind.IsLevel() || count != 1) && MatchHolds(m, prev, sample)
  }

  /** An edge needs a check before it; apart from that the check of a match is the match. */
  lemma CheckMatchMeans(m: Match, count: nat, prev: Sample, sample: Sample)
    ensures m.kind.Zero? || m.kind.One? || count != 1 ==>
      (CheckMatch(m, count, prev, sample) <==> MatchHolds(m, prev, sample))
    ensures !m.kind.Zero? && !m.kind.One? && count == 1 ==> !CheckMatch(m, count, prev, sample)
  {
  }

  /** The loop over the matches of one stage: does the stage match, and how far did `count` get. */
  function CheckStage(stage: Stage, count: nat, prev: Sample, sample: Sample): (r: (bool, nat)) {
    if stage == [] then (true, count)
    else if !stage[0].channel.enabled then CheckStage(stage[1..], count, prev, sample)
    else if !CheckMatch(stage[0], count + 1, prev, sample) then (false, count + 1)
    else CheckStage(stage[1..], count + 1, prev, sample)
  }

  /** The loop over the samples, from sample `s` on. */
  function Scan(stages: seq<Stage>, u: nat, m: Matcher, samples: seq<Sample>, s: nat): (r: (Outcome, Matcher))
    requires u > 0
    requires m.curStage < |stages|
    ensures r.1.curStage < |stages|
    ensures r.0.Found? ==> s <= r.0.at + m.curStage && r.0.at < |samples|
    decreases |samples| - s + m.curStage, |stages| - m.curStage
  {
    if s >= |samples| then (Exhausted, m)
    else
      var stage := stages[m.curStage];
      if stage == [] then (NoMatches, m)
      else
        var (ok, count) := CheckStage(stage, m.count, m.prev, samples[s]);
        var seen := Matcher(m.curStage, count, samples[s]);
        if ok then
          if m.curStage + 1 < |stages| then Scan(stages, u, seen.(curStage := m.curStage + 1), samples, s + 1)
          else (Found(s), seen)
        else if m.curStage == 0 then Scan(stages, u, seen, samples, s + 1)
        else
          var reset := seen.(curStage := 0);
          if m.curStage <= s then Scan(stages, u, reset, samples, s - m.curStage + 1)
          else if u == 1 then Scan(stages, u, reset, samples, 0)
          else (Misaligned, reset)
  }

  lemma {:induction false} CountGrows(stage: Stage, count: nat, prev: Sample, sample: Sample)
    ensures count <= CheckStage(stage, count, prev, sample).1
  {
    if stage != [] {
      CountGrows(stage[1..], if stage[0].channel.enabled then count + 1 else count, prev, sample);
    }
  }

  /** The sample before the next one is the last that was looked at, and checks are only ever counted up. */
  lemma {:induction false} ScanRemembers(stages: seq<Stage>, u: nat, m: Matcher, samples: seq<Sample>, s: nat)
    requires u > 0 && m.curStage < |stages|
    ensures var (o, r) := Scan(stages, u, m, samples, s);
      && (o.Found? ==> r.prev == samples[o.at])
      && (o.Exhausted? ==> r.prev == if s < |samples| then samples[|samples| - 1] else m.prev)
      && m.count <= r.count
    decreases |samples| - s + m.curStage, |stages| - m.curStage
  {
    if s < |samples| && stages[m.curStage] != [] {
      var (ok, count) := CheckStage(stages[m.curStage], m.count, m.prev, samples[s]);
      var seen := Matcher(m.curStage, count, samples[s]);
      CountGrows(stages[m.curStage], m.count, m.prev, samples[s]);
      if ok {
        if m.curStage + 1 < |stages| {
          ScanRemembers(stages, u, seen.(curStage := m.curStage + 1), samples, s + 1);
        }
      } else if m.curStage == 0 {
        ScanRemembers(stages, u, seen, samples, s + 1);
      } else if m.curStage <= s {
        ScanRemembers(stages, u, seen.(curStage := 0), samples, s - m.curStage + 1);
      } else if u == 1 {
        ScanRemembers(stages, u, seen.(curStage := 0), samples, 0);
      }
    }
  }

  // ----- Level triggers: the first occurrence of the stages is what is found -----

  lemma {:induction false} CheckStageLevel(stage: Stage, count: nat, prev: Sample, sample: Sample)
    requires forall m <- stage :: m.kind.IsLevel()
    ensures CheckStage(stage, count, prev, sample).0 == LevelsHold(stage, sample)
  {
    if stage != [] {
      var c := if stage[0].channel.enabled then count + 1 else count;
      CheckStageLevel(stage[1..], c, prev, sample);
      assert stage == [stage[0]] + stage[1..];
    }
  }

  /** What a search that began at stage 0 has established when it ends. */
  ghost predicate Searched(stages: seq<Stage>, samples: seq<Sample>, r: (Outcome, Matcher))
  {
    match r.0
    case Found(e) =>
      && |stages| <= e + 1
      && Holds(stages, 0, samples, e + 1 - |stages|, |stages|)
      && (forall c: nat :: c < e + 1 - |stages| ==> Dead(stages, samples, c))
      && r.1.curStage == |stages| - 1
    case Exhausted =>
      var k := r.1.curStage;
      && k < |stages| && k <= |samples|
      && Holds(stages, 0, samples, |samples| - k, k)
      && (forall c: nat :: c < |samples| - k ==> Dead(stages, samples, c))
    case _ => false
  }

  /** The backtracking search keeps: the open candidate s - curStage holds so far, all earlier starts are dead. */
  lemma {:induction false} ScanSearches(stages: seq<Stage>, u: nat, m: Matcher, samples: seq<Sample>, s: nat)
    requires u > 0
    requires Verified(stages) && LevelOnly(stages)
    requires m.curStage < |stages| && m.curStage <= s <= |samples|
    requires Holds(stages, 0, samples, s - m.curStage, m.curStage)
    requires forall c: nat :: c < s - m.curStage ==> Dead(stages, samples, c)
    ensures Searched(stages, samples, Scan(stages, u, m, samples, s))
    decreases |samples| - s + m.curStage, |stages| - m.curStage
  {
    if s < |samples| {
      var k := m.curStage;
      assert stages[k] in stages;
      var (ok, count) := CheckStage(stages[k], m.count, m.prev, samples[s]);
      var seen := Matcher(k, count, samples[s]);
      CheckStageLevel(stages[k], m.count, m.prev, samples[s]);
      if ok {
        assert Holds(stages, 0, samples, s - k, k + 1);
        if k + 1 < |stages| {
          ScanSearches(stages, u, seen.(curStage := k + 1), samples, s + 1);
        }
      } else {
        assert !HoldsAt(stages, 0, samples, s - k, k);
        assert Dead(stages, samples, s - k);
        ScanSearches(stages, u, seen.(curStage := 0), samples, s - k + 1);
      }
    }
  }

  /** Samples e-S+1 .. e satisfy all S stages. */
  ghost predicate EndsMatch(stages: seq<Stage>, samples: seq<Sample>, e: nat)
  {
    |stages| <= e + 1 && Holds(stages, 0, samples, e + 1 - |stages|, |stages|)
  }

  /** The last k samples satisfy stages 0 .. k-1. */
  ghost predicate TailHolds(stages: seq<Stage>, samples: seq<Sample>, k: nat)
  {
    k <= |samples| && Holds(stages, 0, samples, |samples| - k, k)
  }

  /** k is the length of the longest incomplete match that the samples end with. */
  ghost predicate LongestTail(stages: seq<Stage>, samples: seq<Sample>, k: nat)
  {
    && k < |stages| && TailHolds(stages, samples, k)
    && forall k': nat :: k < k' < |stages| ==> !TailHolds(stages, samples, k')
  }

  /** The outcome of a search from stage 0: the first match, or else the longest open one. */
  ghost predicate FirstMatch(stages: seq<Stage>, samples: seq<Sample>, r: (Outcome, Matcher))
  {
    match r.0
    case Found(e) =>
      && EndsMatch(stages, samples, e)
      && (forall e': nat :: e' < e ==> !EndsMatch(stages, samples, e'))
      && r.1.curStage == |stages| - 1
    case Exhausted =>
      && (forall e: nat :: !EndsMatch(stages, samples, e))
      && LongestTail(stages, samples, r.1.curStage)
    case _ => false
  }

  lemma SearchedFirstMatch(stages: seq<Stage>, samples: seq<Sample>, r: (Outcome, Matcher))
    requires stages != []
    requires Searched(stages, samples, r)
    ensures FirstMatch(stages, samples, r)
  {
    forall e: nat | EndsMatch(stages, samples, e) && !(r.0.Found? && r.0.at <= e)
      ensures false
    {
      var c: nat := e + 1 - |stages|;
      if Dead(stages, samples, c) { assert false; }
    }
    if r.0.Exhausted? {
      forall k': nat | r.1.curStage < k' < |stages| && TailHolds(stages, samples, k')
        ensures false
      {
        var c: nat := |samples| - k';
        if Dead(stages, samples, c) { assert false; }
      }
    }
  }

  /** A call entered at stage 0 finds the first occurrence of the stages, for every sample width. */
  lemma FreshScanFindsFirst(stages: seq<Stage>, u: nat, m: Matcher, samples: seq<Sample>)
    requires u > 0
    requires Verified(stages) && LevelOnly(stages)
    requires m.curStage == 0
    ensures FirstMatch(stages, samples, Scan(stages, u, m, samples, 0))
  {
    ScanSearches(stages, u, m, samples, 0);
    SearchedFirstMatch(stages, samples, Scan(stages, u, m, samples, 0));
  }

  // ----- Level triggers entered in the middle of a match -----

  function Min(a: nat, b: nat): nat {
    if a <= b then a else b
  }

  /** The match carried in at stage k goes on until it is complete or the samples end. */
  ghost predicate Resumes(stages: seq<Stage>, k: nat, samples: seq<Sample>)
    requires k <= |stages|
  {
    Holds(stages, k, samples, 0, Min(|samples|, |stages| - k))
  }

  /** The outcome of a call entered at stage k > 0: carry the open match on, else search afresh. */
  ghost predicate CarriedOutcome(stages: seq<Stage>, u: nat, k: nat, samples: seq<Sample>, r: (Outcome, Matcher))
    requires k < |stages|
  {
    if Resumes(stages, k, samples) then
      if |stages| - k <= |samples| then r.0 == Found(|stages| - k - 1) && r.1.curStage == |stages| - 1
      else r.0 == Exhausted && r.1.curStage == k + |samples|
    else if u == 1 then FirstMatch(stages, samples, r)
    else r.0 == Misaligned
  }

  lemma {:induction false} ScanCarries(
      stages: seq<Stage>, u: nat, k: nat, m: Matcher, samples: seq<Sample>, s: nat)
    requires u > 0
    requires Verified(stages) && LevelOnly(stages)
    requires 0 < k && m.curStage == k + s < |stages| && s <= |samples|
    requires Holds(stages, k, samples, 0, s)
    ensures CarriedOutcome(stages, u, k, samples, Scan(stages, u, m, samples, s))
    decreases |samples| - s
  {
    if s < |samples| {
      assert stages[k + s] in stages;
      var (ok, count) := CheckStage(stages[k + s], m.count, m.prev, samples[s]);
      var seen := Matcher(k + s, count, samples[s]);
      CheckStageLevel(stages[k + s], m.count, m.prev, samples[s]);
      assert ok == HoldsAt(stages, k, samples, 0, s);
      if ok {
        if k + s + 1 < |stages| {
          ScanCarries(stages, u, k, seen.(curStage := k + s + 1), samples, s + 1);
        }
      } else if u == 1 {
        FreshScanFindsFirst(stages, u, seen.(curStage := 0), samples);
      }
    }
  }

  /**
   What a call does for a level trigger, whatever stage it is entered at. Its restart position
   is not the start of a sample exactly when samples are wider than a byte and the match carried
   in breaks inside this call.
   */
  lemma ScanMeaning(stages: seq<Stage>, u: nat, m: Matcher, samples: seq<Sample>)
    requires u > 0
    requires Verified(stages) && LevelOnly(stages)
    requires m.curStage < |stages|
    ensures var r := Scan(stages, u, m, samples, 0);
      && (m.curStage == 0 ==> FirstMatch(stages, samples, r))
      && (m.curStage > 0 ==> CarriedOutcome(stages, u, m.curStage, samples, r))
      && (r.0.Misaligned? <==> u > 1 && m.curStage > 0 && !Resumes(stages, m.curStage, samples))
  {
    if m.curStage == 0 {
      FreshScanFindsFirst(stages, u, m, samples);
    } else {
      ScanCarries(stages, u, m.curStage, m, samples, 0);
    }
  }
}
