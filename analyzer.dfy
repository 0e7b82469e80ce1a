/**
 * The drone-relative labelling at the end of `load_and_extract_pitch`: the
 * drone is the median frequency of the voiced frames in the first two
 * seconds, and every voiced frame with a frequency gets its cents offset
 * from the drone and the matching scale-degree label.
 *
 * The pitch tracker's output is taken as given: `f0` holds one optional
 * frequency per frame (None where the tracker reports NaN), `voiced` the
 * voiced flags and `probs` the voicing probabilities, all of one length.
 */
module AudioAnalyzer {
  import opened Wrappers
  import opened Cents
  import opened Intervals
  import opened Statistics
  import opened Decimal

  /** Samples per frame hop assumed by the two-second window. */
  const HopLength: nat := 512
  /** Length of the drone window, in seconds. */
  const DroneSeconds: nat := 2

  /** `int(2 * sr / 512)`: the whole number of frames in the first two seconds, truncated. */
  function DroneFrameCount(sampleRate: nat): (w: nat)
    ensures w * HopLength <= DroneSeconds * sampleRate < (w + 1) * HopLength
  {
    DroneSeconds * sampleRate / HopLength
  }

  /** `len(f0[:w])`: slicing stops at the end of the sequence. */
  function WindowLength(w: nat, n: nat): (l: nat)
    ensures l <= n && l <= w && (l == n || l == w)
  {
    if w < n then w else n
  }

  /** `len(drone_section)` for a recording of `n` frames. */
  function SectionLength(n: nat, sampleRate: nat): (l: nat)
    ensures l <= n && l <= DroneFrameCount(sampleRate)
    ensures l == n || l == DroneFrameCount(sampleRate)
  {
    WindowLength(DroneFrameCount(sampleRate), n)
  }

  // ---------------------------------------------------------------------------
  // Counting frames: what the drone is, stated without the list numpy builds
  // ---------------------------------------------------------------------------

  /** How many of the frames below `hi` are voiced. */
  function VoicedCount(voiced: seq<bool>, hi: nat): nat
    requires hi <= |voiced|
  {
    if hi == 0 then 0 else VoicedCount(voiced, hi - 1) + (if voiced[hi - 1] then 1 else 0)
  }

  /** How many of the frames below `hi` are voiced with frequency `x` (None: no frequency). */
  function VoicedWith(f0: seq<Option<real>>, voiced: seq<bool>, hi: nat, x: Option<real>): nat
    requires |voiced| == |f0| && hi <= |f0|
  {
    if hi == 0 then 0
    else VoicedWith(f0, voiced, hi - 1, x) + (if voiced[hi - 1] && f0[hi - 1] == x then 1 else 0)
  }

  /** How many of the frames below `hi` are voiced with a frequency of at most `d`. */
  function VoicedAtMost(f0: seq<Option<real>>, voiced: seq<bool>, hi: nat, d: real): nat
    requires |voiced| == |f0| && hi <= |f0|
  {
    if hi == 0 then 0
    else VoicedAtMost(f0, voiced, hi - 1, d) + (if voiced[hi - 1] && f0[hi - 1].Some? && f0[hi - 1].value <= d then 1 else 0)
  }

  /** How many of the frames below `hi` are voiced with a frequency of at least `d`. */
  function VoicedAtLeast(f0: seq<Option<real>>, voiced: seq<bool>, hi: nat, d: real): nat
    requires |voiced| == |f0| && hi <= |f0|
  {
    if hi == 0 then 0
    else VoicedAtLeast(f0, voiced, hi - 1, d) + (if voiced[hi - 1] && f0[hi - 1].Some? && f0[hi - 1].value >= d then 1 else 0)
  }

  /**
   * `f0[:hi][voiced_flag[:hi]]`: the entries of the voiced frames below `hi`,
   * in frame order, as numpy's boolean-mask selection yields them.
   */
  function VoicedFrames(f0: seq<Option<real>>, voiced: seq<bool>, hi: nat): (xs: seq<Option<real>>)
    requires |voiced| == |f0| && hi <= |f0|
    ensures |xs| == VoicedCount(voiced, hi)
  {
    if hi == 0 then []
    else VoicedFrames(f0, voiced, hi - 1) + (if voiced[hi - 1] then [f0[hi - 1]] else [])
  }

  /** An entry is selected exactly when some voiced frame below `hi` has it. */
  lemma {:induction false} VoicedFramesMembers(f0: seq<Option<real>>, voiced: seq<bool>, hi: nat)
    requires |voiced| == |f0| && hi <= |f0|
    ensures forall x :: x in VoicedFrames(f0, voiced, hi) <==> exists i :: 0 <= i < hi && voiced[i] && f0[i] == x
  {
    if hi > 0 {
      VoicedFramesMembers(f0, voiced, hi - 1);
    }
  }

  /** The selection holds each entry as often as voiced frames below `hi` have it. */
  lemma {:induction false} VoicedFramesCounts(f0: seq<Option<real>>, voiced: seq<bool>, hi: nat)
    requires |voiced| == |f0| && hi <= |f0|
    ensures forall x :: multiset(VoicedFrames(f0, voiced, hi))[x] == VoicedWith(f0, voiced, hi, x)
  {
    if hi > 0 {
      VoicedFramesCounts(f0, voiced, hi - 1);
    }
  }

  /** `drone_section[voiced_flag[:len(drone_section)]]`: the entries of the voiced frames of the drone window, in frame order. */
  function DroneSamples(f0: seq<Option<real>>, voiced: seq<bool>, sampleRate: nat): (xs: seq<Option<real>>)
    requires |voiced| == |f0|
    ensures forall x :: x in xs <==> exists i :: 0 <= i < |f0| && i < DroneFrameCount(sampleRate) && voiced[i] && f0[i] == x
    ensures |xs| == VoicedCount(voiced, SectionLength(|f0|, sampleRate))
    ensures forall x :: multiset(xs)[x] == VoicedWith(f0, voiced, SectionLength(|f0|, sampleRate), x)
  {
    var l := SectionLength(|f0|, sampleRate);
    VoicedFramesMembers(f0, voiced, l);
    VoicedFramesCounts(f0, voiced, l);
    VoicedFrames(f0, voiced, l)
  }

  /** Every entry of `xs` has a frequency. */
  predicate AllPresent(xs: seq<Option<real>>) {
    forall k :: 0 <= k < |xs| ==> xs[k].Some?
  }

  /** The frequencies of a list in which every one is present. */
  function Present(xs: seq<Option<real>>): (vs: seq<real>)
    requires AllPresent(xs)
    ensures |vs| == |xs| && forall k :: 0 <= k < |xs| ==> xs[k] == Some(vs[k])
  {
    seq(|xs|, k requires 0 <= k < |xs| => xs[k].value)
  }

  /** Unwrapping keeps multiplicities: `v` occurs as often as `Some(v)` did. */
  lemma {:induction false} PresentMultiset(xs: seq<Option<real>>)
    requires AllPresent(xs)
    ensures forall v :: multiset(Present(xs))[v] == multiset(xs)[Some(v)]
  {
    if xs != [] {
      var init := xs[..|xs| - 1];
      PresentMultiset(init);
      assert xs == init + [xs[|xs| - 1]];
      assert Present(xs) == Present(init) + [xs[|xs| - 1].value];
    }
  }

  lemma PresentConcat(a: seq<Option<real>>, b: seq<Option<real>>)
    requires AllPresent(a) && AllPresent(b)
    ensures AllPresent(a + b)
    ensures Present(a + b) == Present(a) + Present(b)
  {
  }

  /** The counts of a single value. */
  lemma CountSingle(v: real, d: real)
    ensures CountAtMost([v], d) == (if v <= d then 1 else 0)
    ensures CountAtLeast([v], d) == (if v >= d then 1 else 0)
  {
    assert [v][1..] == [];
  }

  /** One more frame changes the counts of the unwrapped entries as it changes the frame counts. */
  lemma PresentCountsStep(f0: seq<Option<real>>, voiced: seq<bool>, hi: nat, d: real)
    requires |voiced| == |f0| && 0 < hi <= |f0|
    requires voiced[hi - 1] ==> f0[hi - 1].Some?
    requires AllPresent(VoicedFrames(f0, voiced, hi - 1))
    ensures var xs, prev := VoicedFrames(f0, voiced, hi), VoicedFrames(f0, voiced, hi - 1);
      && AllPresent(xs)
      && CountAtMost(Present(xs), d) == CountAtMost(Present(prev), d) + (if voiced[hi - 1] && f0[hi - 1].value <= d then 1 else 0)
      && CountAtLeast(Present(xs), d) == CountAtLeast(Present(prev), d) + (if voiced[hi - 1] && f0[hi - 1].value >= d then 1 else 0)
  {
    var xs := VoicedFrames(f0, voiced, hi);
    var prev := VoicedFrames(f0, voiced, hi - 1);
    if voiced[hi - 1] {
      var v := f0[hi - 1].value;
      assert xs == prev + [f0[hi - 1]];
      assert [f0[hi - 1]][0].Some?;
      PresentConcat(prev, [f0[hi - 1]]);
      assert Present([f0[hi - 1]]) == [v];
      assert Present(xs) == Present(prev) + [v];
      CountConcat(Present(prev), [v], d);
      CountSingle(v, d);
    } else {
      assert xs == prev + [];
      assert xs == prev;
      assert Present(xs) == Present(prev);
    }
  }

  /** Over voiced frames that all have a frequency, counting the unwrapped entries counts the frames. */
  lemma {:induction false} PresentCounts(f0: seq<Option<real>>, voiced: seq<bool>, hi: nat, d: real)
    requires |voiced| == |f0| && hi <= |f0|
    requires forall i :: 0 <= i < hi && voiced[i] ==> f0[i].Some?
    ensures var xs := VoicedFrames(f0, voiced, hi);
      && AllPresent(xs)
      && CountAtMost(Present(xs), d) == VoicedAtMost(f0, voiced, hi, d)
      && CountAtLeast(Present(xs), d) == VoicedAtLeast(f0, voiced, hi, d)
  {
    if hi > 0 {
      PresentCounts(f0, voiced, hi - 1, d);
      PresentCountsStep(f0, voiced, hi, d);
    }
  }

  /** The window has a voiced frame exactly when it yields a sample, and a voiced frame without a frequency exactly when a sample is None. */
  lemma DroneSamplesCases(f0: seq<Option<real>>, voiced: seq<bool>, sampleRate: nat)
    requires |voiced| == |f0|
    ensures var xs := DroneSamples(f0, voiced, sampleRate);
      && (xs == [] <==> forall i :: 0 <= i < |f0| && i < DroneFrameCount(sampleRate) ==> !voiced[i])
      && (None in xs <==> exists i :: 0 <= i < |f0| && i < DroneFrameCount(sampleRate) && voiced[i] && f0[i].None?)
  {
    var xs := DroneSamples(f0, voiced, sampleRate);
    forall i | 0 <= i < |f0| && i < DroneFrameCount(sampleRate) && voiced[i] ensures f0[i] in xs {
    }
    if xs != [] {
      assert xs[0] in xs;
    }
  }

  /**
   * `np.median(drone_section[voiced_flag[:len(drone_section)]])`. numpy
   * answers NaN for an empty selection and for a selection holding a NaN;
   * both become an explicit None here. Otherwise at least half the voiced
   * frames of the window lie at or below the drone and at least half at or
   * above it.
   */
  function DroneReference(f0: seq<Option<real>>, voiced: seq<bool>, sampleRate: nat): (r: Option<real>)
    requires |voiced| == |f0|
    ensures r.None? <==>
      || (forall i :: 0 <= i < |f0| && i < DroneFrameCount(sampleRate) ==> !voiced[i])
      || (exists i :: 0 <= i < |f0| && i < DroneFrameCount(sampleRate) && voiced[i] && f0[i].None?)
    ensures r.Some? ==> exists i :: 0 <= i < |f0| && i < DroneFrameCount(sampleRate) && voiced[i] && f0[i].Some? && f0[i].value <= r.value
    ensures r.Some? ==> exists j :: 0 <= j < |f0| && j < DroneFrameCount(sampleRate) && voiced[j] && f0[j].Some? && r.value <= f0[j].value
    ensures r.Some? ==>
      var l := SectionLength(|f0|, sampleRate);
      && 2 * VoicedAtMost(f0, voiced, l, r.value) >= VoicedCount(voiced, l)
      && 2 * VoicedAtLeast(f0, voiced, l, r.value) >= VoicedCount(voiced, l)
  {
    var xs := DroneSamples(f0, voiced, sampleRate);
    DroneSamplesCases(f0, voiced, sampleRate);
    if xs == [] || None in xs then
      None
    else
      assert AllPresent(xs) by {
        forall k | 0 <= k < |xs| ensures xs[k].Some? {
          assert xs[k] in xs;
        }
      }
      var vs := Present(xs);
      var d := Median(vs);
      MedianBoundsInSamples(f0, voiced, sampleRate, xs, vs, d);
      MedianHalvesFrames(f0, voiced, sampleRate, d);
      Some(d)
  }

  lemma MedianBoundsInSamples(f0: seq<Option<real>>, voiced: seq<bool>, sampleRate: nat, xs: seq<Option<real>>, vs: seq<real>, d: real)
    requires |voiced| == |f0| && xs == DroneSamples(f0, voiced, sampleRate)
    requires |vs| == |xs| > 0 && forall k :: 0 <= k < |xs| ==> xs[k] == Some(vs[k])
    requires exists i :: 0 <= i < |vs| && vs[i] <= d
    requires exists j :: 0 <= j < |vs| && d <= vs[j]
    ensures exists i :: 0 <= i < |f0| && i < DroneFrameCount(sampleRate) && voiced[i] && f0[i].Some? && f0[i].value <= d
    ensures exists j :: 0 <= j < |f0| && j < DroneFrameCount(sampleRate) && voiced[j] && f0[j].Some? && d <= f0[j].value
  {
    var a :| 0 <= a < |vs| && vs[a] <= d;
    var b :| 0 <= b < |vs| && d <= vs[b];
    assert xs[a] in xs && xs[b] in xs;
  }

  /** A drone made of positive frequencies is positive. */
  lemma DronePositive(f0: seq<Option<real>>, voiced: seq<bool>, sampleRate: nat)
    requires |voiced| == |f0|
    requires PositiveFrequencies(f0)
    ensures DroneReference(f0, voiced, sampleRate).Some? ==> DroneReference(f0, voiced, sampleRate).value > 0.0
  {
    var r := DroneReference(f0, voiced, sampleRate);
    if r.Some? {
      var i :| 0 <= i < |f0| && i < DroneFrameCount(sampleRate) && voiced[i] && f0[i].Some? && f0[i].value <= r.value;
    }
  }

  /** The median's halves of the sample list are halves of the voiced frames of the window. */
  lemma MedianHalvesFrames(f0: seq<Option<real>>, voiced: seq<bool>, sampleRate: nat, d: real)
    requires |voiced| == |f0|
    requires var xs := DroneSamples(f0, voiced, sampleRate);
      && AllPresent(xs)
      && 2 * CountAtMost(Present(xs), d) >= |xs| && 2 * CountAtLeast(Present(xs), d) >= |xs|
    ensures var l := SectionLength(|f0|, sampleRate);
      && 2 * VoicedAtMost(f0, voiced, l, d) >= VoicedCount(voiced, l)
      && 2 * VoicedAtLeast(f0, voiced, l, d) >= VoicedCount(voiced, l)
  {
    var l := SectionLength(|f0|, sampleRate);
    var xs := DroneSamples(f0, voiced, sampleRate);
    forall i | 0 <= i < l && voiced[i] ensures f0[i].Some? {
      assert f0[i] in xs;
      var k :| 0 <= k < |xs| && xs[k] == f0[i];
    }
    PresentCounts(f0, voiced, l, d);
  }

  /**
   * The drone is exactly numpy's median of the voiced frequencies of the
   * window, however they are listed: any list holding each frequency as
   * many times as voiced frames of the window have it.
   */
  lemma DroneIsMedian(f0: seq<Option<real>>, voiced: seq<bool>, sampleRate: nat, vs: seq<real>)
    requires |voiced| == |f0| && |vs| > 0
    requires VoicedWith(f0, voiced, SectionLength(|f0|, sampleRate), None) == 0
    requires forall v :: multiset(vs)[v] == VoicedWith(f0, voiced, SectionLength(|f0|, sampleRate), Some(v))
    ensures DroneReference(f0, voiced, sampleRate) == Some(Median(vs))
  {
    var xs := DroneSamples(f0, voiced, sampleRate);
    SamplesOfCounts(xs, vs);
    var ps := Present(xs);
    MedianPermutation(ps, vs);
  }

  /** A list with no None, holding `Some(v)` as often as `vs` holds `v`, unwraps to a rearrangement of `vs`. */
  lemma SamplesOfCounts(xs: seq<Option<real>>, vs: seq<real>)
    requires |vs| > 0 && multiset(xs)[None] == 0
    requires forall v :: multiset(vs)[v] == multiset(xs)[Some(v)]
    ensures xs != [] && None !in xs
    ensures AllPresent(xs)
    ensures multiset(Present(xs)) == multiset(vs)
  {
    var v := vs[0];
    assert multiset(vs)[v] > 0;
    assert multiset(vs)[v] == multiset(xs)[Some(v)];
    assert Some(v) in xs;
    forall k | 0 <= k < |xs| ensures xs[k].Some? {
      assert xs[k] in multiset(xs);
    }
    PresentMultiset(xs);
    assert forall v :: multiset(Present(xs))[v] == multiset(vs)[v];
  }

  /** Frame `i` gets an interval: it is voiced and its frequency is present (line 67). */
  predicate Labelled(f0: seq<Option<real>>, voiced: seq<bool>, i: int)
    requires |voiced| == |f0|
  {
    0 <= i < |f0| && voiced[i] && f0[i].Some?
  }

  /** Every frequency the tracker reports is positive. */
  predicate PositiveFrequencies(f0: seq<Option<real>>) {
    forall i :: 0 <= i < |f0| && f0[i].Some? ==> f0[i].value > 0.0
  }

  /** `notes` holds a label exactly for the labelled frames: the label of the frame's cents offset from `drone`. */
  ghost predicate LabelsAgainst(f0: seq<Option<real>>, voiced: seq<bool>, drone: real, lg: real -> real, notes: seq<Option<string>>)
    requires |voiced| == |f0| && drone > 0.0 && PositiveFrequencies(f0)
  {
    && |notes| == |f0|
    && (forall i :: 0 <= i < |f0| ==> (notes[i].Some? <==> Labelled(f0, voiced, i)))
    && (forall i :: Labelled(f0, voiced, i) ==> notes[i] == Some(CentsToNoteName(FreqToCents(lg, f0[i].value, drone))))
  }

  /** `relative_cents[i]` once the loop is done: the offset from `drone` for a labelled frame, the NaN placeholder (None) otherwise. */
  function FrameCents(f0: seq<Option<real>>, voiced: seq<bool>, drone: real, lg: real -> real, i: nat): Option<real>
    requires |voiced| == |f0| && drone > 0.0 && PositiveFrequencies(f0) && i < |f0|
  {
    if voiced[i] && f0[i].Some? then Some(FreqToCents(lg, f0[i].value, drone)) else None
  }

  /** `relative_notes[i]` once the loop is done: the label of `relative_cents[i]`, None where that is the placeholder. */
  function FrameNote(f0: seq<Option<real>>, voiced: seq<bool>, drone: real, lg: real -> real, i: nat): Option<string>
    requires |voiced| == |f0| && drone > 0.0 && PositiveFrequencies(f0) && i < |f0|
  {
    match FrameCents(f0, voiced, drone, lg, i)
    case None => None
    case Some(c) => Some(CentsToNoteName(c))
  }

  /** Notes made frame by frame label exactly the labelled frames, each with its own interval from the drone. */
  lemma FrameNotesLabel(f0: seq<Option<real>>, voiced: seq<bool>, drone: real, lg: real -> real, notes: seq<Option<string>>)
    requires |voiced| == |f0| && drone > 0.0 && PositiveFrequencies(f0)
    requires |notes| == |f0| && forall i :: 0 <= i < |f0| ==> notes[i] == FrameNote(f0, voiced, drone, lg, i)
    ensures LabelsAgainst(f0, voiced, drone, lg, notes)
  {
  }

  /**
   * Lines 62-71: two arrays the length of `f0` start out as placeholders
   * (NaN and None, both None here); the loop then overwrites entry `i`, and
   * only entry `i`, when frame `i` is voiced and has a frequency.
   */
  method LabelFrames(f0: seq<Option<real>>, voiced: seq<bool>, drone: real, lg: real -> real)
    returns (cents: array<Option<real>>, notes: array<Option<string>>)
    requires |voiced| == |f0| && drone > 0.0 && PositiveFrequencies(f0)
    ensures fresh(cents) && fresh(notes)
    ensures cents.Length == |f0| && notes.Length == |f0|
    ensures forall i :: 0 <= i < |f0| ==> cents[i] == FrameCents(f0, voiced, drone, lg, i)
    ensures forall i :: 0 <= i < |f0| ==> notes[i] == FrameNote(f0, voiced, drone, lg, i)
  {
    var n := |f0|;
    cents := new Option<real>[n](_ => None);
    notes := new Option<string>[n](_ => None);
    for i := 0 to n
      invariant forall j :: 0 <= j < i ==> cents[j] == FrameCents(f0, voiced, drone, lg, j)
      invariant forall j :: 0 <= j < i ==> notes[j] == FrameNote(f0, voiced, drone, lg, j)
      invariant forall j :: i <= j < n ==> cents[j] == None && notes[j] == None
    {
      var freq, isVoiced := f0[i], voiced[i];
      if isVoiced && freq.Some? {
        var c := FreqToCents(lg, freq.value, drone);
        var name := CentsToNoteName(c);
        cents[i] := Some(c);
        notes[i] := Some(name);
      }
    }
  }

  /** The drone could not be determined from the first two seconds. */
  datatype AnalysisError = DroneUndetermined

  /** What `load_and_extract_pitch` hands back: per-frame labels, the voiced flags and the voicing probabilities. */
  datatype Analysis = Analysis(notes: seq<Option<string>>, voicedFlags: seq<bool>, voicedProbs: seq<real>)

  /**
   * Lines 57-73 after the pitch tracker: drone, then per-frame labels.
   * Where the drone is undetermined the analysis fails explicitly.
   */
  method ExtractRelativePitch(f0: seq<Option<real>>, voiced: seq<bool>, probs: seq<real>, sampleRate: nat, lg: real -> real)
    returns (r: Result<Analysis, AnalysisError>)
    requires |voiced| == |f0| && |probs| == |f0|
    requires PositiveFrequencies(f0)
    ensures r.Failure? <==> DroneReference(f0, voiced, sampleRate).None?
    ensures r.Success? ==>
      var drone := DroneReference(f0, voiced, sampleRate).value;
      && drone > 0.0
      && r.value.voicedFlags == voiced && r.value.voicedProbs == probs
      && LabelsAgainst(f0, voiced, drone, lg, r.value.notes)
  {
    var drone := DroneReference(f0, voiced, sampleRate);
    if drone.None? {
      return Failure(DroneUndetermined);
    }
    DronePositive(f0, voiced, sampleRate);
    var cents, notes := LabelFrames(f0, voiced, drone.value, lg);
    FrameNotesLabel(f0, voiced, drone.value, lg, notes[..]);
    r := Success(Analysis(notes[..], voiced, probs));
  }

  /** A steady tone in the window is the drone. */
  lemma SteadyToneDrone(f0: seq<Option<real>>, voiced: seq<bool>, sampleRate: nat, v: real)
    requires |voiced| == |f0|
    requires forall i :: 0 <= i < |f0| && voiced[i] ==> f0[i] == Some(v)
    requires exists i :: 0 <= i < |f0| && i < DroneFrameCount(sampleRate) && voiced[i]
    ensures DroneReference(f0, voiced, sampleRate) == Some(v)
  {
    var r := DroneReference(f0, voiced, sampleRate);
    assert r.Some?;
    var i :| 0 <= i < |f0| && i < DroneFrameCount(sampleRate) && voiced[i] && f0[i].Some? && f0[i].value <= r.value;
    var j :| 0 <= j < |f0| && j < DroneFrameCount(sampleRate) && voiced[j] && f0[j].Some? && r.value <= f0[j].value;
    assert f0[i] == Some(v) && f0[j] == Some(v);
    assert r.value == v;
  }

  /** A frame at the drone frequency is at 0 cents, "Unison". */
  lemma UnisonWithDrone(lg: real -> real, v: real)
    requires Log2Laws(lg) && v > 0.0
    ensures FreqToCents(lg, v, v) == 0.0 && CentsToNoteName(FreqToCents(lg, v, v)) == "Unison"
  {
    CentsOfReference(lg, v);
    NearestDegree(0.0, 0);
  }

  /** A steady tone: the drone is that tone and every labelled frame is at 0 cents, "Unison". */
  lemma SteadyToneIsUnison(f0: seq<Option<real>>, voiced: seq<bool>, sampleRate: nat, lg: real -> real, v: real)
    requires Log2Laws(lg) && |voiced| == |f0| && v > 0.0
    requires forall i :: 0 <= i < |f0| && voiced[i] ==> f0[i] == Some(v)
    requires exists i :: 0 <= i < |f0| && i < DroneFrameCount(sampleRate) && voiced[i]
    ensures DroneReference(f0, voiced, sampleRate) == Some(v)
    ensures forall i :: Labelled(f0, voiced, i) ==>
      FreqToCents(lg, f0[i].value, v) == 0.0 && CentsToNoteName(FreqToCents(lg, f0[i].value, v)) == "Unison"
  {
    SteadyToneDrone(f0, voiced, sampleRate, v);
    UnisonWithDrone(lg, v);
  }

  /** A frame an octave above the drone is labelled "Unison (+1 oct)". */
  lemma OctaveAboveDrone(lg: real -> real, drone: real)
    requires Log2Laws(lg) && drone > 0.0
    ensures CentsToNoteName(FreqToCents(lg, 2.0 * drone, drone)) == "Unison (+1 oct)"
  {
    CentsOfOctave(lg, drone);
    NearestDegree(1200.0, 12);
    DecompositionUnique(12, 1, 0);
    assert IntToString(1) == "1";
  }
}
