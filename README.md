# Drone-relative interval labelling

A model of the analysis core of `src/analysis/audio_analyzer.py`: a recording's
pitch track (one optional fundamental frequency, one voiced flag and one voicing
probability per frame, as the pYIN tracker produces them) is turned into
scale-degree labels relative to a *drone*, the median frequency of the voiced
frames in the first two seconds.

- `Cents` — `freq_to_cents`: `1200 * log2(freq / reference)`. The logarithm is a
  parameter `lg`; the lemmas assume only `Log2Laws(lg)` (log2(1) = 0,
  log2(2x) = log2(x) + 1, strictly increasing on the positive reals).
- `Rounding` — Python's `round` on a float: nearest integer, ties to even.
- `Decimal` — Python's `str(int)` as used inside the f-string of the label.
- `Intervals` — `cents_to_note_name`: semitones by rounding, octave by floor
  division, degree by non-negative modulo, lookup in the twelve-name table, and
  the octave annotation `" (+k oct)"` / `" (k oct)"`. `ParseLabel` reads a label
  back, which shows that no two semitone counts share a label.
- `Statistics` — numpy's `median`: middle element of the sorted values, or the
  mean of the two middle ones.
- `AudioAnalyzer` — the tail of `load_and_extract_pitch`: the drone window
  (`int(2 * sr / 512)` frames, clipped to the track), the drone, the per-frame
  fill loop over two arrays, and the returned triple.

The frequency track uses `Option<real>`: `None` stands for the tracker's NaN.
The drone is `Option<real>` too: where numpy would produce NaN (no voiced frame
in the window, or a voiced frame without a frequency), the model says `None`,
and `ExtractRelativePitch` fails with `DroneUndetermined`.

Where the source's code deviates from what it evidently intends, the model
follows the intent: `np` is used but never imported (line 4); the `try:` on
line 56 has no `except`; line 73 returns the undefined name `voiced_flags`
where the local is `voiced_flag`, so the model returns the voiced flags that
the docstring promises; `relative_cents` is filled but not returned (lines 62,
70, 73), and the model likewise computes it in `LabelFrames` and drops it.

## Model

| member | source | states |
|---|---|---|
| Cents.CentsOfReference | src/analysis/audio_analyzer.py:7-9 | a frequency equal to the reference is 0 cents |
| Cents.CentsOfOctave | src/analysis/audio_analyzer.py:7-9 | twice the reference is exactly 1200 cents |
| Cents.CentsDoubling | src/analysis/audio_analyzer.py:7-9 | doubling any frequency adds exactly 1200 cents |
| Cents.CentsStrictlyIncreasing | src/analysis/audio_analyzer.py:7-9 | cents are strictly increasing in the measured frequency |
| Cents.FreqToCents | src/analysis/audio_analyzer.py:7-9 | under the log2 laws, the cents are negative, zero or positive exactly when the frequency is below, at or above the reference |
| Rounding.RoundHalfEven | src/analysis/audio_analyzer.py:17 | `round(x)` is within 1/2 of x and an exact tie yields an even integer |
| Rounding.RoundHalfEvenUnique | src/analysis/audio_analyzer.py:17 | those two properties determine the result: any integer having them is `round(x)` |
| Rounding.RoundShiftEven | src/analysis/audio_analyzer.py:17 | shifting the input by an even integer shifts the result by the same amount |
| Rounding.RoundOdd | src/analysis/audio_analyzer.py:17 | `round(-x) == -round(x)`: ties break the same way on both sides of zero |
| Rounding.RoundNear | src/analysis/audio_analyzer.py:17 | an input strictly within 1/2 of an integer rounds to it |
| Rounding.RoundTies | src/analysis/audio_analyzer.py:17 | 0.5 and -0.5 round to 0, 1.5 and 2.5 to 2, -1.5 to -2 |
| Decimal.DecimalDigits | src/analysis/audio_analyzer.py:24 | the decimal text of a natural number is non-empty, all digits, without a leading zero |
| Decimal.IntToString | src/analysis/audio_analyzer.py:24 | the text of an integer starts with '-' exactly when it is negative |
| Decimal.ParseDecimalDigits | src/analysis/audio_analyzer.py:24 | reading the decimal text back gives the number |
| Intervals.Semitones | src/analysis/audio_analyzer.py:17 | the semitone count is within 50 cents of the input, an exact 50-cent tie going to the even count |
| Intervals.Octave | src/analysis/audio_analyzer.py:18 | `semitones // 12` is the floor: `12k <= semitones < 12k + 12` |
| Intervals.DegreeIndex | src/analysis/audio_analyzer.py:19 | `semitones % 12` is a valid index of the 12-entry table, also for negative counts, and `semitones == 12 * octaves + note_idx` |
| Intervals.NoteNamesRead | src/analysis/audio_analyzer.py:14 | the name of degree i is entry i of the twelve-name table |
| Intervals.NamesDistinct | src/analysis/audio_analyzer.py:14 | the twelve names are pairwise different |
| Intervals.NamesHaveNoSpace | src/analysis/audio_analyzer.py:14 | no name contains a space, so the first space of a label ends its name |
| Intervals.OctaveSuffix | src/analysis/audio_analyzer.py:24 | the annotation starts with " (", and its third character is '+' exactly above the drone's octave and '-' exactly below it |
| Intervals.SuffixSpelling | src/analysis/audio_analyzer.py:24 | above the drone's octave the annotation is " (+k oct)"; below it " (-m oct)" with m = -k, the minus coming from `str(octaves)` |
| Intervals.DegreeLabel | src/analysis/audio_analyzer.py:21-24 | the label of entry i in octave k starts with the name of entry i, and is that name alone exactly when k is 0 |
| Intervals.SemitoneLabel | src/analysis/audio_analyzer.py:18-24 | the label of a semitone count starts with the name of degree `semitones % 12`, and is that name alone exactly when the count lies in 0..11 (octave 0) |
| Intervals.CentsToNoteName | src/analysis/audio_analyzer.py:11-24 | the label is that of a semitone count within 1/2 of `cents / 100`, exact ties going to the even count (that count is unique, by RoundHalfEvenUnique) |
| Intervals.DecompositionUnique | src/analysis/audio_analyzer.py:18-19 | (octaves, note_idx) is the only pair with `0 <= note_idx < 12` that recomposes the count |
| Intervals.OneSemitoneBelow | src/analysis/audio_analyzer.py:17-24 | semitone -1 has index 11, octave -1 and label "7 (-1 oct)" |
| Intervals.OctaveShift | src/analysis/audio_analyzer.py:17-19 | adding 1200 cents adds 12 semitones: same degree, octave raised by exactly one |
| Intervals.NearestDegree | src/analysis/audio_analyzer.py:14-22 | a cents value within 50 of 100k names semitone k, and table entry k when 0 <= k < 12 |
| Intervals.HalfSemitoneCounts | src/analysis/audio_analyzer.py:17 | `round` of 0.5, -0.5, 1.5 and 12.5 semitones gives 0, 0, 2 and 12; -100 cents is -1 semitone |
| Intervals.DroneOctaveLabels | src/analysis/audio_analyzer.py:21-22 | semitone counts 0 and 2 are labelled "Unison" and "2", without annotation |
| Intervals.OctaveAboveLabel | src/analysis/audio_analyzer.py:24 | semitone count 12 is labelled "Unison (+1 oct)" |
| Intervals.HalfSemitoneTies | src/analysis/audio_analyzer.py:14-24 | 50 and -50 cents give "Unison", 150 gives "2", 1250 gives "Unison (+1 oct)", -100 gives "7 (-1 oct)" |
| Intervals.LabelShape | src/analysis/audio_analyzer.py:21-24 | octave 0 gives the bare entry (and only then); above it "entry (+k oct)"; below it "entry (-k oct)" with the minus from k |
| Intervals.OctaveSuffixRoundTrip | src/analysis/audio_analyzer.py:24 | a non-zero octave annotation starts with a space and reads back as its octave count |
| Intervals.DegreeLabelRoundTrip | src/analysis/audio_analyzer.py:21-24 | the label of entry i in octave k reads back as the semitone count 12k + i |
| Intervals.LabelRoundTrip | src/analysis/audio_analyzer.py:14-24 | every label reads back as the semitone count it was built from |
| Intervals.LabelInjective | src/analysis/audio_analyzer.py:14-24 | different semitone counts never share a label |
| Intervals.SameLabelIffSameSemitone | src/analysis/audio_analyzer.py:11-24 | two cents values get the same label exactly when they round to the same semitone |
| Statistics.Sort | src/analysis/audio_analyzer.py:59 | the sort used by the median is ascending and a permutation of its input |
| Statistics.SortedUnique | src/analysis/audio_analyzer.py:59 | a multiset has exactly one ascending arrangement |
| Statistics.CountPermutation | src/analysis/audio_analyzer.py:59 | the counts of values at most / at least a bound do not depend on their order |
| Statistics.SortedMedian | src/analysis/audio_analyzer.py:59 | the middle element (or mean of the two middle ones) of an ascending non-empty list lies between two of its elements, and at least half the elements are at most it and at least half at least it |
| Statistics.Median | src/analysis/audio_analyzer.py:59 | the median lies between the smallest and largest value, and at least half the values are at most it and at least half at least it |
| Statistics.MedianPermutation | src/analysis/audio_analyzer.py:59 | the median depends only on the multiset of values |
| Statistics.MedianOfConstant | src/analysis/audio_analyzer.py:59 | a list of one repeated value has that value as median |
| AudioAnalyzer.DroneFrameCount | src/analysis/audio_analyzer.py:58 | `int(2 * sr / 512)` is the truncated frame count: `512w <= 2 sr < 512(w + 1)` |
| AudioAnalyzer.WindowLength | src/analysis/audio_analyzer.py:58 | slicing `f0[:w]` keeps `min(w, len(f0))` frames |
| AudioAnalyzer.SectionLength | src/analysis/audio_analyzer.py:58-59 | `len(drone_section)` is the whole track when it is shorter than the window, the window length otherwise, and never more than either |
| AudioAnalyzer.VoicedFrames | src/analysis/audio_analyzer.py:59 | the boolean mask over the first `hi` frames selects as many entries as there are voiced frames among them |
| AudioAnalyzer.VoicedFramesMembers | src/analysis/audio_analyzer.py:59 | an entry is selected exactly when some voiced frame below the bound has it |
| AudioAnalyzer.VoicedFramesCounts | src/analysis/audio_analyzer.py:59 | each entry is selected as many times as voiced frames below the bound have it |
| AudioAnalyzer.DroneSamples | src/analysis/audio_analyzer.py:58-59 | the values whose median is taken are the entries of the voiced window frames: an entry occurs exactly as often as voiced window frames have it, and there are as many values as voiced window frames |
| AudioAnalyzer.DroneSamplesCases | src/analysis/audio_analyzer.py:58-59 | the selection is empty exactly when no window frame is voiced, and holds a NaN exactly when a voiced window frame has none |
| AudioAnalyzer.DroneReference | src/analysis/audio_analyzer.py:58-59 | the drone is undetermined exactly when no window frame is voiced or a voiced one lacks a frequency; otherwise it lies between the lowest and highest voiced window frequency, at least half the voiced window frames are at or below it and at least half at or above it |
| AudioAnalyzer.PresentCounts | src/analysis/audio_analyzer.py:59 | when every voiced frame below the bound has a frequency, counting the selected frequencies at most / at least d counts the voiced frames at most / at least d |
| AudioAnalyzer.MedianHalvesFrames | src/analysis/audio_analyzer.py:59 | a value with half the selected frequencies on each side has half the voiced window frames on each side |
| AudioAnalyzer.DronePositive | src/analysis/audio_analyzer.py:59 | a drone taken from positive frequencies is positive |
| AudioAnalyzer.DroneIsMedian | src/analysis/audio_analyzer.py:58-59 | when every voiced window frame has a frequency, the drone is numpy's median of any list holding each frequency as many times as voiced window frames have it |
| AudioAnalyzer.LabelFrames | src/analysis/audio_analyzer.py:62-71 | both arrays are new and as long as `f0`; entry i holds the cents from the drone and the label of those cents exactly when frame i is voiced with a frequency, and keeps its placeholder (None) otherwise |
| AudioAnalyzer.ExtractRelativePitch | src/analysis/audio_analyzer.py:57-73 | fails exactly when the drone is undetermined; otherwise the drone is positive, the flags and probabilities are passed through, and each frame's label is that of its cents from the drone, present exactly for voiced frames with a frequency |
| AudioAnalyzer.SteadyToneDrone | src/analysis/audio_analyzer.py:58-59 | when every voiced frame is at one frequency and the window has a voiced frame, that frequency is the drone |
| AudioAnalyzer.UnisonWithDrone | src/analysis/audio_analyzer.py:7-24 | a frame at the drone frequency is at 0 cents and labelled "Unison" |
| AudioAnalyzer.SteadyToneIsUnison | src/analysis/audio_analyzer.py:58-71 | a steady tone makes itself the drone, and every labelled frame is at 0 cents, "Unison" |
| AudioAnalyzer.OctaveAboveDrone | src/analysis/audio_analyzer.py:7-24 | a frame at twice the drone frequency is labelled "Unison (+1 oct)" |

## Left out

- Audio decoding and pitch tracking (`librosa.load`, `librosa.pyin`, lines 50 and 57) are foreign DSP: their outputs are the method's inputs, three sequences of one length with every present frequency positive.
- The exception re-wrapping around loading (lines 49-54) and the not-found/decode-error distinction are I/O plumbing and are not modelled.
- `src/webapp/app.py` (upload, temporary file, preview formatting, clean-up) is HTTP and file-system glue and is not part of this model.
- Floating point: frequencies and cents are exact reals; `cents / 100`, `2 * sr / 512` and the median's mean are exact, and rounding errors of `np.log2` are not modelled.
- FreqToCents: requires positive frequencies; numpy's NaN or infinity for a non-positive ratio is not modelled (the tracker never reports such frequencies).
- Cents: log2 is an abstract parameter constrained by three laws, so no cents value of a non-dyadic frequency ratio can be computed; a note a minor third above the drone (about 523.25 Hz over 440 Hz) is covered only through NearestDegree (any offset strictly between 250 and 350 cents is "b3").
- ExtractRelativePitch: where numpy yields a NaN drone the source goes on, raises a ValueError from `round(nan)` at the first voiced frame, and returns all-None labels when no frame is voiced; the model fails with `DroneUndetermined` in every such case.
- ExtractRelativePitch: `zip` would stop at the shorter of `f0` and `voiced_flag`; the model requires the equal lengths the tracker guarantees.
- `relative_cents` is computed by LabelFrames but, as in the source, not returned by ExtractRelativePitch.
- The tests in `tests/analysis_tests/test_audio_analyzer.py` check the tracker's accuracy on a WAV file and the file-not-found path; both are I/O and foreign numerics.
