/**
 * `cents_to_note_name`: a cents offset from the drone becomes a chromatic
 * scale-degree name, with an octave annotation when the interval lies
 * outside the drone's own octave.
 */
module Intervals {
  import opened Wrappers
  import opened Decimal
  import opened Rounding

  /** The number of chromatic degrees in an octave. */
  const Degrees: nat := 12

  /** The names of the twelve chromatic degrees above the drone, degree 0 being the drone itself. */
  const NoteNames: seq<string> := ["Unison", "b2", "2", "b3", "3", "4", "b5", "5", "b6", "6", "b7", "7"]

  /**
   * Entry `i` of the table, found by walking it from the front. Defined by
   * recursion, so the verifier opens the table only as far as a proof asks
   * (`EntryIndex` equates it with `names[i]`).
   */
  function Entry(names: seq<string>, i: nat): string
    requires i < |names|
  {
    if i == 0 then names[0] else Entry(names[1..], i - 1)
  }

  /** The name of degree `i`. */
  function NoteName(i: nat): string
    requires i < Degrees
  {
    Entry(NoteNames, i)
  }

  /** `round(cents / 100)`: the nearest whole semitone, ties to even. */
  function Semitones(cents: real): (s: int)
    ensures IsHalfEvenRounding(cents / 100.0, s)
  {
    RoundHalfEven(cents / 100.0)
  }

  /** `semitones // 12`: Python's floor division, which Dafny's `/` matches for a positive divisor. */
  function Octave(semitones: int): (k: int)
    ensures 12 * k <= semitones < 12 * k + 12
  {
    semitones / 12
  }

  /** `semitones % 12`: never negative, so it always indexes the table. */
  function DegreeIndex(semitones: int): (i: nat)
    ensures i < Degrees
    ensures semitones == 12 * Octave(semitones) + i
  {
    semitones % 12
  }

  /**
   * The label of a whole number of semitones above (or below) the drone: it
   * starts with the name of the degree `semitones % 12`, and it is that name
   * alone exactly when the interval lies within the drone's own octave.
   */
  function SemitoneLabel(semitones: int): (text: string)
    ensures var name := NoteName(semitones % 12); |text| >= |name| && text[..|name|] == name
    ensures text == NoteName(semitones % 12) <==> 0 <= semitones < 12
  {
    DegreeLabel(DegreeIndex(semitones), Octave(semitones))
  }

  /** Table entry `i`, annotated with octave `k` unless `k` is 0. */
  function DegreeLabel(i: nat, k: int): (text: string)
    requires i < Degrees
    ensures |text| >= |NoteName(i)| && text[..|NoteName(i)|] == NoteName(i)
    ensures text == NoteName(i) <==> k == 0
  {
    if k == 0 then NoteName(i)
    else
      var text := NoteName(i) + OctaveSuffix(k);
      assert text[..|NoteName(i)|] == NoteName(i);
      text
  }

  /**
   * " (+k oct)" above the drone's octave, " (k oct)" below it, where `k`
   * carries its own minus sign: the third character is the sign.
   */
  function OctaveSuffix(k: int): (t: string)
    ensures |t| > 2 && t[..2] == " ("
    ensures t[2] == '+' <==> k > 0
    ensures t[2] == '-' <==> k < 0
  {
    if k > 0 then " (+" + IntToString(k) + " oct)" else " (" + IntToString(k) + " oct)"
  }

  /**
   * `cents_to_note_name(cents)`: the label of the whole number of semitones
   * nearest to `cents / 100`, ties going to the even one (there is only one
   * such number, by `RoundHalfEvenUnique`).
   */
  function CentsToNoteName(cents: real): (text: string)
    ensures exists s :: IsHalfEvenRounding(cents / 100.0, s) && text == SemitoneLabel(s)
  {
    SemitoneLabel(Semitones(cents))
  }

  // ---------------------------------------------------------------------------
  // Reading a label back: the inverse of SemitoneLabel
  // ---------------------------------------------------------------------------

  /** Position of the first space in `s`, or `|s|` when there is none. */
  function FirstSpace(s: string): (p: nat)
    ensures p <= |s|
    ensures p < |s| ==> s[p] == ' '
    ensures forall i :: 0 <= i < p ==> s[i] != ' '
  {
    if s == [] || s[0] == ' ' then 0 else 1 + FirstSpace(s[1..])
  }

  /** The table position of `name`, searching from `from` on. */
  function IndexOfName(name: string, from: nat): (r: Option<nat>)
    ensures r.Some? ==> from <= r.value < Degrees && NoteName(r.value) == name
    decreases Degrees - from
  {
    if from >= Degrees then None
    else if NoteName(from) == name then Some(from)
    else IndexOfName(name, from + 1)
  }

  /** The octave count `k` of a suffix " (+k oct)" or " (-k oct)" with `k` non-zero. */
  function ParseOctave(t: string): Option<int>
  {
    if |t| < 9 || t[..2] != " (" || t[|t| - 5..] != " oct)" then None
    else
      var sign, digits := t[2], t[3..|t| - 5];
      if !IsDigits(digits) || ParseDigits(digits) == 0 then None
      else
        var n: int := ParseDigits(digits);
        if sign == '+' then Some(n)
        else if sign == '-' then Some(-n)
      else None
  }

  /** The semitone count a label stands for, or None for text that is not a label. */
  function ParseLabel(text: string): Option<int>
  {
    var p := FirstSpace(text);
    match IndexOfName(text[..p], 0)
    case None => None
    case Some(i) =>
      if p == |text| then Some(i)
      else match ParseOctave(text[p..])
        case None => None
        case Some(k) => Some(12 * k + i)
  }

  lemma {:induction false} EntryIndex(names: seq<string>, i: nat)
    requires i < |names|
    ensures Entry(names, i) == names[i]
  {
    if i > 0 {
      EntryIndex(names[1..], i - 1);
    }
  }

  /** `NoteName` reads the table. */
  lemma NoteNamesRead()
    ensures forall i :: 0 <= i < Degrees ==> NoteName(i) == NoteNames[i]
  {
    forall i | 0 <= i < Degrees {
      EntryIndex(NoteNames, i);
    }
  }

  lemma NamesDistinct()
    ensures forall i, j :: 0 <= i < j < Degrees ==> NoteName(i) != NoteName(j)
  {
    NoteNamesRead();
    forall i, j | 0 <= i < j < Degrees
      ensures NoteName(i) != NoteName(j)
    {
      assert NoteNames[i] != NoteNames[j];
    }
  }

  lemma NamesHaveNoSpace()
    ensures forall i, c :: 0 <= i < Degrees && 0 <= c < |NoteName(i)| ==> NoteName(i)[c] != ' '
  {
    NoteNamesRead();
  }

  lemma {:induction false} IndexOfNameFinds(i: nat, from: nat)
    requires from <= i < Degrees
    ensures IndexOfName(NoteName(i), from) == Some(i)
    decreases i - from
  {
    NamesDistinct();
    if from < i {
      IndexOfNameFinds(i, from + 1);
    }
  }

  /** The octave annotation spells the count's sign and then its decimal digits. */
  lemma SuffixSpelling(k: int)
    ensures k > 0 ==> OctaveSuffix(k) == " (+" + DecimalDigits(k) + " oct)"
    ensures k < 0 ==> OctaveSuffix(k) == " (-" + DecimalDigits(-k) + " oct)"
  {
    if k < 0 {
      assert IntToString(k) == "-" + DecimalDigits(-k);
      assert " (" + ("-" + DecimalDigits(-k)) + " oct)" == " (-" + DecimalDigits(-k) + " oct)";
    }
  }

  /** Every non-zero octave annotation reads back as its octave count. */
  lemma OctaveSuffixRoundTrip(k: int)
    requires k != 0
    ensures ParseOctave(OctaveSuffix(k)) == Some(k)
  {
    var t, m := OctaveSuffix(k), if k > 0 then k else -k;
    var digits := DecimalDigits(m);
    SuffixSpelling(k);
    assert t[|t| - 5..] == " oct)";
    assert t[3..|t| - 5] == digits;
    ParseDecimalDigits(m);
  }

  /** A table name followed by nothing or by text starting with a space is split off at that space. */
  lemma SplitAfterName(i: nat, t: string)
    requires i < Degrees
    requires t == [] || t[0] == ' '
    ensures var text := NoteName(i) + t;
      FirstSpace(text) == |NoteName(i)| && text[..|NoteName(i)|] == NoteName(i) && text[|NoteName(i)|..] == t
  {
    var text := NoteName(i) + t;
    NamesHaveNoSpace();
    assert |t| > 0 ==> text[|NoteName(i)|] == ' ';
    assert text[..|NoteName(i)|] == NoteName(i);
    assert text[|NoteName(i)|..] == t;
  }

  lemma ParseBareName(i: nat)
    requires i < Degrees
    ensures ParseLabel(NoteName(i)) == Some(i)
  {
    SplitAfterName(i, []);
    assert NoteName(i) + [] == NoteName(i);
    IndexOfNameFinds(i, 0);
  }

  /** A table name followed by a space-led tail that spells octave `k` is read as that degree, `k` octaves away. */
  lemma ParseNameThen(i: nat, t: string, k: int)
    requires i < Degrees && |t| > 0 && t[0] == ' ' && ParseOctave(t) == Some(k)
    ensures ParseLabel(NoteName(i) + t) == Some(12 * k + i)
  {
    SplitAfterName(i, t);
    IndexOfNameFinds(i, 0);
  }

  lemma ParseAnnotatedName(i: nat, k: int)
    requires i < Degrees && k != 0
    ensures ParseLabel(NoteName(i) + OctaveSuffix(k)) == Some(12 * k + i)
  {
    OctaveSuffixRoundTrip(k);
    ParseNameThen(i, OctaveSuffix(k), k);
  }

  lemma DegreeLabelRoundTrip(i: nat, k: int)
    requires i < Degrees
    ensures ParseLabel(DegreeLabel(i, k)) == Some(12 * k + i)
  {
    if k == 0 {
      ParseBareName(i);
    } else {
      ParseAnnotatedName(i, k);
    }
  }

  lemma LabelIsDegreeLabel(s: int)
    ensures SemitoneLabel(s) == DegreeLabel(DegreeIndex(s), Octave(s))
    ensures s == 12 * Octave(s) + DegreeIndex(s)
  {
  }

  /** Every label reads back as the semitone count it was made from. */
  lemma LabelRoundTrip(s: int)
    ensures ParseLabel(SemitoneLabel(s)) == Some(s)
  {
    var i, k := DegreeIndex(s), Octave(s);
    calc {
      ParseLabel(SemitoneLabel(s));
      ParseLabel(DegreeLabel(i, k));
      { DegreeLabelRoundTrip(i, k); }
      Some(12 * k + i);
      { LabelIsDegreeLabel(s); }
      Some(s);
    }
  }

  /** Two different semitone counts never get the same label. */
  lemma LabelInjective(a: int, b: int)
    requires SemitoneLabel(a) == SemitoneLabel(b)
    ensures a == b
  {
    LabelRoundTrip(a);
    LabelRoundTrip(b);
  }

  /** Two cents values share a label exactly when they round to the same semitone. */
  lemma SameLabelIffSameSemitone(c1: real, c2: real)
    ensures CentsToNoteName(c1) == CentsToNoteName(c2) <==> Semitones(c1) == Semitones(c2)
  {
    if CentsToNoteName(c1) == CentsToNoteName(c2) {
      LabelInjective(Semitones(c1), Semitones(c2));
    }
  }

  /** `octaves` and `note_idx` are the only pair with `0 <= note_idx < 12` that recomposes `semitones`. */
  lemma DecompositionUnique(semitones: int, k: int, i: int)
    requires 0 <= i < 12 && semitones == 12 * k + i
    ensures k == Octave(semitones) && i == DegreeIndex(semitones)
  {
    var k0 := Octave(semitones);
    assert 12 * (k - k0) < 12 && 12 * (k0 - k) < 12;
  }

  /** One semitone below the drone is the major seventh of the octave below. */
  lemma OneSemitoneBelow()
    ensures DegreeIndex(-1) == 11 && Octave(-1) == -1
    ensures SemitoneLabel(-1) == "7 (-1 oct)"
  {
    DecompositionUnique(-1, -1, 11);
    LabelShape(-1);
    EntryIndex(NoteNames, 11);
    assert DecimalDigits(1) == "1";
    SpellMajorSeventhBelow();
  }

  lemma SpellMajorSeventhBelow()
    ensures "7" + (" (-" + "1" + " oct)") == "7 (-1 oct)"
  {
  }

  /** Adding an octave (1200 cents) keeps the degree and raises the octave count by exactly one. */
  lemma OctaveShift(cents: real)
    ensures Semitones(cents + 1200.0) == Semitones(cents) + 12
    ensures DegreeIndex(Semitones(cents + 1200.0)) == DegreeIndex(Semitones(cents))
    ensures Octave(Semitones(cents + 1200.0)) == Octave(Semitones(cents)) + 1
  {
    var s := Semitones(cents);
    assert (cents + 1200.0) / 100.0 == cents / 100.0 + 12 as real;
    RoundShiftEven(cents / 100.0, 12);
    DecompositionUnique(s + 12, Octave(s) + 1, DegreeIndex(s));
  }

  /** A cents value within 50 of `100 * k` names semitone `k`; within the drone's octave that is table entry `k`. */
  lemma NearestDegree(cents: real, k: int)
    requires 100.0 * k as real - 50.0 < cents < 100.0 * k as real + 50.0
    ensures Semitones(cents) == k
    ensures 0 <= k < 12 ==> CentsToNoteName(cents) == NoteName(k)
  {
    RoundNear(cents / 100.0, k);
    if 0 <= k < 12 {
      DecompositionUnique(k, 0, k);
    }
  }

  /** Exact half-semitones round to the even neighbour; -100 cents is one semitone down. */
  lemma HalfSemitoneCounts()
    ensures Semitones(50.0) == 0 && Semitones(-50.0) == 0 && Semitones(150.0) == 2
    ensures Semitones(1250.0) == 12 && Semitones(-100.0) == -1
  {
    RoundTies();
    assert 50.0 / 100.0 == 0.5 && -50.0 / 100.0 == -0.5 && 150.0 / 100.0 == 1.5;
    assert 1250.0 / 100.0 == 0.5 + 12 as real;
    RoundShiftEven(0.5, 12);
    RoundNear(-100.0 / 100.0, -1);
  }

  /** The labels of the semitone counts 0 and 2: table entries alone. */
  lemma DroneOctaveLabels()
    ensures SemitoneLabel(0) == "Unison" && SemitoneLabel(2) == "2"
  {
    DecompositionUnique(0, 0, 0);
    DecompositionUnique(2, 0, 2);
  }

  /** An octave up, the unison is annotated "+1". */
  lemma OctaveAboveLabel()
    ensures SemitoneLabel(12) == "Unison (+1 oct)"
  {
    DecompositionUnique(12, 1, 0);
    assert IntToString(1) == "1";
  }

  /** Exact half-semitones: 50 and -50 cents give "Unison", 150 gives "2", 1250 gives "Unison (+1 oct)". */
  lemma HalfSemitoneTies()
    ensures CentsToNoteName(50.0) == "Unison"
    ensures CentsToNoteName(-50.0) == "Unison"
    ensures CentsToNoteName(150.0) == "2"
    ensures CentsToNoteName(1250.0) == "Unison (+1 oct)"
    ensures CentsToNoteName(-100.0) == "7 (-1 oct)"
  {
    HalfSemitoneCounts();
    DroneOctaveLabels();
    OctaveAboveLabel();
    OneSemitoneBelow();
  }

  /** The label is the table entry alone in the drone's octave; otherwise the entry, then the signed octave count. */
  lemma LabelShape(semitones: int)
    ensures var name, k, text := NoteName(DegreeIndex(semitones)), Octave(semitones), SemitoneLabel(semitones);
      && (k == 0 <==> text == name)
      && (k > 0 ==> text == name + (" (+" + DecimalDigits(k) + " oct)"))
      && (k < 0 ==> text == name + (" (-" + DecimalDigits(-k) + " oct)"))
  {
    LabelIsDegreeLabel(semitones);
    SuffixSpelling(Octave(semitones));
  }
}
