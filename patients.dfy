/**
 * The `patients` table: one row per raw report, keyed by the report's id and
 * version, with the age, weight and sex of its patient record.
 */
module Patients {
  import opened Wrappers
  import opened Raw
  import opened PyStr
  import Rows

  const SEX_CODES: map<string, string> := map["1" := "Male", "2" := "Female"]

  /** The weight column holds whole kilograms, or the sentinel where the rounded weight is 0. */
  datatype Weight = Kilograms(kg: int) | WeightNotMentioned

  datatype PatientRow = PatientRow(
    patientId: int,
    versionId: int,
    patientAge: string,
    patientWeight: Weight,
    patientSex: string)

  /** `round()` on a float column: to the nearest integer, ties to the even one. */
  function RoundHalfEven(x: real): int
  {
    var f := x.Floor;
    var d := x - f as real;
    if d < 0.5 then f
    else if d > 0.5 then f + 1
    else if f % 2 == 0 then f
    else f + 1
  }

  /** The rounded value is within a half of `x`, and even when `x` lies exactly between two integers. */
  lemma RoundHalfEvenSpec(x: real)
    ensures var n := RoundHalfEven(x);
      -0.5 <= x - n as real <= 0.5 &&
      (x - n as real == 0.5 || x - n as real == -0.5 ==> n % 2 == 0)
  {
  }

  /** Any integer that meets that specification is the rounded value. */
  lemma RoundHalfEvenUnique(x: real, m: int)
    requires -0.5 <= x - m as real <= 0.5
    requires x - m as real == 0.5 || x - m as real == -0.5 ==> m % 2 == 0
    ensures RoundHalfEven(x) == m
  {
    RoundHalfEvenSpec(x);
  }

  /** `patientweight`: missing counts as 0, the value is rounded, and 0 becomes the sentinel. */
  function PatientWeight(w: Option<real>): Weight
  {
    var n := RoundHalfEven(w.GetOr(0.0));
    if n == 0 then WeightNotMentioned else Kilograms(n)
  }

  /** A weight is reported exactly when it rounds away from 0, and then as its nearest whole number. */
  lemma PatientWeightSpec(w: Option<real>)
    ensures PatientWeight(w) == WeightNotMentioned <==> -0.5 <= w.GetOr(0.0) <= 0.5
    ensures w.None? ==> PatientWeight(w) == WeightNotMentioned
    ensures PatientWeight(w).Kilograms? ==>
      var n := PatientWeight(w).kg;
      n != 0 && -0.5 <= w.value - n as real <= 0.5
  {
    var x := w.GetOr(0.0);
    RoundHalfEvenSpec(x);
    if -0.5 <= x <= 0.5 {
      RoundHalfEvenUnique(x, 0);
    }
  }

  /** `patientonsetage`: only a missing age becomes the sentinel; a text `0` is not the number 0 and stays. */
  function PatientAge(f: Field): string
  {
    match f
    case Text(s) => s
    case Missing => NOT_MENTIONED
  }

  /**
   * The age reads the sentinel exactly when it is missing or already reads
   * so; a present age is never rewritten, so the text `0` still reads `0`.
   */
  lemma PatientAgeDecode(f: Field)
    ensures PatientAge(f) == NOT_MENTIONED <==> f.Missing? || f.text == NOT_MENTIONED
    ensures f.Text? ==> PatientAge(f) == f.text
    ensures PatientAge(Text("0")) == "0"
  {
  }

  /** `patientsex`: zero-filled, rendered, stripped and decoded. */
  function PatientSex(f: Field): string
  {
    Recode(Strip(ZeroFilled(f)), SEX_CODES)
  }

  /** The sex reads Male or Female exactly for the codes, and a missing sex reads `0`. */
  lemma PatientSexDecode(f: Field)
    ensures PatientSex(f) == "Male" <==> Strip(ZeroFilled(f)) in {"1", "Male"}
    ensures PatientSex(f) == "Female" <==> Strip(ZeroFilled(f)) in {"2", "Female"}
    ensures f.Missing? ==> PatientSex(f) == "0"
    ensures var t := Strip(ZeroFilled(f));
      PatientSex(f) == if t == "1" then "Male" else if t == "2" then "Female" else t
  {
    if f.Missing? {
      StripPlain("0");
    }
  }

  function PatientRowOf(r: RawReport): PatientRow
  {
    PatientRow(
      Key(r.safetyReportId),
      Key(r.safetyReportVersion),
      PatientAge(r.patient.patientOnsetAge),
      PatientWeight(r.patient.patientWeight),
      PatientSex(r.patient.patientSex))
  }

  function PatientRows(raws: seq<RawReport>): seq<PatientRow>
  {
    Rows.Map(PatientRowOf, raws)
  }

  /** One patient row per report, in order, keyed by that report's id and version. */
  lemma PatientRowsAligned(raws: seq<RawReport>)
    ensures |PatientRows(raws)| == |raws|
    ensures forall i :: 0 <= i < |raws| ==>
      PatientRows(raws)[i].patientId == Key(raws[i].safetyReportId) &&
      PatientRows(raws)[i].versionId == Key(raws[i].safetyReportVersion)
  {
  }

  /** A patient weighing 70.6 kg is reported as 71, one weighing 2.5 kg as 2. */
  lemma WeightExamples()
    ensures PatientWeight(Some(70.6)) == Kilograms(71)
    ensures PatientWeight(Some(2.5)) == Kilograms(2)
    ensures PatientWeight(Some(0.4)) == WeightNotMentioned
  {
    RoundHalfEvenUnique(70.6, 71);
    RoundHalfEvenUnique(2.5, 2);
    RoundHalfEvenUnique(0.4, 0);
  }
}
