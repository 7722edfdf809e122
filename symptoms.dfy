/**
 * The `symptoms` table: the reactions of every report, one row per reaction,
 * keyed by the report id (`explode` of the `reaction` list).
 */
module Symptoms {
  import opened Wrappers
  import opened Raw
  import opened PyStr
  import Rows

  const UNKNOWN := "UNKNOWN"

  /** The whole-value replacement of the stripped outcome code; `0` is where the outcome was missing. */
  const OUTCOME_CODES: map<string, string> := map[
    "1" := "Recovered",
    "2" := "Recovering",
    "3" := "Not Recovered",
    "4" := "Recovered with consequent health issues",
    "5" := "Fatal",
    "6" := UNKNOWN,
    "0" := UNKNOWN]

  datatype SymptomRow = SymptomRow(symptomId: int, symptomName: string, symptomOutcome: string)

  function SymptomOutcome(f: Field): string
  {
    Recode(Strip(ZeroFilled(f)), OUTCOME_CODES)
  }

  /** The name is rendered after `fillna(0)` and not stripped. */
  function SymptomRowOf(id: int, r: Reaction): SymptomRow
  {
    SymptomRow(id, ZeroFilled(r.reactionMeddraPt), SymptomOutcome(r.reactionOutcome))
  }

  /** The rows one report contributes: one per reaction, or one all-missing row when it lists none. */
  function SymptomsOf(raw: RawReport): seq<SymptomRow>
  {
    var id := Key(raw.safetyReportId);
    Rows.Map((e: Option<Reaction>) => SymptomRowOf(id, e.GetOr(NAN_REACTION)), Explode(raw.patient.reaction))
  }

  function SymptomRows(raws: seq<RawReport>): seq<SymptomRow>
  {
    Rows.FlatMap(SymptomsOf, raws)
  }

  /** A missing outcome reads UNKNOWN; a code outside the table, such as `7`, is kept as it is. */
  lemma SymptomOutcomeDecode(f: Field)
    ensures f.Missing? ==> SymptomOutcome(f) == UNKNOWN
    ensures var t := Strip(ZeroFilled(f)); t !in OUTCOME_CODES ==> SymptomOutcome(f) == t
    ensures SymptomOutcome(Text("7")) == "7"
    ensures var t := Strip(ZeroFilled(f));
      SymptomOutcome(f) ==
        if t == "1" then "Recovered"
        else if t == "2" then "Recovering"
        else if t == "3" then "Not Recovered"
        else if t == "4" then "Recovered with consequent health issues"
        else if t == "5" then "Fatal"
        else if t == "6" || t == "0" then UNKNOWN
        else t
  {
    StripPlain("0");
    StripPlain("7");
  }

  /**
   * A report with reactions gives one row per reaction, in order; a report
   * with none gives the single row `0` / UNKNOWN. Every row carries the report id.
   */
  lemma SymptomsOfSpec(raw: RawReport)
    ensures |SymptomsOf(raw)| == ExplodedSize(raw.patient.reaction)
    ensures forall i :: 0 <= i < |SymptomsOf(raw)| ==> SymptomsOf(raw)[i].symptomId == Key(raw.safetyReportId)
    ensures raw.patient.reaction.Some? ==>
      var rs := raw.patient.reaction.value;
      forall i :: 0 <= i < |rs| ==> SymptomsOf(raw)[i] == SymptomRowOf(Key(raw.safetyReportId), rs[i])
    ensures raw.patient.reaction.None? || raw.patient.reaction.value == [] ==>
      SymptomsOf(raw) == [SymptomRow(Key(raw.safetyReportId), "0", UNKNOWN)]
  {
    ExplodeSpec(raw.patient.reaction);
    StripPlain("0");
  }

  /** Every symptom row carries the id of some report. */
  lemma SymptomIds(raws: seq<RawReport>)
    ensures forall s :: s in SymptomRows(raws) ==> exists i :: 0 <= i < |raws| && s.symptomId == Key(raws[i].safetyReportId)
  {
    forall s | s in SymptomRows(raws)
      ensures exists i :: 0 <= i < |raws| && s.symptomId == Key(raws[i].safetyReportId)
    {
      Rows.FlatMapOrigin(SymptomsOf, raws, s);
      var i :| 0 <= i < |raws| && s in SymptomsOf(raws[i]);
      SymptomsOfSpec(raws[i]);
    }
  }

  /** Every report contributes at least one row. */
  lemma {:induction false} AtLeastOnePerReport(raws: seq<RawReport>)
    ensures |SymptomRows(raws)| >= |raws|
  {
    if raws != [] {
      AtLeastOnePerReport(raws[1..]);
      SymptomsOfSpec(raws[0]);
    }
  }
}
