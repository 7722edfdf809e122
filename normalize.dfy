/**
 * `transform_data`: the raw report table split into the four normalised
 * tables, or the date error that aborts the whole transform.
 */
module Normalize {
  import opened Wrappers
  import opened Raw
  import opened Reports
  import opened Patients
  import opened Symptoms
  import opened Drugs
  import opened Dates
  import opened PyStr
  import Rows

  datatype Tables = Tables(
    reports: seq<ReportRow>,
    patients: seq<PatientRow>,
    symptoms: seq<SymptomRow>,
    drugs: seq<DrugRow>)

  function TransformData(raws: seq<RawReport>): Result<Tables, TransformError>
  {
    match ReportRows(raws)
    case Failure(e) => Failure(e)
    case Success(reports) => Success(Tables(reports, PatientRows(raws), SymptomRows(raws), DrugRows(raws)))
  }

  /** The transform succeeds exactly when every receipt date parses; otherwise it reports the first that does not. */
  lemma TransformSucceeds(raws: seq<RawReport>)
    ensures TransformData(raws).Success? <==> AllDated(raws)
    ensures TransformData(raws).Failure? ==>
      var e := TransformData(raws).error;
      e.position < |raws| && ReportDate(raws[e.position]).None? &&
      forall i :: 0 <= i < e.position ==> ReportDate(raws[i]).Some?
  {
    ReportRowsSucceed(raws);
    if ReportRows(raws).Failure? {
      ReportRowsFailure(raws);
    }
  }

  /**
   * On success the tables line up: the i-th report row and the i-th patient
   * row share the report's id and version, and every symptom and drug row
   * refers to the id of some report row.
   */
  lemma TransformKeys(raws: seq<RawReport>)
    requires TransformData(raws).Success?
    ensures var t := TransformData(raws).value;
      |t.reports| == |t.patients| == |raws| &&
      |t.symptoms| >= |t.reports| &&
      (forall i :: 0 <= i < |raws| ==>
        t.reports[i].safetyReportId == t.patients[i].patientId &&
        t.reports[i].safetyReportVersion == t.patients[i].versionId) &&
      (forall s :: s in t.symptoms ==> exists i :: 0 <= i < |t.reports| && s.symptomId == t.reports[i].safetyReportId) &&
      (forall d :: d in t.drugs ==> exists i :: 0 <= i < |t.reports| && d.drugId == t.reports[i].safetyReportId)
  {
    var t := TransformData(raws).value;
    ReportRowsContent(raws);
    PatientRowsAligned(raws);
    AtLeastOnePerReport(raws);
    SymptomIds(raws);
    DrugIds(raws);
    assert forall i :: 0 <= i < |raws| ==> t.reports[i].safetyReportId == Key(raws[i].safetyReportId);
  }

  /** One report: id 123, version 1, received 2024-01-15, one reaction, one suspect and one concomitant drug. */
  function SampleReport(): RawReport
  {
    RawReport(
      Some(1), Some(123), Text("US"), Text("20240115"), Text("1"), Missing, Missing,
      Patient(
        Text("45"), Some(70.6), Text("1"),
        Some([Reaction(Text("Nausea"), Text("1"))]),
        Some([
          Drug(Text("1"), Text("['Human']"), Text("Aspirin"), Text("Pain"), Text("Acetylsalicylic acid")),
          Drug(Text("2"), Text("['Human']"), Text("Ibuprofen"), Text("Fever"), Text("Ibuprofen"))])))
  }

  lemma SampleDate()
    ensures ReportDate(SampleReport()) == Some(Date(2024, 1, 15))
  {
    var d := Date(2024, 1, 15);
    assert FormatYmd(d) == "20240115";
    ParseFormatted(d);
  }

  /** A single report whose date parses gives its own row in each table. */
  lemma TransformOne(raw: RawReport, d: Date)
    requires ReportDate(raw) == Some(d)
    ensures TransformData([raw]) == Success(Tables([ReportRowOf(raw, d)], [PatientRowOf(raw)], SymptomsOf(raw), DrugsOf(raw)))
  {
    var raws := [raw];
    ReportRowsSucceed(raws);
    ReportRowsContent(raws);
    assert ReportRows(raws).value == [ReportRowOf(raw, d)];
    assert raws[1..] == [];
    assert PatientRows(raws) == [PatientRowOf(raw)];
    Rows.FlatMapSingle(SymptomsOf, raw);
    Rows.FlatMapSingle(DrugsOf, raw);
  }

  lemma SampleReportRow()
    ensures ReportRowOf(SampleReport(), Date(2024, 1, 15)) ==
      ReportRow(1, 123, "US", Date(2024, 1, 15), LIFE_THREATENING, NOT_MENTIONED, NOT_MENTIONED)
  {
    StripPlain("1");
    SeriousnessFlagNeverNan(Missing);
  }

  lemma SamplePatient()
    ensures PatientRowOf(SampleReport()) == PatientRow(123, 1, "45", Kilograms(71), "Male")
  {
    StripPlain("1");
    WeightExamples();
  }

  lemma SampleSymptoms()
    ensures SymptomsOf(SampleReport()) == [SymptomRow(123, "Nausea", "Recovered")]
  {
    StripPlain("1");
    SymptomsOfSpec(SampleReport());
  }

  lemma SampleDrugType()
    ensures DrugType(Text("['Human']")) == "Human"
  {
    var x := "Human";
    var t := "['" + x + "']";
    assert t == "['Human']";
    DrugTypeOfList(x);
  }

  lemma SampleDrugFields()
    ensures DrugText(Text("Aspirin")) == "Aspirin"
    ensures DrugText(Text("Pain")) == "Pain"
    ensures DrugText(Text("Acetylsalicylic acid")) == "Acetylsalicylic acid"
  {
    StripPlain("Aspirin");
    StripPlain("Pain");
    StripPlain("Acetylsalicylic acid");
  }

  lemma SampleDrugs()
    ensures DrugsOf(SampleReport()) == [DrugRow(123, SUSPECT, "Human", "Aspirin", "Pain", "Acetylsalicylic acid")]
  {
    var raw := SampleReport();
    var ds := raw.patient.drug.value;
    assert Rows.Filter(IsSuspect, ds) == [ds[0]] + Rows.Filter(IsSuspect, ds[1..]);
    assert Rows.Filter(IsSuspect, ds[1..]) == [] + Rows.Filter(IsSuspect, ds[2..]);
    assert ds[2..] == [];
    DrugsOfSpec(raw);
    SampleDrugType();
    SampleDrugFields();
  }

  /**
   * The sample report gives one report row, a patient row weighing 71 kg,
   * one symptom row and exactly one drug row (the concomitant drug is dropped).
   */
  lemma SampleTransform()
    ensures TransformData([SampleReport()]) == Success(Tables(
      [ReportRow(1, 123, "US", Date(2024, 1, 15), LIFE_THREATENING, NOT_MENTIONED, NOT_MENTIONED)],
      [PatientRow(123, 1, "45", Kilograms(71), "Male")],
      [SymptomRow(123, "Nausea", "Recovered")],
      [DrugRow(123, SUSPECT, "Human", "Aspirin", "Pain", "Acetylsalicylic acid")]))
  {
    SampleDate();
    TransformOne(SampleReport(), Date(2024, 1, 15));
    SampleReportRow();
    SamplePatient();
    SampleSymptoms();
    SampleDrugs();
  }
}
