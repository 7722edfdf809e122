/**
 * The `reports` table: one row per raw report, with the seriousness codes
 * decoded and the receipt date parsed (`transform_data`, first block).
 */
module Reports {
  import opened Wrappers
  import opened Raw
  import opened PyStr
  import opened Dates
  import Rows

  const LIFE_THREATENING := "The adverse event resulted in a life threatening condition"
  const NOT_SERIOUS := "The adverse event did not result in any serious condition"

  /** The whole-value replacement applied to the stripped `serious` code. */
  const SERIOUS_CODES: map<string, string> := map["1" := LIFE_THREATENING, "2" := NOT_SERIOUS]

  /** The flags arrive as floats, so their codes read `1.0` and `2.0`. */
  const FLAG_CODES: map<string, string> := map["1.0" := "YES", "2.0" := "NO"]

  /** `to_datetime` raises on the first value that does not parse, failing the whole transform. */
  datatype TransformError = BadReceiptDate(position: nat, text: string)

  datatype ReportRow = ReportRow(
    safetyReportVersion: int,
    safetyReportId: int,
    reportCountry: string,
    reportDate: Date,
    eventOutcome: string,
    seriousnessOther: string,
    seriousnessDeath: string)

  /** `serious`: rendered, stripped and decoded; a missing value stays `nan` (it is rendered before `fillna`). */
  function EventOutcome(f: Field): string
  {
    Recode(Strip(AsStr(f)), SERIOUS_CODES)
  }

  /** `seriousnessother` / `seriousnessdeath`: decoded, then stripped again and `nan` replaced. */
  function SeriousnessFlag(f: Field): string
  {
    Recode(Strip(Recode(Strip(AsStr(f)), FLAG_CODES)), map["nan" := NOT_MENTIONED])
  }

  /** The receipt date after `fillna(0)`, parsed as `%Y%m%d`. */
  function ReportDate(r: RawReport): Option<Date>
  {
    ParseYmd(ZeroFilled(r.receiptDate))
  }

  function ReportRowOf(r: RawReport, d: Date): ReportRow
  {
    ReportRow(
      Key(r.safetyReportVersion),
      Key(r.safetyReportId),
      ZeroFilled(r.occurCountry),
      d,
      EventOutcome(r.serious),
      SeriousnessFlag(r.seriousnessOther),
      SeriousnessFlag(r.seriousnessDeath))
  }

  predicate AllDated(raws: seq<RawReport>)
  {
    forall i :: 0 <= i < |raws| ==> ReportDate(raws[i]).Some?
  }

  /** A report's row, or nothing when its receipt date does not parse. */
  function ReportRowOpt(r: RawReport): Option<ReportRow>
  {
    match ReportDate(r)
    case None => None
    case Some(d) => Some(ReportRowOf(r, d))
  }

  function ReportRows(raws: seq<RawReport>): Result<seq<ReportRow>, TransformError>
  {
    match Rows.Traverse(ReportRowOpt, raws)
    case Success(rows) => Success(rows)
    case Failure(i) => Failure(BadReceiptDate(i, ZeroFilled(raws[i].receiptDate)))
  }

  /** The date parse decides the outcome: every row or none. */
  lemma ReportRowsSucceed(raws: seq<RawReport>)
    ensures ReportRows(raws).Success? <==> AllDated(raws)
  {
    Rows.TraverseSuccess(ReportRowOpt, raws);
    assert AllDated(raws) <==> forall i :: 0 <= i < |raws| ==> ReportRowOpt(raws[i]).Some?;
  }

  /** On success, one row per report, in order, each decoded from its own report. */
  lemma ReportRowsContent(raws: seq<RawReport>)
    requires ReportRows(raws).Success?
    ensures AllDated(raws)
    ensures |ReportRows(raws).value| == |raws|
    ensures forall i :: 0 <= i < |raws| ==>
      ReportRows(raws).value[i] == ReportRowOf(raws[i], ReportDate(raws[i]).value)
  {
    ReportRowsSucceed(raws);
    Rows.TraverseSuccess(ReportRowOpt, raws);
  }

  /** On failure, the reported position is the first report whose date does not parse. */
  lemma ReportRowsFailure(raws: seq<RawReport>)
    requires ReportRows(raws).Failure?
    ensures var e := ReportRows(raws).error;
      e.position < |raws| &&
      ReportDate(raws[e.position]).None? &&
      e.text == ZeroFilled(raws[e.position].receiptDate) &&
      forall i :: 0 <= i < e.position ==> ReportDate(raws[i]).Some?
  {
    Rows.TraverseFailure(ReportRowOpt, raws);
  }

  /** A missing receipt date becomes `0`, which is not a date: one such report fails the transform. */
  lemma MissingDateFails(raws: seq<RawReport>, i: nat)
    requires i < |raws| && raws[i].receiptDate.Missing?
    ensures ReportRows(raws).Failure?
  {
    ReportRowsSucceed(raws);
    assert ReportDate(raws[i]).None?;
  }

  /** The report date of a row is the receipt date it was read from. */
  lemma ReportDateRoundTrip(r: RawReport)
    requires ReportDate(r).Some?
    ensures FormatYmd(ReportDate(r).value) == ZeroFilled(r.receiptDate)
  {
    FormatParsed(ZeroFilled(r.receiptDate));
  }

  /** The event outcome is the life-threatening sentence exactly when the stripped code is `1` (or already that sentence). */
  lemma EventOutcomeDecode(f: Field)
    ensures EventOutcome(f) == LIFE_THREATENING <==> Strip(AsStr(f)) in {"1", LIFE_THREATENING}
    ensures EventOutcome(f) == NOT_SERIOUS <==> Strip(AsStr(f)) in {"2", NOT_SERIOUS}
    ensures f.Missing? ==> EventOutcome(f) == "nan"
    ensures var t := Strip(AsStr(f));
      EventOutcome(f) == if t == "1" then LIFE_THREATENING else if t == "2" then NOT_SERIOUS else t
  {
    if f.Missing? {
      StripPlain("nan");
    }
  }

  /** The seriousness flag, with its two strips and two replacements collapsed into one decision. */
  lemma SeriousnessFlagDecode(f: Field)
    ensures var t := Strip(AsStr(f));
      SeriousnessFlag(f) ==
        if t == "1.0" then "YES"
        else if t == "2.0" then "NO"
        else if t == "nan" then NOT_MENTIONED
        else t
  {
    var t := Strip(AsStr(f));
    StripPlain("YES");
    StripPlain("NO");
    StripCharsIdempotent(AsStr(f), WHITESPACE);
  }

  /** A flag is never left as `nan`, and a missing one reads `NOT MENTIONED`. */
  lemma SeriousnessFlagNeverNan(f: Field)
    ensures SeriousnessFlag(f) != "nan"
    ensures f.Missing? ==> SeriousnessFlag(f) == NOT_MENTIONED
  {
    SeriousnessFlagDecode(f);
    if f.Missing? {
      StripPlain("nan");
    }
  }
}
