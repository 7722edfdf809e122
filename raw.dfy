/**
 * The raw table `transform_data` receives: one record per report, as read
 * back from the staged CSV, with the `patient` column already a structured
 * record (the script rebuilds it from its text with `eval`).
 */
module Raw {
  import opened Wrappers

  /** The sentinel the script writes for absent values. */
  const NOT_MENTIONED := "NOT MENTIONED"

  /** A cell: the text `astype(str)` gives for it, or missing (NaN). */
  datatype Field = Text(text: string) | Missing

  /** `astype(str)` on a cell that may be missing: NaN renders as `nan`. */
  function AsStr(f: Field): string
  {
    match f
    case Text(s) => s
    case Missing => "nan"
  }

  /** `fillna(0)` followed by `astype(str)`: NaN becomes `0` and renders as `0`. */
  function ZeroFilled(f: Field): string
  {
    match f
    case Text(s) => s
    case Missing => "0"
  }

  /** `fillna(0)` followed by `astype(int)` on a key column. */
  function Key(k: Option<int>): int
  {
    k.GetOr(0)
  }

  datatype Reaction = Reaction(reactionMeddraPt: Field, reactionOutcome: Field)

  /**
   * One element of the `drug` list as `json_normalize` flattens it:
   * `openfda.product_type` arrives as the text of a Python list.
   */
  datatype Drug = Drug(
    drugCharacterization: Field,
    productType: Field,
    medicinalProduct: Field,
    drugIndication: Field,
    activeSubstanceName: Field)

  /** What `json_normalize` makes of a missing list element: a row whose every column is missing. */
  const NAN_REACTION := Reaction(Missing, Missing)
  const NAN_DRUG := Drug(Missing, Missing, Missing, Missing, Missing)

  /** The weight is numeric after `astype(float)`; the parse of its text is not modelled. */
  datatype Patient = Patient(
    patientOnsetAge: Field,
    patientWeight: Option<real>,
    patientSex: Field,
    reaction: Option<seq<Reaction>>,
    drug: Option<seq<Drug>>)

  datatype RawReport = RawReport(
    safetyReportVersion: Option<int>,
    safetyReportId: Option<int>,
    occurCountry: Field,
    receiptDate: Field,
    serious: Field,
    seriousnessOther: Field,
    seriousnessDeath: Field,
    patient: Patient)

  /**
   * `DataFrame.explode` on a list column: one row per element, and one row
   * with a missing element when the list is empty or the value is missing.
   */
  function Explode<T>(xs: Option<seq<T>>): (rows: seq<Option<T>>)
    ensures |rows| >= 1
  {
    if xs.None? || xs.value == [] then [None] else WrapAll(xs.value)
  }

  function WrapAll<T>(xs: seq<T>): (rows: seq<Option<T>>)
    ensures |rows| == |xs|
    ensures forall i :: 0 <= i < |xs| ==> rows[i] == Some(xs[i])
  {
    if xs == [] then [] else [Some(xs[0])] + WrapAll(xs[1..])
  }

  /** The number of rows `explode` makes of a list cell. */
  function ExplodedSize<T>(xs: Option<seq<T>>): nat
  {
    if xs.None? || |xs.value| == 0 then 1 else |xs.value|
  }

  /** Explode keeps the elements in order, one row each, and gives a single missing row for nothing. */
  lemma ExplodeSpec<T>(xs: Option<seq<T>>)
    ensures |Explode(xs)| == ExplodedSize(xs)
    ensures xs.Some? ==> forall i :: 0 <= i < |xs.value| ==> Explode(xs)[i] == Some(xs.value[i])
    ensures (xs.None? || xs.value == []) ==> Explode(xs) == [None]
  {
  }
}
