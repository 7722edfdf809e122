/**
 * The `drugs` table: the drugs of every report that the reporter considered
 * a suspect cause (`drugcharacterization` equal to the text `1`), one row each,
 * keyed by the report id.
 */
module Drugs {
  import opened Wrappers
  import opened Raw
  import opened PyStr
  import Rows

  /** The only characterization kept; after the filter the column holds the integer 1. */
  const SUSPECT := 1

  datatype DrugRow = DrugRow(
    drugId: int,
    drugCharacterization: int,
    drugType: string,
    drugTradeName: string,
    drugActualPurpose: string,
    drugActiveChemical: string)

  /** The filter compares the raw value with the string `1`: a missing value or any other text is dropped. */
  predicate IsSuspect(d: Drug)
  {
    d.drugCharacterization == Text("1")
  }

  /** The same filter on an exploded row, whose drug may be missing. */
  predicate IsSuspectCell(e: Option<Drug>)
  {
    e.Some? && IsSuspect(e.value)
  }

  /**
   * `openfda.product_type` is the text of a Python list: the brackets and
   * quotes are removed by substring replacement, and so is every `0`, which
   * becomes the sentinel (the intended target is the `0` of a missing value).
   */
  function DrugType(f: Field): string
  {
    ReplaceAll(ReplaceAll(ReplaceAll(ZeroFilled(f), "['", ""), "']", ""), "0", NOT_MENTIONED)
  }

  /** The name, purpose and substance columns: rendered, stripped, and a whole value `0` becomes the sentinel. */
  function DrugText(f: Field): string
  {
    Recode(Strip(ZeroFilled(f)), map["0" := NOT_MENTIONED])
  }

  function DrugRowOf(id: int, d: Drug): DrugRow
  {
    DrugRow(
      id,
      SUSPECT,
      DrugType(d.productType),
      DrugText(d.medicinalProduct),
      DrugText(d.drugIndication),
      DrugText(d.activeSubstanceName))
  }

  /** The rows one report contributes: its drug list exploded, filtered to suspects, and mapped. */
  function DrugsOf(raw: RawReport): seq<DrugRow>
  {
    var id := Key(raw.safetyReportId);
    Rows.Map((e: Option<Drug>) => DrugRowOf(id, e.GetOr(NAN_DRUG)), Rows.Filter(IsSuspectCell, Explode(raw.patient.drug)))
  }

  function DrugRows(raws: seq<RawReport>): seq<DrugRow>
  {
    Rows.FlatMap(DrugsOf, raws)
  }

  /** Filtering the exploded rows is filtering the drug list: the placeholder row of an empty list never passes. */
  lemma {:induction false} FilterWrapAll(xs: seq<Drug>)
    ensures Rows.Filter(IsSuspectCell, WrapAll(xs)) == WrapAll(Rows.Filter(IsSuspect, xs))
    decreases |xs|
  {
    if xs != [] {
      FilterWrapAll(xs[1..]);
      var w := WrapAll(xs);
      assert w[0] == Some(xs[0]);
      assert w[1..] == WrapAll(xs[1..]);
      if IsSuspect(xs[0]) {
        assert WrapAll([xs[0]] + Rows.Filter(IsSuspect, xs[1..])) == [Some(xs[0])] + WrapAll(Rows.Filter(IsSuspect, xs[1..]));
      }
    }
  }

  /**
   * A report contributes one row per suspect drug of its list, in order,
   * each decoded from that drug and carrying the report id.
   */
  lemma DrugsOfSpec(raw: RawReport)
    ensures var kept := Rows.Filter(IsSuspect, raw.patient.drug.GetOr([]));
      |DrugsOf(raw)| == |kept| == Rows.Count(IsSuspect, raw.patient.drug.GetOr([])) &&
      forall i :: 0 <= i < |kept| ==> DrugsOf(raw)[i] == DrugRowOf(Key(raw.safetyReportId), kept[i])
  {
    var ds := raw.patient.drug.GetOr([]);
    var kept := Rows.Filter(IsSuspect, ds);
    Rows.FilterSpec(IsSuspect, ds);
    if raw.patient.drug.None? || raw.patient.drug.value == [] {
      assert Explode(raw.patient.drug) == [None];
      assert Rows.Filter(IsSuspectCell, [None]) == [] + Rows.Filter(IsSuspectCell, []);
      assert kept == [];
    } else {
      assert Explode(raw.patient.drug) == WrapAll(ds);
      FilterWrapAll(ds);
    }
  }

  /** Every drug row is a suspect (characterization 1) of some report and carries that report's id. */
  lemma DrugIds(raws: seq<RawReport>)
    ensures forall r :: r in DrugRows(raws) ==>
      r.drugCharacterization == SUSPECT &&
      exists i :: 0 <= i < |raws| && r.drugId == Key(raws[i].safetyReportId)
  {
    forall r | r in DrugRows(raws)
      ensures r.drugCharacterization == SUSPECT &&
        exists i :: 0 <= i < |raws| && r.drugId == Key(raws[i].safetyReportId)
    {
      Rows.FlatMapOrigin(DrugsOf, raws, r);
      var i :| 0 <= i < |raws| && r in DrugsOf(raws[i]);
      var k :| 0 <= k < |DrugsOf(raws[i])| && DrugsOf(raws[i])[k] == r;
    }
  }

  /** A report listing no suspect drug contributes no row. */
  lemma NoSuspectNoRow(raw: RawReport)
    requires forall i :: 0 <= i < |raw.patient.drug.GetOr([])| ==> !IsSuspect(raw.patient.drug.GetOr([])[i])
    ensures DrugsOf(raw) == []
  {
    DrugsOfSpec(raw);
    Rows.FilterNone(IsSuspect, raw.patient.drug.GetOr([]));
  }

  /** The drug type never contains the digit `0`: each one is replaced by the sentinel. */
  lemma DrugTypeNoZero(f: Field)
    ensures '0' !in DrugType(f)
  {
    ReplaceCharRemovesIt(ReplaceAll(ReplaceAll(ZeroFilled(f), "['", ""), "']", ""), '0', NOT_MENTIONED);
  }

  /** A missing product type reads `NOT MENTIONED`. */
  lemma DrugTypeMissing()
    ensures DrugType(Missing) == NOT_MENTIONED
  {
    ReplaceAbsent("0", "['", "");
    ReplaceAbsent("0", "']", "");
    ReplaceAtStart("0", [], NOT_MENTIONED);
    assert "0" + [] == "0";
  }

  /** Removing `['` from `['x']`, for `x` without `[`, leaves `x']`. */
  lemma DropOpening(x: string)
    requires '[' !in x
    ensures ReplaceAll("['" + x + "']", "['", "") == x + "']"
  {
    assert "['" + x + "']" == "['" + (x + "']");
    ReplaceAtStart("['", x + "']", "");
    ReplaceAllSkip(x, "']", "['", "");
    ReplaceAbsent("']", "['", "");
  }

  /** Removing `']` from `x']`, for `x` without a quote, leaves `x`. */
  lemma DropClosing(x: string)
    requires '\'' !in x
    ensures ReplaceAll(x + "']", "']", "") == x
  {
    ReplaceAllSkip(x, "']", "']", "");
    ReplaceAtStart("']", [], "");
    assert "']" + [] == "']";
    assert x + "" == x;
  }

  /**
   * A one-element list `['x']` reads `x` with its `0`s replaced by the
   * sentinel; so a plain type without `0` reads as itself.
   */
  lemma DrugTypeOfList(x: string)
    requires '[' !in x && '\'' !in x
    ensures DrugType(Text("['" + x + "']")) == ReplaceAll(x, "0", NOT_MENTIONED)
    ensures '0' !in x ==> DrugType(Text("['" + x + "']")) == x
  {
    DropOpening(x);
    DropClosing(x);
    if '0' !in x {
      ReplaceAbsent(x, "0", NOT_MENTIONED);
    }
  }

  /** Removing `']` from `', 'y']` leaves `', 'y`: the quotes between the items stay. */
  lemma DropClosingOfSecond(y: string)
    requires '\'' !in y && ']' !in y
    ensures ReplaceAll("', '" + y + "']", "']", "") == "', '" + y
  {
    var s := "', '" + y + "']";
    assert s[..2] != "']" by { assert s[1] == ','; }
    assert s[1..] == ", " + ("'" + y + "']");
    ReplaceAllSkip(", ", "'" + y + "']", "']", "");
    var t := "'" + y + "']";
    assert t[..2] != "']" by { assert y == [] || t[1] == y[0]; }
    assert t[1..] == y + "']";
    DropClosing(y);
  }

  /**
   * A two-element list `['x', 'y']` reads `x', 'y`: only the outer
   * brackets and quotes are removed.
   */
  lemma DrugTypeOfPair(x: string, y: string)
    requires '[' !in x && '\'' !in x && '0' !in x
    requires '[' !in y && '\'' !in y && '0' !in y && ']' !in y
    ensures DrugType(Text("['" + x + "', '" + y + "']")) == x + "', '" + y
  {
    var tail := "', '" + y + "']";
    var cell := "['" + (x + tail);
    assert "['" + x + "', '" + y + "']" == cell;
    var inner := x + tail;
    var closed := x + "', '" + y;
    assert ReplaceAll(cell, "['", "") == inner by {
      ReplaceAtStart("['", inner, "");
      ReplaceAllSkip(x, tail, "['", "");
      ReplaceAbsent(tail, "['", "");
    }
    assert ReplaceAll(inner, "']", "") == closed by {
      ReplaceAllSkip(x, tail, "']", "");
      DropClosingOfSecond(y);
    }
    assert ReplaceAll(closed, "0", NOT_MENTIONED) == closed by {
      ReplaceAbsent(closed, "0", NOT_MENTIONED);
    }
  }

  /** A type that itself contains a `0` is altered: `['A0']` reads `A` followed by the sentinel. */
  lemma DrugTypeSplicesZero()
    ensures DrugType(Text("['A0']")) == "A" + NOT_MENTIONED
  {
    var x := "A0";
    assert "['" + x + "']" == "['A0']";
    DrugTypeOfList(x);
    assert x == "A" + "0";
    ReplaceAllSkip("A", "0", "0", NOT_MENTIONED);
    assert "0" == "0" + [];
    ReplaceAtStart("0", [], NOT_MENTIONED);
    assert ReplaceAll([], "0", NOT_MENTIONED) == [];
    assert NOT_MENTIONED + [] == NOT_MENTIONED;
  }

  /** The name, purpose and substance never read `0`: a missing value and the text `0` both read `NOT MENTIONED`. */
  lemma DrugTextDecode(f: Field)
    ensures DrugText(f) != "0"
    ensures f.Missing? ==> DrugText(f) == NOT_MENTIONED
    ensures DrugText(f) == NOT_MENTIONED <==> Strip(ZeroFilled(f)) in {"0", NOT_MENTIONED}
    ensures var t := Strip(ZeroFilled(f)); DrugText(f) == if t == "0" then NOT_MENTIONED else t
  {
    if f.Missing? {
      StripPlain("0");
    }
  }
}
