/** The offline footprint pipeline of preprocess.py: keep the confident
    buildings inside the region of interest, parse each WKT geometry,
    simplify it, and report how many buildings remain. */
module Footprints {
  import opened Wrappers
  import opened Sequences
  import Decimal

  /** One building row. The geometry is kept abstract: first the WKT text,
      then whatever the geometry library parses it into. */
  datatype Row<G> = Row(confidence: real, latitude: real, longitude: real, geometry: G)

  const ConfidenceThreshold: real := 0.90
  const LatMin: real := 28.55
  const LatMax: real := 28.60
  const LonMin: real := 77.20
  const LonMax: real := 77.25

  predicate MeetsConfidence<G>(row: Row<G>) {
    row.confidence >= ConfidenceThreshold
  }

  /** The centroid lies in the region of interest; every bound is inclusive. */
  predicate InBox<G>(row: Row<G>) {
    LatMin <= row.latitude <= LatMax && LonMin <= row.longitude <= LonMax
  }

  predicate Survives<G>(row: Row<G>) {
    MeetsConfidence(row) && InBox(row)
  }

  /** The confidence mask. */
  function ConfidenceFilter<G>(rows: seq<Row<G>>): (r: seq<Row<G>>)
    ensures |r| <= |rows|
    ensures forall k :: 0 <= k < |r| ==> r[k] in rows && r[k].confidence >= ConfidenceThreshold
    ensures forall k :: 0 <= k < |rows| && rows[k].confidence >= ConfidenceThreshold ==> rows[k] in r
  {
    Select(rows, MeetsConfidence)
  }

  /** The bounding-box mask. */
  function BoxFilter<G>(rows: seq<Row<G>>): (r: seq<Row<G>>)
    ensures |r| <= |rows|
    ensures forall k :: 0 <= k < |r| ==> r[k] in rows && InBox(r[k])
    ensures forall k :: 0 <= k < |rows| && InBox(rows[k]) ==> rows[k] in r
  {
    Select(rows, InBox)
  }

  /** Both masks, in the order the script applies them. */
  function FilterRows<G>(rows: seq<Row<G>>): (r: seq<Row<G>>)
    ensures |r| <= |rows|
    ensures forall k :: 0 <= k < |r| ==> r[k] in rows && Survives(r[k])
    ensures forall k :: 0 <= k < |rows| && Survives(rows[k]) ==> rows[k] in r
  {
    BoxFilter(ConfidenceFilter(rows))
  }

  /** The two masks amount to one selection with both conditions. */
  lemma FilterRowsFused<G>(rows: seq<Row<G>>)
    ensures FilterRows(rows) == Select(rows, Survives)
  {
    SelectFuse(rows, MeetsConfidence, InBox, Survives);
  }

  /** A row survives exactly when its confidence reaches 0.90 and its
      centroid lies in the closed box. */
  lemma FilterRowsMembership<G>(rows: seq<Row<G>>, row: Row<G>)
    ensures row in FilterRows(rows) <==>
            row in rows && row.confidence >= 0.90 &&
            28.55 <= row.latitude <= 28.60 && 77.20 <= row.longitude <= 77.25
  {
    if row in rows && Survives(row) {
      var k :| 0 <= k < |rows| && rows[k] == row;
    }
  }

  /** Survivors keep their relative order, are not duplicated, and are the
      input rows themselves with every field unchanged. */
  lemma FilterRowsSubseq<G>(rows: seq<Row<G>>)
    ensures Subseq(FilterRows(rows), rows)
  {
    FilterRowsFused(rows);
    SelectSubseq(rows, Survives);
  }

  /** The output is pinned down completely: the only order-preserving
      subsequence holding every surviving occurrence and nothing else. */
  lemma FilterRowsCharacterized<G>(rows: seq<Row<G>>, t: seq<Row<G>>)
    requires Subseq(t, rows)
    requires forall x :: multiset(t)[x] == if Survives(x) then multiset(rows)[x] else 0
    ensures t == FilterRows(rows)
  {
    FilterRowsFused(rows);
    SelectUnique(rows, Survives, t);
  }

  /** Each surviving value occurs as often as in the input. */
  lemma FilterRowsMultiplicity<G>(rows: seq<Row<G>>, x: Row<G>)
    ensures multiset(FilterRows(rows))[x] == if Survives(x) then multiset(rows)[x] else 0
  {
    FilterRowsFused(rows);
    SelectMultiplicity(rows, Survives, x);
  }

  lemma FilterRowsIdempotent<G>(rows: seq<Row<G>>)
    ensures FilterRows(FilterRows(rows)) == FilterRows(rows)
  {
    var r := FilterRows(rows);
    FilterRowsFused(rows);
    FilterRowsFused(r);
    SelectIdempotent(rows, Survives);
  }

  /** Applying the box mask first gives the same rows. */
  lemma FiltersCommute<G>(rows: seq<Row<G>>)
    ensures BoxFilter(ConfidenceFilter(rows)) == ConfidenceFilter(BoxFilter(rows))
  {
    SelectCommute(rows, MeetsConfidence, InBox);
  }

  /** `wkt.loads` failed on the row at this position of the filtered table;
      the exception ends the run. */
  datatype PipelineError = MalformedWkt(position: nat)

  /** The column-wise WKT parse; `load` is None where the text is not WKT. */
  function LoadGeometries<W, G>(rows: seq<Row<W>>, load: W -> Option<G>): (r: Result<seq<Row<G>>, PipelineError>)
    ensures r.Success? <==> forall k :: 0 <= k < |rows| ==> load(rows[k].geometry).Some?
    ensures r.Success? ==>
              |r.value| == |rows| &&
              forall k :: 0 <= k < |rows| ==>
                r.value[k] == Row(rows[k].confidence, rows[k].latitude, rows[k].longitude,
                                  load(rows[k].geometry).value)
    ensures r.Failure? ==>
              r.error.position < |rows| && load(rows[r.error.position].geometry).None? &&
              forall k :: 0 <= k < r.error.position ==> load(rows[k].geometry).Some?
    decreases |rows|
  {
    if |rows| == 0 then Success([])
    else
      var row := rows[0];
      match load(row.geometry)
      case None => Failure(MalformedWkt(0))
      case Some(g) =>
        match LoadGeometries(rows[1..], load)
        case Failure(e) => Failure(MalformedWkt(e.position + 1))
        case Success(tail) => Success([Row(row.confidence, row.latitude, row.longitude, g)] + tail)
  }

  /** The topology-preserving simplification, one geometry at a time;
      the tolerance lives inside `simplify`. */
  function SimplifyGeometries<G>(rows: seq<Row<G>>, simplify: G -> G): (r: seq<Row<G>>)
    ensures |r| == |rows|
    ensures forall k :: 0 <= k < |rows| ==>
              r[k].confidence == rows[k].confidence && r[k].latitude == rows[k].latitude &&
              r[k].longitude == rows[k].longitude && r[k].geometry == simplify(rows[k].geometry)
  {
    MapSeq(rows, (row: Row<G>) => row.(geometry := simplify(row.geometry)))
  }

  const MessagePrefix: string := "✅ Pre-processing complete. Reduced to "
  const MessageSuffix: string := " buildings."

  /** The final printed line; the number between its fixed prefix and
      suffix reads back as `n`. */
  function CompletionMessage(n: nat): (m: string)
    ensures |MessagePrefix| + |MessageSuffix| <= |m|
    ensures m[..|MessagePrefix|] == MessagePrefix && m[|m| - |MessageSuffix|..] == MessageSuffix
    ensures var digits := m[|MessagePrefix|..|m| - |MessageSuffix|];
            Decimal.Canonical(digits) && Decimal.ParseDigits(digits) == n
  {
    var m := MessagePrefix + Decimal.NatToString(n) + MessageSuffix;
    assert m[|MessagePrefix|..|m| - |MessageSuffix|] == Decimal.NatToString(n);
    Decimal.ParseNatToString(n);
    m
  }

  /** The rows written to the GeoJSON file and the line printed at the end. */
  datatype Outcome<G> = Outcome(features: seq<Row<G>>, message: string)

  /** The whole script after the CSV read, up to (not including) the write. */
  function Preprocess<W, G>(rows: seq<Row<W>>, load: W -> Option<G>, simplify: G -> G): (r: Result<Outcome<G>, PipelineError>)
    ensures r.Success? <==>
              forall k :: 0 <= k < |FilterRows(rows)| ==> load(FilterRows(rows)[k].geometry).Some?
    ensures r.Success? ==>
              |r.value.features| == |FilterRows(rows)| &&
              r.value.message == CompletionMessage(|FilterRows(rows)|)
  {
    match LoadGeometries(FilterRows(rows), load)
    case Failure(e) => Failure(e)
    case Success(parsed) =>
      var simplified := SimplifyGeometries(parsed, simplify);
      Success(Outcome(simplified, CompletionMessage(|simplified|)))
  }

  /** Every exported feature is the surviving row at the same position,
      attributes untouched, geometry parsed and then simplified. */
  lemma PreprocessFeatures<W, G>(rows: seq<Row<W>>, load: W -> Option<G>, simplify: G -> G, k: nat)
    requires Preprocess(rows, load, simplify).Success?
    requires k < |FilterRows(rows)|
    ensures var f := Preprocess(rows, load, simplify).value.features[k];
            var src := FilterRows(rows)[k];
            f.confidence == src.confidence && f.latitude == src.latitude &&
            f.longitude == src.longitude &&
            load(src.geometry).Some? && f.geometry == simplify(load(src.geometry).value)
  {
  }

  /** The number in the completion line reads back as the number of rows
      that passed both masks. */
  lemma PreprocessReportsSurvivors<W, G>(rows: seq<Row<W>>, load: W -> Option<G>, simplify: G -> G)
    requires Preprocess(rows, load, simplify).Success?
    ensures var m := Preprocess(rows, load, simplify).value.message;
            var digits := m[|MessagePrefix|..|m| - |MessageSuffix|];
            |MessagePrefix| + |MessageSuffix| <= |m| &&
            Decimal.Canonical(digits) && Decimal.ParseDigits(digits) == |FilterRows(rows)|
  {
  }

  /** Two rows at the same in-box centroid: only the one with confidence
      0.95 survives. */
  lemma ExampleLowConfidenceDropped<G>(g1: G, g2: G)
    ensures FilterRows([Row(0.95, 28.58, 77.22, g1), Row(0.80, 28.58, 77.22, g2)])
            == [Row(0.95, 28.58, 77.22, g1)]
  {
    var rows := [Row(0.95, 28.58, 77.22, g1), Row(0.80, 28.58, 77.22, g2)];
    FilterRowsFused(rows);
    assert rows[1..][1..] == [];
    assert Select(rows[1..], Survives) == [];
  }

  /** A row exactly on every lower bound, or on every upper bound, is kept. */
  lemma ExampleBoundaryKept<G>(g: G)
    ensures FilterRows([Row(0.90, 28.55, 77.20, g), Row(1.0, 28.60, 77.25, g)])
            == [Row(0.90, 28.55, 77.20, g), Row(1.0, 28.60, 77.25, g)]
  {
    var rows := [Row(0.90, 28.55, 77.20, g), Row(1.0, 28.60, 77.25, g)];
    FilterRowsFused(rows);
    SelectAll(rows, Survives);
  }
}
