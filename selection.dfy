/**
 * The per-rerun selection pass of app.py: the option rows are walked in
 * order; a ticked row becomes the selection and has its boundary drawn, an
 * unticked row named like the selection read before the pass clears it.
 * The checkbox values are inputs.
 */
module Selection {
  import opened Wrappers
  import opened Slots
  import Kml

  /** One row of the option list: its name, description, thumbnail file
      and boundary file. */
  datatype Row = Row(name: string, description: string, thumbnail: string, kml: string)

  /** A boundary drawn on the map, labelled with its option's name. */
  datatype Overlay = Overlay(name: string, boundary: Kml.Polygon<real>)

  /** `st.session_state.get('selected_option', None)`: an absent key and a
      stored None read alike. */
  function Read(slot: Slot<Option<string>>): (r: Option<string>)
    ensures r.Some? <==> slot.Present? && slot.value.Some?
    ensures r.Some? ==> slot == Present(r)
  {
    match slot
    case Absent => None
    case Present(v) => v
  }

  /** A row that writes the selection: ticked, or unticked but named like
      the selection `s` read before the pass. */
  predicate Active(s: Option<string>, row: Row, checked: bool) {
    checked || s == Some(row.name)
  }

  /** The selection key after the pass over `rows`, `start` being the key
      before it. Each row is compared with the value read from `start`,
      not the one the pass has written so far. */
  function SelectionAfter(start: Slot<Option<string>>, rows: seq<Row>, checks: seq<bool>): Slot<Option<string>>
    requires |checks| == |rows|
    decreases |rows|
  {
    if rows == [] then start
    else
      var n := |rows| - 1;
      if checks[n] then Present(Some(rows[n].name))
      else if Read(start) == Some(rows[n].name) then Present(None)
      else SelectionAfter(start, rows[..n], checks[..n])
  }

  /** The ticked rows, in row order: those whose boundary gets drawn. */
  function CheckedRows(rows: seq<Row>, checks: seq<bool>): seq<Row>
    requires |checks| == |rows|
    decreases |rows|
  {
    if rows == [] then []
    else
      var n := |rows| - 1;
      CheckedRows(rows[..n], checks[..n]) + (if checks[n] then [rows[n]] else [])
  }

  /** The path `parse_kml` is called with for a row. */
  function BoundaryPath(row: Row): string {
    "kml/" + row.kml
  }

  /** The row's boundary: `coordinatesOf` gives the text of the
      `<coordinates>` node of a boundary file (None when there is none),
      `parse` stands for `float`. */
  function Boundary(row: Row, coordinatesOf: string -> Option<string>, parse: string -> Option<real>): Result<Kml.Polygon<real>, Kml.KmlError> {
    Kml.ParseCoordinates(coordinatesOf(BoundaryPath(row)), parse)
  }

  /** The loader `parse_kml` gives for each row: its boundary file's
      coordinates parsed. */
  function BoundaryLoader(coordinatesOf: string -> Option<string>, parse: string -> Option<real>): Row -> Result<Kml.Polygon<real>, Kml.KmlError> {
    row => Boundary(row, coordinatesOf, parse)
  }

  /** `overlays` draws the rows `cs` in order: one overlay per row, with
      the row's name and its parsed boundary. */
  ghost predicate Drawn(overlays: seq<Overlay>, cs: seq<Row>,
                        boundaryOf: Row -> Result<Kml.Polygon<real>, Kml.KmlError>)
  {
    && |overlays| == |cs|
    && forall k :: 0 <= k < |cs| ==>
         overlays[k].name == cs[k].name && Success(overlays[k].boundary) == boundaryOf(cs[k])
  }

  /** What one pass leaves behind: `sel` is the new selection key and `r`
      the overlays drawn, or the error of the first ticked row whose
      boundary cannot be parsed. That error ends the rerun after the
      selection was already set to that row. */
  ghost predicate PassOutcome(start: Slot<Option<string>>, rows: seq<Row>, checks: seq<bool>,
                              boundaryOf: Row -> Result<Kml.Polygon<real>, Kml.KmlError>,
                              sel: Slot<Option<string>>, r: Result<seq<Overlay>, Kml.KmlError>)
    requires |checks| == |rows|
  {
    && (r.Success? <==> forall i :: 0 <= i < |rows| && checks[i] ==> boundaryOf(rows[i]).Success?)
    && (r.Success? ==>
          sel == SelectionAfter(start, rows, checks) && Drawn(r.value, CheckedRows(rows, checks), boundaryOf))
    && (r.Failure? ==>
          exists k :: 0 <= k < |rows| && checks[k]
            && boundaryOf(rows[k]) == Failure(r.error)
            && (forall j :: 0 <= j < k && checks[j] ==> boundaryOf(rows[j]).Success?)
            && sel == SelectionAfter(start, rows[..k + 1], checks[..k + 1]))
  }

  /** One outcome per pass: the selection key and the result, overlays or
      error, are fixed by the inputs. */
  lemma PassOutcomeUnique(start: Slot<Option<string>>, rows: seq<Row>, checks: seq<bool>,
                          boundaryOf: Row -> Result<Kml.Polygon<real>, Kml.KmlError>,
                          sel1: Slot<Option<string>>, r1: Result<seq<Overlay>, Kml.KmlError>,
                          sel2: Slot<Option<string>>, r2: Result<seq<Overlay>, Kml.KmlError>)
    requires |checks| == |rows|
    requires PassOutcome(start, rows, checks, boundaryOf, sel1, r1)
    requires PassOutcome(start, rows, checks, boundaryOf, sel2, r2)
    ensures sel1 == sel2 && r1 == r2
  {
    if r1.Failure? {
      var k1 :| 0 <= k1 < |rows| && checks[k1] && boundaryOf(rows[k1]) == Failure(r1.error)
        && (forall j :: 0 <= j < k1 && checks[j] ==> boundaryOf(rows[j]).Success?)
        && sel1 == SelectionAfter(start, rows[..k1 + 1], checks[..k1 + 1]);
      var k2 :| 0 <= k2 < |rows| && checks[k2] && boundaryOf(rows[k2]) == Failure(r2.error)
        && (forall j :: 0 <= j < k2 && checks[j] ==> boundaryOf(rows[j]).Success?)
        && sel2 == SelectionAfter(start, rows[..k2 + 1], checks[..k2 + 1]);
      assert k1 == k2;
    } else {
      var cs := CheckedRows(rows, checks);
      forall k | 0 <= k < |cs| ensures r1.value[k] == r2.value[k] {
        assert Success(r1.value[k].boundary) == boundaryOf(cs[k]) == Success(r2.value[k].boundary);
      }
      assert r1.value == r2.value;
    }
  }

  /** Drawing one more row. */
  lemma DrawnAppend(overlays: seq<Overlay>, cs: seq<Row>, o: Overlay, row: Row,
                    boundaryOf: Row -> Result<Kml.Polygon<real>, Kml.KmlError>)
    requires Drawn(overlays, cs, boundaryOf)
    requires o.name == row.name && Success(o.boundary) == boundaryOf(row)
    ensures Drawn(overlays + [o], cs + [row], boundaryOf)
  {
    var os, rs := overlays + [o], cs + [row];
    assert forall k :: 0 <= k < |cs| ==> os[k] == overlays[k] && rs[k] == cs[k];
    assert os[|cs|] == o && rs[|cs|] == row;
  }

  /** The pass after its first `i` rows: the selection key and the
      overlays so far, every ticked row's boundary parsed so far. */
  ghost predicate PassSoFar(start: Slot<Option<string>>, rows: seq<Row>, checks: seq<bool>,
                            boundaryOf: Row -> Result<Kml.Polygon<real>, Kml.KmlError>,
                            i: nat, sel: Slot<Option<string>>, overlays: seq<Overlay>)
    requires |checks| == |rows|
  {
    && i <= |rows|
    && sel == SelectionAfter(start, rows[..i], checks[..i])
    && (forall j :: 0 <= j < i && checks[j] ==> boundaryOf(rows[j]).Success?)
    && Drawn(overlays, CheckedRows(rows[..i], checks[..i]), boundaryOf)
  }

  /** A ticked row whose boundary parses: it is selected and drawn. */
  lemma PassTicked(start: Slot<Option<string>>, rows: seq<Row>, checks: seq<bool>,
                   boundaryOf: Row -> Result<Kml.Polygon<real>, Kml.KmlError>,
                   i: nat, sel: Slot<Option<string>>, overlays: seq<Overlay>, b: Kml.Polygon<real>)
    requires |checks| == |rows| && i < |rows| && checks[i]
    requires PassSoFar(start, rows, checks, boundaryOf, i, sel, overlays)
    requires boundaryOf(rows[i]) == Success(b)
    ensures PassSoFar(start, rows, checks, boundaryOf, i + 1, Present(Some(rows[i].name)),
                      overlays + [Overlay(rows[i].name, b)])
  {
    PassNext(start, rows, checks, i);
    DrawnAppend(overlays, CheckedRows(rows[..i], checks[..i]), Overlay(rows[i].name, b), rows[i], boundaryOf);
  }

  /** An unticked row clears the selection when named like it, and is not
      drawn. */
  lemma PassUnticked(start: Slot<Option<string>>, rows: seq<Row>, checks: seq<bool>,
                     boundaryOf: Row -> Result<Kml.Polygon<real>, Kml.KmlError>,
                     i: nat, sel: Slot<Option<string>>, overlays: seq<Overlay>)
    requires |checks| == |rows| && i < |rows| && !checks[i]
    requires PassSoFar(start, rows, checks, boundaryOf, i, sel, overlays)
    ensures PassSoFar(start, rows, checks, boundaryOf, i + 1,
                      if Read(start) == Some(rows[i].name) then Present(None) else sel, overlays)
  {
    PassNext(start, rows, checks, i);
  }

  /** The pass stops at ticked row `i`, the first whose boundary fails,
      with that row already selected. */
  lemma PassStopsAt(start: Slot<Option<string>>, rows: seq<Row>, checks: seq<bool>,
                    boundaryOf: Row -> Result<Kml.Polygon<real>, Kml.KmlError>,
                    i: nat, sel: Slot<Option<string>>, overlays: seq<Overlay>, e: Kml.KmlError)
    requires |checks| == |rows| && i < |rows| && checks[i]
    requires PassSoFar(start, rows, checks, boundaryOf, i, sel, overlays)
    requires boundaryOf(rows[i]) == Failure(e)
    ensures PassOutcome(start, rows, checks, boundaryOf, Present(Some(rows[i].name)), Failure(e))
  {
    PassNext(start, rows, checks, i);
  }

  /** The pass runs through: every ticked row's boundary parses. */
  lemma PassCompletes(start: Slot<Option<string>>, rows: seq<Row>, checks: seq<bool>,
                      boundaryOf: Row -> Result<Kml.Polygon<real>, Kml.KmlError>,
                      sel: Slot<Option<string>>, overlays: seq<Overlay>)
    requires |checks| == |rows|
    requires PassSoFar(start, rows, checks, boundaryOf, |rows|, sel, overlays)
    ensures PassOutcome(start, rows, checks, boundaryOf, sel, Success(overlays))
  {
    assert rows[..|rows|] == rows && checks[..|checks|] == checks;
  }

  /** One more row: the loop body's effect on the selection and on the
      rows drawn. */
  lemma PassNext(start: Slot<Option<string>>, rows: seq<Row>, checks: seq<bool>, i: nat)
    requires |checks| == |rows| && i < |rows|
    ensures SelectionAfter(start, rows[..i + 1], checks[..i + 1]) ==
      if checks[i] then Present(Some(rows[i].name))
      else if Read(start) == Some(rows[i].name) then Present(None)
      else SelectionAfter(start, rows[..i], checks[..i])
    ensures CheckedRows(rows[..i + 1], checks[..i + 1]) ==
      CheckedRows(rows[..i], checks[..i]) + (if checks[i] then [rows[i]] else [])
  {
    assert rows[..i + 1][..i] == rows[..i] && checks[..i + 1][..i] == checks[..i];
  }

  // ---------------------------------------------------------------------
  // The selection

  /** The pass leaves the key as it was, clears it, or selects a ticked
      row: it never stores a name that is not ticked. */
  lemma {:induction false} SelectionAfterValues(start: Slot<Option<string>>, rows: seq<Row>, checks: seq<bool>)
    requires |checks| == |rows|
    ensures var r := SelectionAfter(start, rows, checks);
      r == start || r == Present(None)
      || exists i :: 0 <= i < |rows| && checks[i] && r == Present(Some(rows[i].name))
    decreases |rows|
  {
    if rows != [] {
      var n := |rows| - 1;
      SelectionAfterValues(start, rows[..n], checks[..n]);
      assert forall i :: 0 <= i < n ==> rows[..n][i] == rows[i] && checks[..n][i] == checks[i];
    }
  }

  /** The last row that writes the selection decides it: its name when it
      is ticked, None when it is unticked. */
  lemma {:induction false} LastActiveRowDecides(start: Slot<Option<string>>, rows: seq<Row>, checks: seq<bool>, i: nat)
    requires |checks| == |rows| && i < |rows|
    requires Active(Read(start), rows[i], checks[i])
    requires forall j :: i < j < |rows| ==> !Active(Read(start), rows[j], checks[j])
    ensures SelectionAfter(start, rows, checks) == Present(if checks[i] then Some(rows[i].name) else None)
    decreases |rows|
  {
    var n := |rows| - 1;
    if i < n {
      assert !Active(Read(start), rows[n], checks[n]);
      LastActiveRowDecides(start, rows[..n], checks[..n], i);
    }
  }

  /** If no row is ticked and none is named like the selection, the pass
      leaves the selection key as it was. */
  lemma {:induction false} NoActiveRowKeeps(start: Slot<Option<string>>, rows: seq<Row>, checks: seq<bool>)
    requires |checks| == |rows|
    requires forall j :: 0 <= j < |rows| ==> !Active(Read(start), rows[j], checks[j])
    ensures SelectionAfter(start, rows, checks) == start
    decreases |rows|
  {
    if rows != [] {
      var n := |rows| - 1;
      assert !Active(Read(start), rows[n], checks[n]);
      NoActiveRowKeeps(start, rows[..n], checks[..n]);
    }
  }

  // ---------------------------------------------------------------------
  // The overlays

  /** One overlay per ticked row. */
  lemma {:induction false} CheckedRowsCount(rows: seq<Row>, checks: seq<bool>)
    requires |checks| == |rows|
    ensures |CheckedRows(rows, checks)| == multiset(checks)[true]
    decreases |rows|
  {
    if rows != [] {
      var n := |rows| - 1;
      CheckedRowsCount(rows[..n], checks[..n]);
      assert checks == checks[..n] + [checks[n]];
      assert multiset(checks) == multiset(checks[..n]) + multiset{checks[n]};
    }
  }

  /** The ticked rows, and only those, in row order: `idx` lists their
      positions, strictly increasing. */
  lemma {:induction false} CheckedRowsInOrder(rows: seq<Row>, checks: seq<bool>) returns (idx: seq<nat>)
    requires |checks| == |rows|
    ensures |idx| == |CheckedRows(rows, checks)|
    ensures forall k :: 0 <= k < |idx| ==>
      idx[k] < |rows| && checks[idx[k]] && CheckedRows(rows, checks)[k] == rows[idx[k]]
    ensures forall k, l :: 0 <= k < l < |idx| ==> idx[k] < idx[l]
    ensures forall i :: 0 <= i < |rows| && checks[i] ==> i in idx
    decreases |rows|
  {
    if rows == [] {
      idx := [];
    } else {
      var n := |rows| - 1;
      var pre := CheckedRowsInOrder(rows[..n], checks[..n]);
      idx := pre + (if checks[n] then [n] else []);
      forall i | 0 <= i < |rows| && checks[i] ensures i in idx {
        if i < n {
          assert checks[..n][i];
          assert i in pre;
        } else {
          assert idx[|pre|] == n;
        }
      }
    }
  }

  /** No ticked row, no overlay. */
  lemma NothingCheckedNothingDrawn(rows: seq<Row>, checks: seq<bool>)
    requires |checks| == |rows|
    ensures CheckedRows(rows, checks) == [] <==> true !in checks
  {
    CheckedRowsCount(rows, checks);
  }

  /** Two ticked rows both get drawn and the later one ends up selected:
      the pass on its own does not keep the ticks mutually exclusive. */
  lemma TwoTickedRows(start: Slot<Option<string>>, a: Row, b: Row)
    ensures SelectionAfter(start, [a, b], [true, true]) == Present(Some(b.name))
    ensures CheckedRows([a, b], [true, true]) == [a, b]
  {
    LastActiveRowDecides(start, [a, b], [true, true], 1);
    assert [a, b][..1] == [a] && [true, true][..1] == [true];
    assert [a][..0] == [] && [true][..0] == [];
    assert CheckedRows([a], [true]) == [a];
  }

  lemma {:induction false} AtMostOneTrue(checks: seq<bool>)
    requires forall i, j :: 0 <= i < |checks| && 0 <= j < |checks| && checks[i] && checks[j] ==> i == j
    ensures multiset(checks)[true] <= 1
    decreases |checks|
  {
    if checks != [] {
      var n := |checks| - 1;
      assert checks == checks[..n] + [checks[n]];
      AtMostOneTrue(checks[..n]);
      if checks[n] {
        assert true !in checks[..n];
      }
    }
  }

  /** Two ticked rows give two overlays. */
  lemma TwoTickedTwoDrawn(rows: seq<Row>, checks: seq<bool>, i: nat, j: nat)
    requires |checks| == |rows| && i < |rows| && j < |rows| && i != j
    requires checks[i] && checks[j]
    ensures |CheckedRows(rows, checks)| >= 2
  {
    var idx := CheckedRowsInOrder(rows, checks);
    assert i in idx && j in idx;
  }

  /** The last row at or after an active row `i` that writes the selection. */
  lemma LastActiveFrom(start: Slot<Option<string>>, rows: seq<Row>, checks: seq<bool>, i: nat) returns (k: nat)
    requires |checks| == |rows| && i < |rows|
    requires Active(Read(start), rows[i], checks[i])
    ensures i <= k < |rows| && Active(Read(start), rows[k], checks[k])
    ensures forall j :: k < j < |rows| ==> !Active(Read(start), rows[j], checks[j])
    decreases |rows| - i
  {
    if j :| i < j < |rows| && Active(Read(start), rows[j], checks[j]) {
      k := LastActiveFrom(start, rows, checks, j);
    } else {
      k := i;
    }
  }

  /** The fixpoint: with unique option names and every checkbox showing
      whether its row is the current selection, the pass keeps the
      selection and draws at most one boundary. */
  lemma Fixpoint(start: Slot<Option<string>>, rows: seq<Row>, checks: seq<bool>)
    requires |checks| == |rows|
    requires forall i, j :: 0 <= i < j < |rows| ==> rows[i].name != rows[j].name
    requires forall i :: 0 <= i < |rows| ==> checks[i] == (Read(start) == Some(rows[i].name))
    ensures SelectionAfter(start, rows, checks) == start
    ensures |CheckedRows(rows, checks)| <= 1
  {
    var s := Read(start);
    if i :| 0 <= i < |rows| && s == Some(rows[i].name) {
      forall j | i < j < |rows| ensures !Active(s, rows[j], checks[j]) {
        assert rows[i].name != rows[j].name;
      }
      LastActiveRowDecides(start, rows, checks, i);
    } else {
      NoActiveRowKeeps(start, rows, checks);
    }
    forall i, j | 0 <= i < |rows| && 0 <= j < |rows| && checks[i] && checks[j] ensures i == j {
      assert s == Some(rows[i].name) && s == Some(rows[j].name);
    }
    AtMostOneTrue(checks);
    CheckedRowsCount(rows, checks);
  }

  /** The converse of the fixpoint: with unique option names, a pass that
      leaves the selection key as it was and draws at most one boundary
      had every checkbox showing whether its row is the current
      selection. */
  lemma FixpointOnlyIf(start: Slot<Option<string>>, rows: seq<Row>, checks: seq<bool>)
    requires |checks| == |rows|
    requires forall i, j :: 0 <= i < j < |rows| ==> rows[i].name != rows[j].name
    requires SelectionAfter(start, rows, checks) == start
    requires |CheckedRows(rows, checks)| <= 1
    ensures forall i :: 0 <= i < |rows| ==> checks[i] == (Read(start) == Some(rows[i].name))
  {
    var s := Read(start);
    forall i | 0 <= i < |rows| ensures checks[i] == (s == Some(rows[i].name)) {
      if Active(s, rows[i], checks[i]) {
        var k := LastActiveFrom(start, rows, checks, i);
        LastActiveRowDecides(start, rows, checks, k);
        if k != i && checks[i] && checks[k] {
          TwoTickedTwoDrawn(rows, checks, i, k);
        }
      }
    }
  }
}
