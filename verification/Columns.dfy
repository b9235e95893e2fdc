/**
 `showRoute`: a row is made of every route, while `updateColumnWidth` keeps the widest cell of
 each tracked column; then the header and all rows are printed with those widths.
 Texts are taken to be ASCII, so that lengths in octets and in characters agree.
 */
module Columns {
  import opened Bytes
  import opened Elapsed
  import opened Text

  /** Where path identifiers come from, if they are shown. */
  datatype Identifiers = Hidden | Received | Sent

  datatype Shape = Shape(id: Identifiers, best: bool, mpls: bool, mup: bool, age: bool, filtered: bool)

  datatype Origin = Unvalidated | NotFound | Valid | Invalid

  /** What the table shows of a path; None is a prefix that cannot be decoded or an attribute that is missing. */
  datatype Route = Route(
    stale: bool, origin: Origin, best: bool, nextHopInvalid: bool, identifier: nat, localIdentifier: nat,
    prefix: Option<string>, mpls: string, teid: string, qfi: string, endpoint: string,
    nextHop: Option<string>, asPath: Option<string>, age: nat, attrs: string, sendMaxFiltered: bool, filtered: bool)

  /** The texts of a line; from prefix to asPath the tracked ones, in the order they are printed. */
  datatype Row = Row(
    symbols: string, id: string, prefix: string, mpls: string, teid: string, qfi: string, endpoint: string,
    nextHop: string, asPath: string, age: string, attrs: string, filtered: string)

  /** getPathSymbolString */
  function Symbols(shape: Shape, p: Route): string {
    (if p.stale then "S" else "")
    + (match p.origin case Unvalidated => "" case NotFound => "N" case Valid => "V" case Invalid => "I")
    + (if !shape.best then "" else if p.best && !p.nextHopInvalid then "*>" else "* ")
  }

  function TextOr(o: Option<string>, otherwise: string): string {
    if o.Some? then o.value else otherwise
  }

  function Identifier(shape: Shape, p: Route): nat {
    if shape.id.Sent? then p.localIdentifier else p.identifier
  }

  /** makeShowRouteArgs; what is not shown is not printed either. */
  function RowOf(shape: Shape, p: Route): Row {
    Row(
      Symbols(shape, p), Print(Identifier(shape, p)), TextOr(p.prefix, "?"), p.mpls, p.teid, p.qfi, p.endpoint,
      TextOr(p.nextHop, "fictitious"), TextOr(p.asPath, ""), Rendered(p.age), p.attrs,
      if p.sendMaxFiltered then "send-max-filtered" else if p.filtered then "policy-filtered" else "not filtered")
  }

  function RowsOf(shape: Shape, routes: seq<Route>): (rows: seq<Row>)
    ensures |rows| == |routes| && forall i | 0 <= i < |rows| :: rows[i] == RowOf(shape, routes[i])
  {
    seq(|routes|, i requires 0 <= i < |routes| => RowOf(shape, routes[i]))
  }

  const HEADER := Row(
    "", "ID", "Network", "Labels", "TEID", "QFI", "Endpoint", "Next Hop", "AS_PATH", "Age", "Attrs", "Filtered")

  datatype Widths = Widths(prefix: nat, nextHop: nat, asPath: nat, mpls: nat, teid: nat, qfi: nat, endpoint: nat)

  const INITIAL := Widths(20, 20, 20, 10, 10, 10, 20)

  function Max(a: nat, b: nat): nat {
    if a < b then b else a
  }

  /** The widths after one more row. Columns that are not shown are passed as empty texts. */
  function Widen(w: Widths, shape: Shape, r: Row): Widths {
    Widths(
      Max(w.prefix, |r.prefix|), Max(w.nextHop, |r.nextHop|), Max(w.asPath, |r.asPath|),
      Max(w.mpls, if shape.mpls then |r.mpls| else 0),
      Max(w.teid, if shape.mup then |r.teid| else 0),
      Max(w.qfi, if shape.mup then |r.qfi| else 0),
      Max(w.endpoint, if shape.mup then |r.endpoint| else 0))
  }

  function WidenAll(w: Widths, shape: Shape, rows: seq<Row>): Widths {
    if rows == [] then w else Widen(WidenAll(w, shape, rows[..|rows| - 1]), shape, rows[|rows| - 1])
  }

  lemma WidenAllStep(w: Widths, shape: Shape, rows: seq<Row>, r: Row)
    ensures WidenAll(w, shape, rows + [r]) == Widen(WidenAll(w, shape, rows), shape, r)
  {
    assert (rows + [r])[..|rows|] == rows;
  }

  lemma {:induction false} WidenAllAppend(w: Widths, shape: Shape, a: seq<Row>, b: seq<Row>)
    ensures WidenAll(w, shape, a + b) == WidenAll(WidenAll(w, shape, a), shape, b)
  {
    if b == [] {
      assert a + b == a;
    } else {
      var n := |b| - 1;
      WidenAllAppend(w, shape, a, b[..n]);
      assert a + b == a + b[..n] + [b[n]];
      WidenAllStep(w, shape, a + b[..n], b[n]);
    }
  }

  /** The paths of all destinations, in order. */
  function AllRoutes(dsts: seq<seq<Route>>): seq<Route> {
    if dsts == [] then [] else AllRoutes(dsts[..|dsts| - 1]) + dsts[|dsts| - 1]
  }

  lemma OneMoreDestination(shape: Shape, dsts: seq<seq<Route>>, d: nat)
    requires d < |dsts|
    ensures RowsOf(shape, AllRoutes(dsts[..d + 1]))
            == RowsOf(shape, AllRoutes(dsts[..d])) + RowsOf(shape, dsts[d])
  {
    assert dsts[..d + 1][..d] == dsts[..d];
    RowsOfAppend(shape, AllRoutes(dsts[..d]), dsts[d]);
  }

  lemma RowsOfAppend(shape: Shape, a: seq<Route>, b: seq<Route>)
    ensures RowsOf(shape, a + b) == RowsOf(shape, a) + RowsOf(shape, b)
  {
  }

  lemma OneMoreRoute(shape: Shape, routes: seq<Route>, i: nat)
    requires i < |routes|
    ensures RowsOf(shape, routes[..i + 1]) == RowsOf(shape, routes[..i]) + [RowOf(shape, routes[i])]
  {
  }

  /** The package variables. */
  class ColumnWidths {
    var prefix: nat
    var nextHop: nat
    var asPath: nat
    var mpls: nat
    var teid: nat
    var qfi: nat
    var endpoint: nat

    constructor ()
      ensures Current() == INITIAL
    {
      prefix, nextHop, asPath, mpls, teid, qfi, endpoint := 20, 20, 20, 10, 10, 10, 20;
    }

    function Current(): Widths
      reads this
    {
      Widths(prefix, nextHop, asPath, mpls, teid, qfi, endpoint)
    }

    /** updateColumnWidth, called by makeShowRouteArgs. */
    method Update(shape: Shape, r: Row)
      modifies this
      ensures Current() == Widen(old(Current()), shape, r)
    {
      if prefix < |r.prefix| { prefix := |r.prefix|; }
      if nextHop < |r.nextHop| { nextHop := |r.nextHop|; }
      if asPath < |r.asPath| { asPath := |r.asPath|; }
      if shape.mpls && mpls < |r.mpls| { mpls := |r.mpls|; }
      if shape.mup && teid < |r.teid| { teid := |r.teid|; }
      if shape.mup && qfi < |r.qfi| { qfi := |r.qfi|; }
      if shape.mup && endpoint < |r.endpoint| { endpoint := |r.endpoint|; }
    }

    /** makeShowRouteArgs */
    method MakeRow(shape: Shape, p: Route) returns (row: Row)
      modifies this
      ensures row == RowOf(shape, p) && Current() == Widen(old(Current()), shape, row)
    {
      row := RowOf(shape, p);
      Update(shape, row);
    }

    method MakeRows(shape: Shape, routes: seq<Route>) returns (rows: seq<Row>)
      modifies this
      ensures rows == RowsOf(shape, routes) && Current() == WidenAll(old(Current()), shape, rows)
    {
      rows := [];
      for i := 0 to |routes|
        invariant rows == RowsOf(shape, routes[..i]) && Current() == WidenAll(old(Current()), shape, rows)
      {
        var row := MakeRow(shape, routes[i]);
        WidenAllStep(old(Current()), shape, rows, row);
        OneMoreRoute(shape, routes, i);
        rows := rows + [row];
      }
      assert routes[..|routes|] == routes;
    }

    method MakeAllRows(shape: Shape, dsts: seq<seq<Route>>) returns (rows: seq<Row>)
      modifies this
      ensures rows == RowsOf(shape, AllRoutes(dsts)) && Current() == WidenAll(old(Current()), shape, rows)
    {
      rows := [];
      for d := 0 to |dsts|
        invariant rows == RowsOf(shape, AllRoutes(dsts[..d])) && Current() == WidenAll(old(Current()), shape, rows)
      {
        var more := MakeRows(shape, dsts[d]);
        WidenAllAppend(old(Current()), shape, rows, more);
        OneMoreDestination(shape, dsts, d);
        rows := rows + more;
      }
      assert dsts[..|dsts|] == dsts;
    }

    /** showRoute: first all rows, then the lines, so that every line is printed with the final widths. */
    method ShowRoute(shape: Shape, dsts: seq<seq<Route>>) returns (lines: seq<string>)
      modifies this
      ensures Current() == WidenAll(old(Current()), shape, RowsOf(shape, AllRoutes(dsts)))
      ensures lines == Lines(Current(), shape, [HEADER] + RowsOf(shape, AllRoutes(dsts)))
    {
      var rows := MakeAllRows(shape, dsts);
      lines := PrintLines(Current(), shape, [HEADER] + rows);
    }
  }

  function Lines(w: Widths, shape: Shape, rows: seq<Row>): (ls: seq<string>)
    ensures |ls| == |rows| && forall i | 0 <= i < |rows| :: ls[i] == Line(w, shape, rows[i])
  {
    seq(|rows|, i requires 0 <= i < |rows| => Line(w, shape, rows[i]))
  }

  method PrintLines(w: Widths, shape: Shape, rows: seq<Row>) returns (lines: seq<string>)
    ensures lines == Lines(w, shape, rows)
  {
    lines := [];
    ghost var all := Lines(w, shape, rows);
    for i := 0 to |rows|
      invariant lines == all[..i]
    {
      var line := Line(w, shape, rows[i]);
      assert all[..i + 1] == all[..i] + [all[i]];
      lines := lines + [line];
    }
  }

  /** %-Ns: padded on the right to at least N characters. */
  function Pad(s: string, n: nat): (t: string)
    ensures s <= t && |t| == Max(|s|, n)
    ensures forall i | |s| <= i < |t| :: t[i] == ' '
  {
    if |s| < n then s + seq(n - |s|, _ => ' ') else s
  }

  /** Everything a line holds before its tracked columns. */
  function Front(shape: Shape, r: Row): string {
    Pad(r.symbols, 3) + (if !shape.id.Hidden? then Pad(r.id, 3) + " " else "")
  }

  /** The tracked columns that are shown, each with the width it is printed in. */
  function Tracked(w: Widths, shape: Shape, r: Row): seq<(string, nat)> {
    [(r.prefix, w.prefix)]
    + (if shape.mpls then [(r.mpls, w.mpls)] else [])
    + (if shape.mup then [(r.teid, w.teid), (r.qfi, w.qfi), (r.endpoint, w.endpoint)] else [])
    + [(r.nextHop, w.nextHop), (r.asPath, w.asPath)]
  }

  function Cells(cs: seq<(string, nat)>): string {
    if cs == [] then "" else Cells(cs[..|cs| - 1]) + Pad(cs[|cs| - 1].0, cs[|cs| - 1].1) + " "
  }

  function AgeCell(shape: Shape, r: Row): string {
    if shape.age then Pad(r.age, 10) + " " else ""
  }

  function Tail(shape: Shape, r: Row): string {
    AgeCell(shape, r) + r.attrs + (if shape.filtered then r.filtered else "")
  }

  function Line(w: Widths, shape: Shape, r: Row): string {
    Front(shape, r) + Cells(Tracked(w, shape, r)) + Tail(shape, r)
  }

  // -------------------------------------------------------------- properties

  predicate AllFit(cs: seq<(string, nat)>) {
    forall i | 0 <= i < |cs| :: |cs[i].0| <= cs[i].1
  }

  predicate Fits(w: Widths, shape: Shape, r: Row) {
    AllFit(Tracked(w, shape, r))
  }

  predicate AtMost(v: Widths, w: Widths) {
    && v.prefix <= w.prefix && v.nextHop <= w.nextHop && v.asPath <= w.asPath
    && v.mpls <= w.mpls && v.teid <= w.teid && v.qfi <= w.qfi && v.endpoint <= w.endpoint
  }

  lemma {:induction false} WidthsGrow(w: Widths, shape: Shape, rows: seq<Row>)
    ensures AtMost(w, WidenAll(w, shape, rows))
  {
    if rows != [] {
      WidthsGrow(w, shape, rows[..|rows| - 1]);
    }
  }

  lemma {:induction false} EveryRowFits(w: Widths, shape: Shape, rows: seq<Row>, i: nat)
    requires i < |rows|
    ensures Fits(WidenAll(w, shape, rows), shape, rows[i])
  {
    var n := |rows| - 1;
    var before, end := WidenAll(w, shape, rows[..n]), WidenAll(w, shape, rows);
    if i < n {
      EveryRowFits(w, shape, rows[..n], i);
      FitsMonotone(before, end, shape, rows[i]);
    } else {
      FitsIff(end, shape, rows[n]);
    }
  }

  lemma {:induction false} NoSmallerWidthsDo(w: Widths, shape: Shape, rows: seq<Row>, v: Widths)
    requires AtMost(w, v) && forall i | 0 <= i < |rows| :: Fits(v, shape, rows[i])
    ensures AtMost(WidenAll(w, shape, rows), v)
  {
    if rows != [] {
      var n := |rows| - 1;
      NoSmallerWidthsDo(w, shape, rows[..n], v);
      FitsIff(v, shape, rows[n]);
    }
  }

  /** Widths never shrink, every row fits its columns, and they are the least such widths. */
  lemma WidthsAreTight(w: Widths, shape: Shape, rows: seq<Row>, v: Widths)
    ensures AtMost(w, WidenAll(w, shape, rows))
    ensures forall i | 0 <= i < |rows| :: Fits(WidenAll(w, shape, rows), shape, rows[i])
    ensures AtMost(w, v) && (forall i | 0 <= i < |rows| :: Fits(v, shape, rows[i]))
            ==> AtMost(WidenAll(w, shape, rows), v)
  {
    WidthsGrow(w, shape, rows);
    forall i | 0 <= i < |rows|
      ensures Fits(WidenAll(w, shape, rows), shape, rows[i])
    {
      EveryRowFits(w, shape, rows, i);
    }
    if AtMost(w, v) && forall i | 0 <= i < |rows| :: Fits(v, shape, rows[i]) {
      NoSmallerWidthsDo(w, shape, rows, v);
    }
  }

  lemma FitsIff(w: Widths, shape: Shape, r: Row)
    ensures Fits(w, shape, r) <==>
            && |r.prefix| <= w.prefix && |r.nextHop| <= w.nextHop && |r.asPath| <= w.asPath
            && (shape.mpls ==> |r.mpls| <= w.mpls)
            && (shape.mup ==> |r.teid| <= w.teid && |r.qfi| <= w.qfi && |r.endpoint| <= w.endpoint)
  {
    var cs := Tracked(w, shape, r);
    var k := 1 + if shape.mpls then 1 else 0;
    assert cs[0] == (r.prefix, w.prefix);
    assert cs[|cs| - 2] == (r.nextHop, w.nextHop) && cs[|cs| - 1] == (r.asPath, w.asPath);
    assert shape.mpls ==> cs[1] == (r.mpls, w.mpls);
    assert shape.mup ==> cs[k] == (r.teid, w.teid) && cs[k + 1] == (r.qfi, w.qfi);
    assert shape.mup ==> cs[k + 2] == (r.endpoint, w.endpoint);
  }

  lemma FitsMonotone(v: Widths, w: Widths, shape: Shape, r: Row)
    requires AtMost(v, w) && Fits(v, shape, r)
    ensures Fits(w, shape, r)
  {
    FitsIff(v, shape, r);
    FitsIff(w, shape, r);
  }

  /** Where the k-th tracked column of a line begins. */
  function Offset(w: Widths, shape: Shape, r: Row, k: nat): nat
    requires k <= |Tracked(w, shape, r)|
  {
    |Front(shape, r)| + |Cells(Tracked(w, shape, r)[..k])|
  }

  /** Each cell stands behind the ones before it. */
  lemma {:induction false} CellAtOffset(cs: seq<(string, nat)>, k: nat, n: nat)
    requires k < n <= |cs|
    ensures Cells(cs[..k]) + cs[k].0 <= Cells(cs[..n])
  {
    var before := cs[..n - 1];
    assert cs[..n][..n - 1] == before;
    LastCell(Cells(before), cs[n - 1].0, cs[n - 1].1);
    if k < n - 1 {
      CellAtOffset(cs, k, n - 1);
      Longer(Cells(cs[..k]) + cs[k].0, Cells(before), Cells(cs[..n]));
    }
  }

  lemma Longer(a: string, b: string, c: string)
    requires a <= b <= c
    ensures a <= c
  {
  }

  lemma LastCell(before: string, cell: string, width: nat)
    ensures before + cell <= before + Pad(cell, width) + " "
    ensures before <= before + Pad(cell, width) + " "
  {
  }

  lemma Begins(a: string, b: string, c: string, d: string)
    requires b <= c
    ensures a + b <= a + c + d
  {
  }

  /** What stands in a line at the offset of a column is its cell. */
  lemma CellOfLine(w: Widths, shape: Shape, r: Row, k: nat)
    requires k < |Tracked(w, shape, r)|
    ensures var cs := Tracked(w, shape, r);
            var before := Cells(cs[..k]);
            && Front(shape, r) + (before + cs[k].0) <= Line(w, shape, r)
            && Offset(w, shape, r, k) == |Front(shape, r)| + |before|
  {
    StandsIn(Front(shape, r), Tracked(w, shape, r), k, Tail(shape, r));
  }

  lemma StandsIn(front: string, cs: seq<(string, nat)>, k: nat, tail: string)
    requires k < |cs|
    ensures front + (Cells(cs[..k]) + cs[k].0) <= front + Cells(cs) + tail
  {
    assert cs[..|cs|] == cs;
    CellAtOffset(cs, k, |cs|);
    Begins(front, Cells(cs[..k]) + cs[k].0, Cells(cs), tail);
  }

  function Total(ws: seq<nat>): nat {
    if ws == [] then 0 else Total(ws[..|ws| - 1]) + ws[|ws| - 1] + 1
  }

  function WidthsOf(cs: seq<(string, nat)>): (ws: seq<nat>)
    ensures |ws| == |cs|
  {
    seq(|cs|, i requires 0 <= i < |cs| => cs[i].1)
  }

  lemma CellsStep(cs: seq<(string, nat)>, k: nat)
    requires 0 < k <= |cs|
    ensures |Cells(cs[..k])| == |Cells(cs[..k - 1])| + Max(|cs[k - 1].0|, cs[k - 1].1) + 1
  {
    assert cs[..k][..k - 1] == cs[..k - 1];
  }

  lemma TotalStep(ws: seq<nat>, k: nat)
    requires 0 < k <= |ws|
    ensures Total(ws[..k]) == Total(ws[..k - 1]) + ws[k - 1] + 1
  {
    assert ws[..k][..k - 1] == ws[..k - 1];
  }

  lemma {:induction false} CellsLength(cs: seq<(string, nat)>, k: nat)
    requires AllFit(cs) && k <= |cs|
    ensures |Cells(cs[..k])| == Total(WidthsOf(cs)[..k])
  {
    if k > 0 {
      CellsLength(cs, k - 1);
      CellsStep(cs, k);
      TotalStep(WidthsOf(cs), k);
    }
  }

  /** Rows that fit have equally long cells in front of each column. */
  lemma SameCellLengths(w: Widths, shape: Shape, r: Row, q: Row, k: nat)
    requires Fits(w, shape, r) && Fits(w, shape, q) && k <= |Tracked(w, shape, r)|
    ensures |Tracked(w, shape, r)| == |Tracked(w, shape, q)|
    ensures |Cells(Tracked(w, shape, r)[..k])| == |Cells(Tracked(w, shape, q)[..k])|
  {
    WidthsDoNotDependOnCells(w, shape, r, q);
    CellsLength(Tracked(w, shape, r), k);
    CellsLength(Tracked(w, shape, q), k);
  }

  lemma WidthsDoNotDependOnCells(w: Widths, shape: Shape, r: Row, q: Row)
    ensures WidthsOf(Tracked(w, shape, r)) == WidthsOf(Tracked(w, shape, q))
  {
  }

  /** All tracked columns of a row start where the header's do. */
  predicate InLine(w: Widths, shape: Shape, r: Row) {
    && |Tracked(w, shape, r)| == |Tracked(w, shape, HEADER)|
    && forall k | 0 <= k <= |Tracked(w, shape, r)| :: Offset(w, shape, r, k) == Offset(w, shape, HEADER, k)
  }

  /** Where the attributes of a line begin. */
  function AttrsOffset(w: Widths, shape: Shape, r: Row): nat {
    Offset(w, shape, r, |Tracked(w, shape, r)|) + |AgeCell(shape, r)|
  }

  lemma FrontLength(shape: Shape, r: Row)
    ensures |Front(shape, r)| == Max(|r.symbols|, 3) + (if shape.id.Hidden? then 0 else Max(|r.id|, 3) + 1)
  {
  }

  /** Only the columns with the fixed width 3 can push the others out of line. */
  lemma InLineIff(w: Widths, shape: Shape, r: Row)
    requires Fits(w, shape, r) && Fits(w, shape, HEADER)
    ensures InLine(w, shape, r) <==> |Front(shape, r)| == |Front(shape, HEADER)|
    ensures InLine(w, shape, r) <==> |r.symbols| <= 3 && (shape.id.Hidden? || |r.id| <= 3)
  {
    SameCellLengths(w, shape, r, HEADER, 0);
    FrontLength(shape, r);
    FrontLength(shape, HEADER);
    if |Front(shape, r)| == |Front(shape, HEADER)| {
      forall k | 0 <= k <= |Tracked(w, shape, r)|
        ensures Offset(w, shape, r, k) == Offset(w, shape, HEADER, k)
      {
        SameCellLengths(w, shape, r, HEADER, k);
      }
    } else {
      assert Offset(w, shape, r, 0) != Offset(w, shape, HEADER, 0);
    }
  }

  /** The attributes can also be pushed by the age, whose column has the fixed width 10. */
  lemma AttrsInLineIff(w: Widths, shape: Shape, r: Row)
    requires Fits(w, shape, r) && Fits(w, shape, HEADER)
    ensures AttrsOffset(w, shape, r) == AttrsOffset(w, shape, HEADER)
            <==> InLine(w, shape, r) && (shape.age ==> |r.age| <= 10)
  {
    var n := |Tracked(w, shape, r)|;
    SameCellLengths(w, shape, r, HEADER, n);
    InLineIff(w, shape, r);
    FrontLength(shape, r);
    FrontLength(shape, HEADER);
  }

  /** The symbols overflow only when all three of their parts are there. */
  predicate SymbolsFit(shape: Shape, p: Route) {
    !(shape.best && p.stale && !p.origin.Unvalidated?)
  }

  lemma SymbolsFitIff(shape: Shape, p: Route)
    ensures |Symbols(shape, p)| <= 3 <==> SymbolsFit(shape, p)
  {
  }

  lemma PrintStep(n: nat)
    requires n >= 10
    ensures |Print(n)| == |Print(n / 10)| + 1
  {
  }

  lemma ThreeDigitsIff(n: nat)
    ensures |Print(n)| <= 3 <==> n < 1000
  {
    if n >= 10 { PrintStep(n); }
    if n >= 100 { PrintStep(n / 10); }
    if n >= 1000 { PrintStep(n / 100); }
  }

  lemma AgeFitsIff(age: nat)
    ensures |Rendered(age)| <= 10 <==> age < 86400
  {
  }

  /**
   A route's columns stand under the header's, whatever else the table holds and whatever the
   widths were before, exactly when it is not a stale and validated route in a table that shows
   the best ones, and its identifier, if shown, is below 1000. The attributes stand under theirs
   if, moreover, the age is not shown or less than a day.
   */
  lemma TableAlignedIff(start: Widths, shape: Shape, routes: seq<Route>, i: nat)
    requires AtMost(INITIAL, start) && i < |routes|
    ensures var w := WidenAll(start, shape, RowsOf(shape, routes));
            var p, r := routes[i], RowOf(shape, routes[i]);
            && (InLine(w, shape, r) <==> SymbolsFit(shape, p) && (shape.id.Hidden? || Identifier(shape, p) < 1000))
            && (AttrsOffset(w, shape, r) == AttrsOffset(w, shape, HEADER)
                <==> InLine(w, shape, r) && (shape.age ==> p.age < 86400))
  {
    var rows := RowsOf(shape, routes);
    var w := WidenAll(start, shape, rows);
    WidthsGrow(start, shape, rows);
    FitsIff(w, shape, HEADER);
    EveryRowFits(start, shape, rows, i);
    InLineIff(w, shape, rows[i]);
    AttrsInLineIff(w, shape, rows[i]);
    SymbolsFitIff(shape, routes[i]);
    ThreeDigitsIff(Identifier(shape, routes[i]));
    AgeFitsIff(routes[i].age);
  }

  /** A stale and valid best route: its prefix begins at column 4, the header's at column 3. */
  lemma StaleAndValidIsOutOfLine(w: Widths, shape: Shape, p: Route)
    requires shape.best && shape.id.Hidden? && p.stale && p.origin.Valid? && p.best && !p.nextHopInvalid
    ensures Symbols(shape, p) == "SV*>"
    ensures Offset(w, shape, RowOf(shape, p), 0) == 4 && Offset(w, shape, HEADER, 0) == 3
  {
    FrontLength(shape, RowOf(shape, p));
    FrontLength(shape, HEADER);
  }

  /** What each symbol says. */
  lemma SymbolsMean(shape: Shape, p: Route)
    ensures 'S' in Symbols(shape, p) <==> p.stale
    ensures 'N' in Symbols(shape, p) <==> p.origin.NotFound?
    ensures 'V' in Symbols(shape, p) <==> p.origin.Valid?
    ensures 'I' in Symbols(shape, p) <==> p.origin.Invalid?
    ensures '*' in Symbols(shape, p) <==> shape.best
    ensures '>' in Symbols(shape, p) <==> shape.best && p.best && !p.nextHopInvalid
  {
  }

  /** Which text stands under which heading, in a table without labels and one with everything. */
  lemma ColumnsAre(w: Widths, shape: Shape, p: Route, prefix: string, nextHop: string, asPath: string)
    requires p.prefix == Some(prefix) && p.nextHop == Some(nextHop) && p.asPath == Some(asPath)
    ensures !shape.mpls && !shape.mup ==>
              && Tracked(w, shape, HEADER) == [("Network", w.prefix), ("Next Hop", w.nextHop), ("AS_PATH", w.asPath)]
              && Tracked(w, shape, RowOf(shape, p)) == [(prefix, w.prefix), (nextHop, w.nextHop), (asPath, w.asPath)]
    ensures shape.mpls && shape.mup ==>
              && Tracked(w, shape, HEADER)
                 == [("Network", w.prefix), ("Labels", w.mpls), ("TEID", w.teid), ("QFI", w.qfi),
                     ("Endpoint", w.endpoint), ("Next Hop", w.nextHop), ("AS_PATH", w.asPath)]
              && Tracked(w, shape, RowOf(shape, p))
                 == [(prefix, w.prefix), (p.mpls, w.mpls), (p.teid, w.teid), (p.qfi, w.qfi),
                     (p.endpoint, w.endpoint), (nextHop, w.nextHop), (asPath, w.asPath)]
  {
  }

  /** What stands for something that is missing, and behind the tracked columns. */
  lemma OtherTextsAre(shape: Shape, p: Route)
    ensures p.prefix == None ==> RowOf(shape, p).prefix == "?"
    ensures p.nextHop == None ==> RowOf(shape, p).nextHop == "fictitious"
    ensures p.asPath == None ==> RowOf(shape, p).asPath == ""
    ensures shape.id.Received? ==> RowOf(shape, p).id == Print(p.identifier)
    ensures shape.id.Sent? ==> RowOf(shape, p).id == Print(p.localIdentifier)
    ensures RowOf(shape, p).attrs == p.attrs && RowOf(shape, p).age == Rendered(p.age)
    ensures p.sendMaxFiltered ==> RowOf(shape, p).filtered == "send-max-filtered"
    ensures !p.sendMaxFiltered && p.filtered ==> RowOf(shape, p).filtered == "policy-filtered"
    ensures !p.sendMaxFiltered && !p.filtered ==> RowOf(shape, p).filtered == "not filtered"
  {
  }

  /** The widths of a table without rows. */
  lemma DefaultWidths(shape: Shape)
    ensures var w := WidenAll(INITIAL, shape, []);
            && w.prefix == w.nextHop == w.asPath == w.endpoint == 20 && w.mpls == w.teid == w.qfi == 10
  {
  }

  /** The other headings, and what follows the tracked columns: the age if shown, the attributes, the filter. */
  lemma TailIs(shape: Shape, r: Row)
    ensures HEADER.symbols == "" && HEADER.id == "ID"
    ensures HEADER.age == "Age" && HEADER.attrs == "Attrs" && HEADER.filtered == "Filtered"
    ensures !shape.age && !shape.filtered ==> Tail(shape, r) == r.attrs
    ensures !shape.age && shape.filtered ==> Tail(shape, r) == r.attrs + r.filtered
    ensures shape.age ==>
              r.age <= Tail(shape, r) && Tail(shape, r)[|AgeCell(shape, r)|..] == Tail(shape.(age := false), r)
  {
    var rest := r.attrs + (if shape.filtered then r.filtered else "");
    assert "" + r.attrs == r.attrs && r.attrs + "" == r.attrs;
    assert Tail(shape, r) == AgeCell(shape, r) + rest;
  }

  /** A line of the plainest table, in full. */
  lemma PlainLine(w: Widths, r: Row)
    ensures var shape := Shape(Hidden, true, false, false, false, false);
            Line(w, shape, r)
            == Pad(r.symbols, 3) + (Pad(r.prefix, w.prefix) + " " + Pad(r.nextHop, w.nextHop) + " "
                                    + Pad(r.asPath, w.asPath) + " ") + r.attrs
  {
    var shape := Shape(Hidden, true, false, false, false, false);
    var a, b, c := (r.prefix, w.prefix), (r.nextHop, w.nextHop), (r.asPath, w.asPath);
    ThreeCells(a, b, c);
    assert Tracked(w, shape, r) == [a, b, c];
    assert Front(shape, r) == Pad(r.symbols, 3) && Tail(shape, r) == r.attrs;
  }

  lemma ThreeCells(a: (string, nat), b: (string, nat), c: (string, nat))
    ensures Cells([a, b, c]) == Pad(a.0, a.1) + " " + Pad(b.0, b.1) + " " + Pad(c.0, c.1) + " "
  {
    assert [a, b, c][..2] == [a, b] && [a, b][..1] == [a] && [a][..0] == [];
    assert Cells([a]) == Pad(a.0, a.1) + " ";
    assert Cells([a, b]) == Pad(a.0, a.1) + " " + Pad(b.0, b.1) + " ";
  }
}
