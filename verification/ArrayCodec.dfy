/** The text form of array values, at the level of comma-separated tokens: plain values,
    values with an index, and runs. The decoder keeps a cursor in two dimensions. An array
    has one cell more than its size: the last one holds the default value. */
module ArrayCodec {
  import opened Basics

  type Count = n: int | n > 0 witness 1

  /** `y_yCount:x_xCount=text`; without the second part, `y` is a position in the row-major
      order. */
  datatype Token<+T> = Plain(text: T) | At(y: nat, yCount: Count, x: Option<(nat, Count)>, text: T)

  datatype Shape = Shape(y: Count, x: Count)

  function Size(s: Shape): Count
  {
    assert s.y * s.x >= 1 by { MulPositive(s.y, s.x); }
    s.y * s.x
  }

  /** With the default value. */
  function Cells(s: Shape): Count { Size(s) + 1 }

  lemma MulPositive(a: int, b: int)
    requires a > 0 && b > 0
    ensures a * b > 0
  {
  }

  /** How a cell is written and read. */
  datatype Cell<!V, !T> = Cell(format: V -> T, parse: T -> V)

  // ----- decoding -----

  /** The cells, the cursor, and whether any cell got a new value. */
  datatype Dec<+V> = Dec(cells: seq<V>, py: nat, px: nat, changed: bool)

  function Fill<V>(cells: seq<V>, pos: nat, count: nat, v: V): (r: seq<V>)
    requires pos + count <= |cells|
    ensures |r| == |cells|
  {
    seq(|cells|, k requires 0 <= k < |cells| => if pos <= k < pos + count then v else cells[k])
  }

  predicate Differs<V(==)>(cells: seq<V>, pos: nat, count: nat, v: V)
    requires pos + count <= |cells|
  {
    exists k | pos <= k < pos + count :: cells[k] != v
  }

  function Normal<V>(s: Shape, d: Dec<V>): Dec<V> {
    if d.px >= s.x then d.(py := d.py + d.px / s.x, px := d.px % s.x) else d
  }

  function Position<V>(s: Shape, d: Dec<V>): nat {
    assert d.py * s.x >= 0 by { if d.py > 0 { MulPositive(d.py, s.x); } }
    d.py * s.x + d.px
  }

  /** A row that does not end inside the array is cut, but one cell too late: its last cell
      is the default value. */
  function Cut(s: Shape, pos: nat, xCount: Count): Count
    requires pos < Size(s)
  {
    if pos + (xCount - 1) >= Size(s) then Size(s) - pos + 1 else xCount
  }

  /** One row of a token; one that begins outside is ignored. */
  function Row<V(==)>(s: Shape, d: Dec<V>, y: nat, x: nat, xCount: Count, v: V): (r: Dec<V>)
    requires |d.cells| == Cells(s)
    ensures |r.cells| == |d.cells|
  {
    var d1 := Normal(s, d.(py := y, px := x));
    var pos := Position(s, d1);
    if pos >= Size(s) then d1
    else
      var count := Cut(s, pos, xCount);
      d1.(cells := Fill(d.cells, pos, count, v), px := d1.px + (count - 1),
          changed := d.changed || Differs(d.cells, pos, count, v))
  }

  /** The first `n` rows. */
  function Rows<V(==)>(s: Shape, d: Dec<V>, y: nat, n: nat, x: nat, xCount: Count, v: V): (r: Dec<V>)
    requires |d.cells| == Cells(s)
    ensures |r.cells| == |d.cells|
  {
    if n == 0 then d else Row(s, Rows(s, d, y, n - 1, x, xCount, v), y + (n - 1), x, xCount, v)
  }

  /** A position alone is one in a row if rows are longer than one cell, else one of a row. */
  function Rectangle(s: Shape, y: nat, yCount: Count, x: Option<(nat, Count)>): (nat, Count, nat, Count) {
    match x
    case Some((xPos, xCount)) => (y, yCount, xPos, xCount)
    case None => if s.x > 1 then (0, 1, y, yCount) else (0, yCount, y, 1)
  }

  function Next<V>(s: Shape, d: Dec<V>): Dec<V> {
    Normal(s, d.(px := d.px + 1))
  }

  function DecodeOne<V(==), T>(s: Shape, c: Cell<V, T>, d: Dec<V>, t: Token<T>): (r: Dec<V>)
    requires |d.cells| == Cells(s)
    ensures |r.cells| == |d.cells|
  {
    match t
    case Plain(text) =>
      var pos := Position(s, d);
      if pos >= Size(s) then Next(s, d)
      else Next(s, d.(cells := d.cells[pos := c.parse(text)], changed := d.changed || d.cells[pos] != c.parse(text)))
    case At(y, yCount, x, text) =>
      var (y1, yCount1, x1, xCount1) := Rectangle(s, y, yCount, x);
      Next(s, Rows(s, d, y1, yCount1, x1, xCount1, c.parse(text)))
  }

  function Decode<V(==), T>(s: Shape, c: Cell<V, T>, d: Dec<V>, ts: seq<Token<T>>): (r: Dec<V>)
    requires |d.cells| == Cells(s)
    ensures |r.cells| == |d.cells|
    decreases |ts|
  {
    if ts == [] then d else Decode(s, c, DecodeOne(s, c, d, ts[0]), ts[1..])
  }

  function Start<V>(cells: seq<V>): Dec<V> { Dec(cells, 0, 0, false) }

  // ----- the cursor -----

  /** The cursor is inside its row. */
  predicate Tidy<V>(s: Shape, d: Dec<V>) { d.px < s.x }

  lemma NormalPosition<V>(s: Shape, d: Dec<V>)
    ensures Tidy(s, Normal(s, d)) && Position(s, Normal(s, d)) == Position(s, d)
  {
    DivMod(d.px, s.x);
    if d.px >= s.x {
      Distribute(d.py, d.px / s.x, s.x);
    }
  }

  lemma DivMod(a: nat, b: Count)
    ensures a / b * b + a % b == a && 0 <= a % b < b
  {
  }

  lemma Distribute(a: int, b: int, c: int)
    ensures (a + b) * c == a * c + b * c
  {
  }

  lemma NextPosition<V>(s: Shape, d: Dec<V>)
    ensures Tidy(s, Next(s, d)) && Position(s, Next(s, d)) == Position(s, d) + 1
    ensures Next(s, d).cells == d.cells && Next(s, d).changed == d.changed
  {
    NormalPosition(s, d.(px := d.px + 1));
  }

  /** The cell at a position in row-major order, and the run starting there, whatever the
      shape: the cursor then stands behind the run. */
  lemma DecodesLinear<V, T>(s: Shape, c: Cell<V, T>, d: Dec<V>, pos: nat, count: Count, text: T)
    requires |d.cells| == Cells(s) && pos + count <= Size(s)
    ensures var r := DecodeOne(s, c, d, At(pos, count, None, text));
            && Tidy(s, r) && Position(s, r) == pos + count
            && r.cells == Fill(d.cells, pos, count, c.parse(text))
            && r.changed == (d.changed || Differs(d.cells, pos, count, c.parse(text)))
  {
    var v := c.parse(text);
    if s.x > 1 {
      RowLinear(s, d, 0, pos, count, v);
      assert Rows(s, d, 0, 0, pos, count, v) == d;
      assert Rows(s, d, 0, 1, pos, count, v) == Row(s, d, 0, pos, count, v);
      NextPosition(s, Row(s, d, 0, pos, count, v));
    } else {
      ColumnLinear(s, d, pos, count, v);
      NextPosition(s, Rows(s, d, 0, count, pos, 1, v));
    }
  }

  lemma RowLinear<V>(s: Shape, d: Dec<V>, y: nat, x: nat, count: Count, v: V)
    requires |d.cells| == Cells(s) && y * s.x >= 0 && y * s.x + x + count <= Size(s)
    ensures var r := Row(s, d, y, x, count, v);
            && Position(s, r) == y * s.x + x + count - 1
            && r.cells == Fill(d.cells, y * s.x + x, count, v)
            && r.changed == (d.changed || Differs(d.cells, y * s.x + x, count, v))
  {
    NormalPosition(s, d.(py := y, px := x));
  }

  /** In an array of one column a run goes down the rows. */
  lemma {:induction false} ColumnLinear<V>(s: Shape, d: Dec<V>, pos: nat, n: Count, v: V)
    requires s.x == 1 && |d.cells| == Cells(s) && pos + n <= Size(s)
    ensures var r := Rows(s, d, 0, n, pos, 1, v);
            && Position(s, r) == pos + n - 1
            && r.cells == Fill(d.cells, pos, n, v)
            && r.changed == (d.changed || Differs(d.cells, pos, n, v))
    decreases n
  {
    if n == 1 {
      assert Rows(s, d, 0, 0, pos, 1, v) == d;
      RowLinear(s, d, 0, pos, 1, v);
    } else {
      ColumnLinear(s, d, pos, n - 1, v);
      RowLinear(s, Rows(s, d, 0, n - 1, pos, 1, v), n - 1, pos, 1, v);
      FillMore(d.cells, pos, n - 1, v);
    }
  }

  lemma FillMore<V>(cells: seq<V>, pos: nat, n: nat, v: V)
    requires pos + n + 1 <= |cells|
    ensures Fill(Fill(cells, pos, n, v), pos + n, 1, v) == Fill(cells, pos, n + 1, v)
    ensures Differs(cells, pos, n + 1, v) <==>
              Differs(cells, pos, n, v) || Differs(Fill(cells, pos, n, v), pos + n, 1, v)
  {
    var mid := Fill(cells, pos, n, v);
    assert mid[pos + n] == cells[pos + n];
    if Differs(cells, pos, n + 1, v) {
      var k :| pos <= k < pos + n + 1 && cells[k] != v;
      assert k < pos + n || mid[k] != v;
    }
  }

  lemma DecodesPlain<V, T>(s: Shape, c: Cell<V, T>, d: Dec<V>, text: T)
    requires |d.cells| == Cells(s) && Position(s, d) < Size(s)
    ensures var r := DecodeOne(s, c, d, Plain(text));
            && Tidy(s, r) && Position(s, r) == Position(s, d) + 1
            && r.cells == d.cells[Position(s, d) := c.parse(text)]
            && r.changed == (d.changed || d.cells[Position(s, d)] != c.parse(text))
  {
    var pos := Position(s, d);
    NextPosition(s, d.(cells := d.cells[pos := c.parse(text)], changed := d.changed || d.cells[pos] != c.parse(text)));
  }

  // ----- rows and columns -----

  /** The cell is in that row of an item, `xCount` cells long and beginning in column `x`. */
  predicate InRow(s: Shape, row: nat, x: nat, xCount: Count, k: nat) {
    row * s.x + x <= k < row * s.x + x + xCount
  }

  predicate Covered(s: Shape, y: nat, yCount: nat, x: nat, xCount: Count, k: nat) {
    exists row | y <= row < y + yCount :: InRow(s, row, x, xCount, k)
  }

  lemma RowMeans<V>(s: Shape, d: Dec<V>, y: nat, x: nat, xCount: Count, v: V, k: nat)
    requires |d.cells| == Cells(s) && k < Size(s)
    ensures Row(s, d, y, x, xCount, v).cells[k] == if InRow(s, y, x, xCount, k) then v else d.cells[k]
  {
    NormalPosition(s, d.(py := y, px := x));
    assert y * s.x >= 0 by { if y > 0 { MulPositive(y, s.x); } }
  }

  lemma OneCoveredMore(s: Shape, y: nat, n: nat, x: nat, xCount: Count, k: nat)
    ensures Covered(s, y, n + 1, x, xCount, k) <==> Covered(s, y, n, x, xCount, k) || InRow(s, y + n, x, xCount, k)
  {
    hide InRow;
  }

  lemma {:induction false} RowsMean<V>(s: Shape, d: Dec<V>, y: nat, n: nat, x: nat, xCount: Count, v: V, k: nat)
    requires |d.cells| == Cells(s) && k < Size(s)
    ensures Rows(s, d, y, n, x, xCount, v).cells[k] == if Covered(s, y, n, x, xCount, k) then v else d.cells[k]
  {
    if n > 0 {
      RowsMean(s, d, y, n - 1, x, xCount, v, k);
      RowMeans(s, Rows(s, d, y, n - 1, x, xCount, v), y + (n - 1), x, xCount, v, k);
      OneCoveredMore(s, y, n - 1, x, xCount, k);
      hide Row, InRow, Covered;
    }
  }

  /** An item with rows and columns gives its value to exactly the cells of these rows and
      columns, as far as they are inside. */
  lemma RectangleMeans<V, T>(s: Shape, c: Cell<V, T>, d: Dec<V>, y: nat, yCount: Count, x: nat, xCount: Count, text: T)
    requires |d.cells| == Cells(s)
    ensures var r := DecodeOne(s, c, d, At(y, yCount, Some((x, xCount)), text));
            forall k | 0 <= k < Size(s) ::
              r.cells[k] == if Covered(s, y, yCount, x, xCount, k) then c.parse(text) else d.cells[k]
  {
    forall k | 0 <= k < Size(s)
      ensures Rows(s, d, y, yCount, x, xCount, c.parse(text)).cells[k] ==
              if Covered(s, y, yCount, x, xCount, k) then c.parse(text) else d.cells[k]
    {
      RowsMean(s, d, y, yCount, x, xCount, c.parse(text), k);
    }
    NextPosition(s, Rows(s, d, y, yCount, x, xCount, c.parse(text)));
    hide Covered, Rows, Next;
  }

  /** The cursor then stands behind the last row, if that lies inside. */
  lemma RectangleLeaves<V, T>(s: Shape, c: Cell<V, T>, d: Dec<V>, y: nat, yCount: Count, x: nat, xCount: Count, text: T)
    requires |d.cells| == Cells(s)
    requires var last := y + (yCount - 1); last * s.x >= 0 && last * s.x + x + xCount <= Size(s)
    ensures var r := DecodeOne(s, c, d, At(y, yCount, Some((x, xCount)), text));
            var last := y + (yCount - 1);
            Tidy(s, r) && Position(s, r) == last * s.x + x + xCount
  {
    var v := c.parse(text);
    var last := y + (yCount - 1);
    var before := Rows(s, d, y, yCount - 1, x, xCount, v);
    RowLinear(s, before, last, x, xCount, v);
    assert Rows(s, d, y, yCount, x, xCount, v) == Row(s, before, last, x, xCount, v);
    NextPosition(s, Rows(s, d, y, yCount, x, xCount, v));
    hide Row, Rows, Next;
  }

  /** One token reports a change exactly if a cell got another value. */
  lemma TokenChanges<V, T>(s: Shape, c: Cell<V, T>, d: Dec<V>, t: Token<T>)
    requires |d.cells| == Cells(s)
    ensures DecodeOne(s, c, d, t).changed <==> d.changed || DecodeOne(s, c, d, t).cells != d.cells
  {
    if t.At? {
      var (y, n, x, xCount) := Rectangle(s, t.y, t.yCount, t.x);
      RowsChange(s, d, y, n, x, xCount, c.parse(t.text));
      NextPosition(s, Rows(s, d, y, n, x, xCount, c.parse(t.text)));
      hide Rows, Next;
    } else if Position(s, d) < Size(s) {
      DecodesPlain(s, c, d, t.text);
    } else {
      NextPosition(s, d);
    }
  }

  /** Every cell is as it was, or has the value of the token. */
  ghost predicate OldOr<V>(a: seq<V>, b: seq<V>, v: V) {
    |b| == |a| && forall k | 0 <= k < |a| :: b[k] == a[k] || b[k] == v
  }

  lemma RowChanges<V>(s: Shape, d: Dec<V>, y: nat, x: nat, xCount: Count, v: V)
    requires |d.cells| == Cells(s)
    ensures var r := Row(s, d, y, x, xCount, v);
            OldOr(d.cells, r.cells, v) && (r.changed <==> d.changed || r.cells != d.cells)
  {
    NormalPosition(s, d.(py := y, px := x));
    var d1 := Normal(s, d.(py := y, px := x));
    var pos := Position(s, d1);
    if pos < Size(s) {
      FillChanges(d.cells, pos, Cut(s, pos, xCount), v);
    }
  }

  lemma FillChanges<V>(cells: seq<V>, pos: nat, count: nat, v: V)
    requires pos + count <= |cells|
    ensures OldOr(cells, Fill(cells, pos, count, v), v)
    ensures Differs(cells, pos, count, v) <==> Fill(cells, pos, count, v) != cells
  {
    if Differs(cells, pos, count, v) {
      var k :| pos <= k < pos + count && cells[k] != v;
      assert Fill(cells, pos, count, v)[k] != cells[k];
    }
  }

  lemma {:induction false} RowsChange<V>(s: Shape, d: Dec<V>, y: nat, n: nat, x: nat, xCount: Count, v: V)
    requires |d.cells| == Cells(s)
    ensures var r := Rows(s, d, y, n, x, xCount, v);
            OldOr(d.cells, r.cells, v) && (r.changed <==> d.changed || r.cells != d.cells)
  {
    if n > 0 {
      RowsChange(s, d, y, n - 1, x, xCount, v);
      var r := Rows(s, d, y, n - 1, x, xCount, v);
      RowChanges(s, r, y + (n - 1), x, xCount, v);
      TwiceOldOr(d.cells, r.cells, Row(s, r, y + (n - 1), x, xCount, v).cells, v);
      hide Row, OldOr;
    }
  }

  lemma TwiceOldOr<V>(a: seq<V>, b: seq<V>, e: seq<V>, v: V)
    requires OldOr(a, b, v) && OldOr(b, e, v)
    ensures OldOr(a, e, v) && (e != a <==> e != b || b != a)
  {
    assert forall k | 0 <= k < |a| && b[k] != a[k] :: e[k] != a[k];
  }

  // ----- the default value -----

  /** Row `y` of a token begins inside the array and ends outside. */
  predicate RowRunsOver(s: Shape, y: nat, x: nat, xCount: Count) {
    y * s.x + x < Size(s) < y * s.x + x + xCount
  }

  /** Some row of the token does, or the run does; one in a single column never. */
  predicate RunsOver<T>(s: Shape, t: Token<T>) {
    t.At? &&
    match t.x
    case None => s.x > 1 && t.y < Size(s) < t.y + t.yCount
    case Some((x, xCount)) => SomeRunsOver(s, t.y, t.yCount, x, xCount)
  }

  lemma RunsOverIs<T>(s: Shape, t: Token<T>)
    requires t.At?
    ensures var (y, n, x, xCount) := Rectangle(s, t.y, t.yCount, t.x);
            RunsOver(s, t) == SomeRunsOver(s, y, n, x, xCount)
  {
    if t.x.None? && s.x > 1 {
      assert RowRunsOver(s, 0, t.y, t.yCount) <==> t.y < Size(s) < t.y + t.yCount;
    }
  }

  predicate SomeRunsOver(s: Shape, y: nat, n: nat, x: nat, xCount: Count) {
    exists row | y <= row < y + n :: RowRunsOver(s, row, x, xCount)
  }

  lemma RowDefault<V>(s: Shape, d: Dec<V>, y: nat, x: nat, xCount: Count, v: V)
    requires |d.cells| == Cells(s)
    ensures Row(s, d, y, x, xCount, v).cells[Size(s)] == if RowRunsOver(s, y, x, xCount) then v else d.cells[Size(s)]
  {
    NormalPosition(s, d.(py := y, px := x));
    assert y * s.x >= 0 by { if y > 0 { MulPositive(y, s.x); } }
  }

  lemma {:induction false} RowsDefault<V>(s: Shape, d: Dec<V>, y: nat, n: nat, x: nat, xCount: Count, v: V)
    requires |d.cells| == Cells(s)
    ensures Rows(s, d, y, n, x, xCount, v).cells[Size(s)] ==
            if SomeRunsOver(s, y, n, x, xCount) then v else d.cells[Size(s)]
  {
    if n > 0 {
      RowsDefault(s, d, y, n - 1, x, xCount, v);
      RowDefault(s, Rows(s, d, y, n - 1, x, xCount, v), y + (n - 1), x, xCount, v);
      OneRowMore(s, y, n - 1, x, xCount);
      hide Row, RowRunsOver, SomeRunsOver;
    }
  }

  lemma OneRowMore(s: Shape, y: nat, n: nat, x: nat, xCount: Count)
    ensures SomeRunsOver(s, y, n + 1, x, xCount) <==> SomeRunsOver(s, y, n, x, xCount) || RowRunsOver(s, y + n, x, xCount)
  {
    hide RowRunsOver;
  }

  /** A token overwrites the default value exactly if one of its rows begins inside the array
      and ends outside. */
  lemma DefaultWritten<V, T>(s: Shape, c: Cell<V, T>, d: Dec<V>, t: Token<T>)
    requires |d.cells| == Cells(s)
    ensures DecodeOne(s, c, d, t).cells[Size(s)] == if RunsOver(s, t) then c.parse(t.text) else d.cells[Size(s)]
  {
    if t.At? { RunsOverIs(s, t); }
    hide Rows, SomeRunsOver, Next, RunsOver;
    if t.At? {
      var (y, n, x, xCount) := Rectangle(s, t.y, t.yCount, t.x);
      RowsDefault(s, d, y, n, x, xCount, c.parse(t.text));
      NextPosition(s, Rows(s, d, y, n, x, xCount, c.parse(t.text)));
    } else if Position(s, d) < Size(s) {
      DecodesPlain(s, c, d, t.text);
    } else {
      NextPosition(s, d);
    }
  }

  /** What the default value becomes: the value of the last token that runs over. */
  function DefaultAfter<V, T>(s: Shape, c: Cell<V, T>, v: V, ts: seq<Token<T>>): V
    decreases |ts|
  {
    if ts == [] then v else DefaultAfter(s, c, if RunsOver(s, ts[0]) then c.parse(ts[0].text) else v, ts[1..])
  }

  lemma {:induction false} DecodesDefault<V, T>(s: Shape, c: Cell<V, T>, d: Dec<V>, ts: seq<Token<T>>)
    requires |d.cells| == Cells(s)
    ensures Decode(s, c, d, ts).cells[Size(s)] == DefaultAfter(s, c, d.cells[Size(s)], ts)
    decreases |ts|
  {
    if ts != [] {
      DefaultWritten(s, c, d, ts[0]);
      DecodesDefault(s, c, DecodeOne(s, c, d, ts[0]), ts[1..]);
    }
  }

  lemma {:induction false} DefaultStays<V, T>(s: Shape, c: Cell<V, T>, v: V, ts: seq<Token<T>>)
    requires forall t | t in ts :: !RunsOver(s, t)
    ensures DefaultAfter(s, c, v, ts) == v
    decreases |ts|
  {
    if ts != [] {
      assert ts[0] in ts;
      DefaultStays(s, c, v, ts[1..]);
    }
  }

  lemma {:induction false} DefaultForgotten<V, T>(s: Shape, c: Cell<V, T>, v: V, w: V, ts: seq<Token<T>>)
    requires exists t | t in ts :: RunsOver(s, t)
    ensures DefaultAfter(s, c, v, ts) == DefaultAfter(s, c, w, ts)
    decreases |ts|
  {
    if !RunsOver(s, ts[0]) {
      var t :| t in ts && RunsOver(s, t);
      assert t in ts[1..];
      DefaultForgotten(s, c, v, w, ts[1..]);
    }
  }

  /** A text leaves the default value as it is, whatever the array holds, exactly if none of
      its tokens runs over the end. */
  lemma DefaultKeptIff<V(!new), T>(s: Shape, c: Cell<V, T>, ts: seq<Token<T>>, v: V, w: V)
    requires v != w
    ensures (forall d: Dec<V> | |d.cells| == Cells(s) :: Decode(s, c, d, ts).cells[Size(s)] == d.cells[Size(s)])
            <==> forall t | t in ts :: !RunsOver(s, t)
  {
    hide Decode, RunsOver, DefaultAfter, Size;
    if exists t | t in ts :: RunsOver(s, t) {
      DefaultForgotten(s, c, v, w, ts);
      var u := if DefaultAfter(s, c, v, ts) == v then w else v;
      var d := Start(seq(Cells(s), _ => u));
      assert d.cells[Size(s)] == u;
      DecodesDefault(s, c, d, ts);
      assert Decode(s, c, d, ts).cells[Size(s)] != d.cells[Size(s)];
    } else {
      forall d: Dec<V> | |d.cells| == Cells(s) ensures Decode(s, c, d, ts).cells[Size(s)] == d.cells[Size(s)] {
        DecodesDefault(s, c, d, ts);
        DefaultStays(s, c, d.cells[Size(s)], ts);
      }
    }
  }
}
