/** Whole arrays as runs, changed cells as deltas: the encoders, the decoder in place, and
    what they restore. */
module ArrayDelta {
  import opened Basics
  import opened ArrayCodec

  // ----- decoding in place -----

  method SetValues<V(==)>(a: array<V>, pos: nat, count: nat, v: V) returns (changed: bool)
    requires pos + count <= a.Length
    modifies a
    ensures a[..] == Fill(old(a[..]), pos, count, v)
    ensures changed == Differs(old(a[..]), pos, count, v)
  {
    changed := false;
    for k := 0 to count
      invariant forall j | 0 <= j < a.Length :: a[j] == if pos <= j < pos + k then v else old(a[j])
      invariant changed <==> exists j | pos <= j < pos + k :: old(a[..])[j] != v
    {
      assert a[pos + k] == old(a[..])[pos + k];
      if a[pos + k] != v { changed := true; }
      a[pos + k] := v;
    }
    assert a[..] == Fill(old(a[..]), pos, count, v);
  }

  method SetVALUES<V(==), T>(s: Shape, c: Cell<V, T>, a: array<V>, items: seq<Token<T>>) returns (changed: bool)
    requires a.Length == Cells(s)
    modifies a
    ensures var d := Decode(s, c, Start(old(a[..])), items);
            a[..] == d.cells && changed == d.changed
  {
    changed := false;
    var py, px := 0, 0;
    for i := 0 to |items|
      invariant Decode(s, c, Start(old(a[..])), items) == Decode(s, c, Dec(a[..], py, px, changed), items[i..])
    {
      hide DecodeOne;
      DecodeUnfold(s, c, Dec(a[..], py, px, changed), items, i);
      changed, py, px := SetItem(s, c, a, items[i], changed, py, px);
    }
    assert items[|items|..] == [];
  }

  lemma DecodeUnfold<V, T>(s: Shape, c: Cell<V, T>, d: Dec<V>, items: seq<Token<T>>, i: nat)
    requires |d.cells| == Cells(s) && i < |items|
    ensures Decode(s, c, d, items[i..]) == Decode(s, c, DecodeOne(s, c, d, items[i]), items[i + 1..])
  {
    assert items[i..][0] == items[i] && items[i..][1..] == items[i + 1..];
  }

  method SetItem<V(==), T>(s: Shape, c: Cell<V, T>, a: array<V>, t: Token<T>, changed0: bool, py0: nat, px0: nat)
    returns (changed: bool, py: nat, px: nat)
    requires a.Length == Cells(s)
    modifies a
    ensures DecodeOne(s, c, Dec(old(a[..]), py0, px0, changed0), t) == Dec(a[..], py, px, changed)
  {
    changed, py, px := changed0, py0, px0;
    ghost var d0 := Dec(a[..], py, px, changed);
    match t {
      case Plain(text) =>
        var pos := Position(s, Dec(a[..], py, px, changed));
        if pos < Size(s) {
          var ch := SetValues(a, pos, 1, c.parse(text));
          FillOne(d0.cells, pos, c.parse(text));
          if ch { changed := true; }
        }
      case At(y, yCount, x, text) =>
        var (y1, yCount1, x1, xCount1) := Rectangle(s, y, yCount, x);
        for k := 0 to yCount1
          invariant Rows(s, d0, y1, k, x1, xCount1, c.parse(text)) == Dec(a[..], py, px, changed)
        {
          hide Row;
          changed, py, px := SetRow(s, a, y1 + k, x1, xCount1, c.parse(text), changed, py, px);
        }
    }
    var d := Next(s, Dec(a[..], py, px, changed));
    py, px := d.py, d.px;
  }

  lemma FillOne<V>(cells: seq<V>, pos: nat, v: V)
    requires pos < |cells|
    ensures Fill(cells, pos, 1, v) == cells[pos := v]
    ensures Differs(cells, pos, 1, v) <==> cells[pos] != v
  {
  }

  method SetRow<V(==)>(s: Shape, a: array<V>, y: nat, x: nat, xCount: Count, v: V, changed0: bool, ghost py0: nat, ghost px0: nat)
    returns (changed: bool, py: nat, px: nat)
    requires a.Length == Cells(s)
    modifies a
    ensures Row(s, Dec(old(a[..]), py0, px0, changed0), y, x, xCount, v) == Dec(a[..], py, px, changed)
  {
    changed := changed0;
    py, px := y, x;
    if px >= s.x { py, px := py + px / s.x, px % s.x; }
    var pos := Position(s, Dec(a[..], py, px, changed));
    if pos < Size(s) {
      var cnt := xCount;
      if pos + (cnt - 1) >= Size(s) { cnt := (Size(s) - pos) + 1; }
      var ch := SetValues(a, pos, cnt, v);
      if ch { changed := true; }
      px := px + (cnt - 1);
    }
  }

  // ----- the delta -----

  /** No listed index means all. */
  predicate Used(fields: seq<nat>, i: nat) { fields == [] || i in fields }

  const NO_INDEX: nat := 0xffff

  function DeltaToken<T>(text: T, i: nat, last: nat): Token<T> {
    if last + 1 == i then Plain(text) else At(i, 1, None, text)
  }

  /** The tokens for the used cells from `i` on, when the one before was `last`. */
  function DeltaFrom<V, T>(c: Cell<V, T>, cells: seq<V>, fields: seq<nat>, i: nat, last: nat): seq<Token<T>>
    decreases |cells| - i
  {
    if i >= |cells| then []
    else if Used(fields, i) then [DeltaToken(c.format(cells[i]), i, last)] + DeltaFrom(c, cells, fields, i + 1, i)
    else DeltaFrom(c, cells, fields, i + 1, last)
  }

  function Delta<V, T>(c: Cell<V, T>, cells: seq<V>, fields: seq<nat>): seq<Token<T>> {
    DeltaFrom(c, cells, fields, 0, NO_INDEX)
  }

  method GetDelta<V, T>(s: Shape, c: Cell<V, T>, cells: seq<V>, fields: seq<nat>) returns (items: seq<Token<T>>)
    requires |cells| == Cells(s)
    ensures items == Delta(c, cells[..Size(s)], fields)
  {
    items := [];
    var last: nat := NO_INDEX;
    for i := 0 to Size(s)
      invariant items + DeltaFrom(c, cells[..Size(s)], fields, i, last) == Delta(c, cells[..Size(s)], fields)
    {
      var use := false;
      if |fields| > 0 {
        var k := 0;
        while k < |fields| && !use
          invariant k <= |fields| && (use <==> i in fields[..k])
        {
          assert fields[..k + 1] == fields[..k] + [fields[k]];
          if fields[k] == i { use := true; }
          k := k + 1;
        }
        assert use <==> i in fields by {
          if use { assert fields[..k] <= fields; } else { assert fields[..k] == fields; }
        }
      } else {
        use := true;
      }
      if use {
        items := items + [DeltaToken(c.format(cells[i]), i, last)];
        last := i;
      }
    }
  }

  /** What the receiver should have: the used cells as sent, the others as they were, and so
      the default value. */
  function Patched<V>(old_: seq<V>, new_: seq<V>, fields: seq<nat>, from: nat): (r: seq<V>)
    requires |old_| == |new_| + 1
    ensures |r| == |old_|
  {
    seq(|old_|, k requires 0 <= k < |old_| => if from <= k < |new_| && Used(fields, k) then new_[k] else old_[k])
  }

  ghost predicate Faithful<V, T>(c: Cell<V, T>, cells: seq<V>) {
    forall k | 0 <= k < |cells| :: c.parse(c.format(cells[k])) == cells[k]
  }

  /** `first` is the first used index from `i` on. */
  predicate FirstUsed(fields: seq<nat>, i: nat, n: nat, first: nat) {
    i <= first < n && Used(fields, first) && forall k | i <= k < first :: !Used(fields, k)
  }

  predicate AnyChange<V(==)>(old_: seq<V>, new_: seq<V>, fields: seq<nat>, from: nat)
    requires |old_| == |new_| + 1
  {
    exists k | from <= k < |new_| :: Used(fields, k) && old_[k] != new_[k]
  }

  /** The cursor is where the next cell without an index would be understood to be. */
  lemma {:induction false} DeltaDecodes<V, T>(s: Shape, c: Cell<V, T>, d: Dec<V>, new_: seq<V>, fields: seq<nat>, i: nat, last: nat)
    requires |d.cells| == Cells(s) && |new_| == Size(s) && i <= |new_| && Faithful(c, new_)
    requires Position(s, d) == last + 1 || !FirstUsed(fields, i, |new_|, last + 1)
    requires last < i || last == NO_INDEX
    ensures var r := Decode(s, c, d, DeltaFrom(c, new_, fields, i, last));
            && r.cells == Patched(d.cells, new_, fields, i)
            && (r.changed <==> d.changed || AnyChange(d.cells, new_, fields, i))
    decreases |new_| - i
  {
    hide *;
    CellsSize(s);
    if i == |new_| {
      NothingPatched(s, c, d, new_, fields, last);
    } else if !Used(fields, i) {
      SkipsUnused(c, d.cells, new_, fields, i, last);
      DeltaDecodes(s, c, d, new_, fields, i + 1, last);
    } else {
      OwnFirst(fields, i, |new_|);
      var d1 := DeltaStep(s, c, d, new_, fields, i, last);
      DeltaDecodes(s, c, d1, new_, fields, i + 1, i);
      PatchedOneMore(d.cells, new_, fields, i, d1.cells);
      DeltaUnfold(c, new_, fields, i, last);
      DecodeCons(s, c, d, DeltaToken(c.format(new_[i]), i, last), DeltaFrom(c, new_, fields, i + 1, i));
    }
  }

  lemma OwnFirst(fields: seq<nat>, i: nat, n: nat)
    requires i < n && Used(fields, i)
    ensures FirstUsed(fields, i, n, i)
  {
  }

  lemma DeltaUnfold<V, T>(c: Cell<V, T>, new_: seq<V>, fields: seq<nat>, i: nat, last: nat)
    requires i < |new_| && Used(fields, i)
    ensures DeltaFrom(c, new_, fields, i, last) == [DeltaToken(c.format(new_[i]), i, last)] + DeltaFrom(c, new_, fields, i + 1, i)
  {
  }

  lemma NothingPatched<V, T>(s: Shape, c: Cell<V, T>, d: Dec<V>, new_: seq<V>, fields: seq<nat>, last: nat)
    requires |d.cells| == Cells(s) && |d.cells| == |new_| + 1
    ensures Decode(s, c, d, DeltaFrom(c, new_, fields, |new_|, last)) == d
    ensures Patched(d.cells, new_, fields, |new_|) == d.cells && !AnyChange(d.cells, new_, fields, |new_|)
  {
  }

  lemma SkipsUnused<V, T>(c: Cell<V, T>, old_: seq<V>, new_: seq<V>, fields: seq<nat>, i: nat, last: nat)
    requires |old_| == |new_| + 1 && i < |new_| && !Used(fields, i)
    ensures DeltaFrom(c, new_, fields, i, last) == DeltaFrom(c, new_, fields, i + 1, last)
    ensures Patched(old_, new_, fields, i) == Patched(old_, new_, fields, i + 1)
    ensures AnyChange(old_, new_, fields, i) <==> AnyChange(old_, new_, fields, i + 1)
    ensures FirstUsed(fields, i + 1, |new_|, last + 1) ==> FirstUsed(fields, i, |new_|, last + 1)
  {
  }

  lemma PatchedOneMore<V>(old_: seq<V>, new_: seq<V>, fields: seq<nat>, i: nat, old1: seq<V>)
    requires |old_| == |new_| + 1 && i < |new_| && Used(fields, i) && old1 == old_[i := new_[i]]
    ensures Patched(old_, new_, fields, i) == Patched(old1, new_, fields, i + 1)
    ensures AnyChange(old_, new_, fields, i) <==> old_[i] != new_[i] || AnyChange(old1, new_, fields, i + 1)
  {
  }

  lemma DeltaStep<V, T>(s: Shape, c: Cell<V, T>, d: Dec<V>, new_: seq<V>, fields: seq<nat>, i: nat, last: nat) returns (d1: Dec<V>)
    requires |d.cells| == Cells(s) && |new_| == Size(s) && i < |new_| && Faithful(c, new_) && Used(fields, i)
    requires last + 1 == i ==> Position(s, d) == i
    ensures DecodeOne(s, c, d, DeltaToken(c.format(new_[i]), i, last)) == d1
    ensures |d1.cells| == |d.cells| && d1.cells == d.cells[i := new_[i]] && Position(s, d1) == i + 1
    ensures d1.changed == (d.changed || d.cells[i] != new_[i])
  {
    if last + 1 == i {
      DecodesPlain(s, c, d, c.format(new_[i]));
    } else {
      DecodesLinear(s, c, d, i, 1, c.format(new_[i]));
      FillOne(d.cells, i, new_[i]);
    }
    d1 := DecodeOne(s, c, d, DeltaToken(c.format(new_[i]), i, last));
  }

  // ----- what the delta restores -----

  /** A delta puts the listed cells in place and touches no other, whatever was there: for
      every pair of values exactly when the first listed index is not the one that follows
      the mark for "none so far". */
  lemma DeltaRestoresIff<V(!new), T>(s: Shape, c: Cell<V, T>, fields: seq<nat>, v: V, w: V)
    requires v != w && Faithful(c, [v, w])
    ensures (forall old_: seq<V>, new_: seq<V> | |old_| == Cells(s) && |new_| == Size(s) && Faithful(c, new_) ::
               Restores(s, c, old_, new_, fields))
            <==> !FirstUsed(fields, 0, Size(s), NO_INDEX + 1)
  {
    if FirstUsed(fields, 0, Size(s), NO_INDEX + 1) {
      var old_, new_ := seq(Cells(s), _ => v), seq(Size(s), _ => w);
      assert c.parse(c.format([v, w][1])) == w;
      assert Faithful(c, new_);
      DeltaMisplaced(s, c, old_, new_, fields, w);
      assert !Restores(s, c, old_, new_, fields);
    } else {
      forall old_: seq<V>, new_: seq<V> | |old_| == Cells(s) && |new_| == Size(s) && Faithful(c, new_)
        ensures Restores(s, c, old_, new_, fields)
      {
        DeltaDecodes(s, c, Start(old_), new_, fields, 0, NO_INDEX);
      }
    }
  }

  predicate Restores<V(==), T>(s: Shape, c: Cell<V, T>, old_: seq<V>, new_: seq<V>, fields: seq<nat>)
    requires |old_| == Cells(s) && |new_| == Size(s)
  {
    Decode(s, c, Start(old_), Delta(c, new_, fields)).cells == Patched(old_, new_, fields, 0)
  }

  /** Otherwise the first value sent lands in the first cell. */
  lemma DeltaMisplaced<V, T>(s: Shape, c: Cell<V, T>, old_: seq<V>, new_: seq<V>, fields: seq<nat>, w: V)
    requires |old_| == Cells(s) && |new_| == Size(s) && FirstUsed(fields, 0, Size(s), NO_INDEX + 1)
    requires c.parse(c.format(w)) == w && forall k | 0 <= k < |new_| :: new_[k] == w
    ensures Decode(s, c, Start(old_), Delta(c, new_, fields)).cells[0] == w
  {
    SkipUnused(c, new_, fields, 0, NO_INDEX + 1, NO_INDEX);
    var rest := DeltaFrom(c, new_, fields, NO_INDEX + 2, NO_INDEX + 1);
    var t := Plain(c.format(w));
    assert Delta(c, new_, fields) == [t] + rest;
    DecodesPlain(s, c, Start(old_), c.format(w));
    var d := DecodeOne(s, c, Start(old_), t);
    assert ([t] + rest)[1..] == rest;
    AllTexts(c, new_, fields, NO_INDEX + 2, NO_INDEX + 1, w);
    StaysAt(s, c, d, rest, 0, w);
  }

  lemma {:induction false} SkipUnused<V, T>(c: Cell<V, T>, cells: seq<V>, fields: seq<nat>, i: nat, j: nat, last: nat)
    requires i <= j <= |cells| && forall k | i <= k < j :: !Used(fields, k)
    ensures DeltaFrom(c, cells, fields, i, last) == DeltaFrom(c, cells, fields, j, last)
    decreases j - i
  {
    if i < j {
      SkipUnused(c, cells, fields, i + 1, j, last);
    }
  }

  lemma {:induction false} AllTexts<V, T>(c: Cell<V, T>, cells: seq<V>, fields: seq<nat>, i: nat, last: nat, w: V)
    requires forall k | 0 <= k < |cells| :: cells[k] == w
    ensures forall k | 0 <= k < |DeltaFrom(c, cells, fields, i, last)| :: DeltaFrom(c, cells, fields, i, last)[k].text == c.format(w)
    decreases |cells| - i
  {
    if i < |cells| {
      AllTexts(c, cells, fields, i + 1, if Used(fields, i) then i else last, w);
    }
  }

  lemma {:induction false} StaysAt<V, T>(s: Shape, c: Cell<V, T>, d: Dec<V>, ts: seq<Token<T>>, k: nat, w: V)
    requires |d.cells| == Cells(s) && k < |d.cells| && d.cells[k] == w
    requires forall j | 0 <= j < |ts| :: c.parse(ts[j].text) == w
    ensures Decode(s, c, d, ts).cells[k] == w
    decreases |ts|
  {
    if ts != [] {
      StaysOne(s, c, d, ts[0], k, w);
      StaysAt(s, c, DecodeOne(s, c, d, ts[0]), ts[1..], k, w);
    }
  }

  lemma StaysOne<V, T>(s: Shape, c: Cell<V, T>, d: Dec<V>, t: Token<T>, k: nat, w: V)
    requires |d.cells| == Cells(s) && k < |d.cells| && d.cells[k] == w && c.parse(t.text) == w
    ensures DecodeOne(s, c, d, t).cells[k] == w
  {
    if t.At? {
      var (y1, yCount1, x1, xCount1) := Rectangle(s, t.y, t.yCount, t.x);
      StaysRows(s, d, y1, yCount1, x1, xCount1, k, w);
    }
  }

  lemma {:induction false} StaysRows<V>(s: Shape, d: Dec<V>, y: nat, n: nat, x: nat, xCount: Count, k: nat, w: V)
    requires |d.cells| == Cells(s) && k < |d.cells| && d.cells[k] == w
    ensures Rows(s, d, y, n, x, xCount, w).cells[k] == w
  {
    if n > 0 {
      StaysRows(s, d, y, n - 1, x, xCount, k, w);
    }
  }

  // ----- finding the differences -----

  /** The indexes among `candidates` at which the two differ. */
  function DiffOf<V(==)>(a: seq<V>, b: seq<V>, candidates: seq<nat>): seq<nat>
    requires |a| == |b|
  {
    if candidates == [] then [] else
      var k := candidates[|candidates| - 1];
      DiffOf(a, b, candidates[..|candidates| - 1]) + if k < |a| && a[k] != b[k] then [k] else []
  }

  function Upto(n: nat): (r: seq<nat>)
    ensures |r| == n && forall k | 0 <= k < n :: r[k] == k
  {
    seq(n, k => k)
  }

  lemma {:induction false} DiffOfContains<V>(a: seq<V>, b: seq<V>, candidates: seq<nat>, k: nat)
    requires |a| == |b|
    ensures k in DiffOf(a, b, candidates) <==> k in candidates && k < |a| && a[k] != b[k]
  {
    if candidates != [] {
      var last := |candidates| - 1;
      DiffOfContains(a, b, candidates[..last], k);
      assert k in candidates <==> k in candidates[..last] || k == candidates[last];
    }
  }

  /** Compares all cells, or the listed ones; lists those that differ. The default value does
      not count. */
  method DiffFields<V(==)>(s: Shape, a: seq<V>, b: seq<V>, fields: seq<nat>) returns (differs: bool, fields1: seq<nat>)
    requires |a| == |b| == Cells(s)
    ensures fields1 == DiffOf(a[..Size(s)], b[..Size(s)], if fields == [] then Upto(Size(s)) else fields)
    ensures differs <==> fields1 != []
  {
    fields1, differs := [], false;
    ghost var x, y, all := a[..Size(s)], b[..Size(s)], Upto(Size(s));
    DiffStarts(x, y, fields);
    DiffStarts(x, y, all);
    if |fields| > 0 {
      for i := 0 to |fields|
        invariant fields1 == DiffOf(x, y, fields[..i]) && (differs <==> fields1 != [])
      {
        DiffStep(x, y, fields, i);
        hide DiffOf;
        if fields[i] < Size(s) && a[fields[i]] != b[fields[i]] {
          differs := true;
          fields1 := fields1 + [fields[i]];
        }
      }
    } else {
      for i := 0 to Size(s)
        invariant fields1 == DiffOf(x, y, all[..i]) && (differs <==> fields1 != [])
      {
        DiffStep(x, y, all, i);
        hide DiffOf;
        if a[i] != b[i] {
          differs := true;
          fields1 := fields1 + [i];
        }
      }
    }
  }

  lemma DiffStarts<V>(a: seq<V>, b: seq<V>, candidates: seq<nat>)
    requires |a| == |b|
    ensures DiffOf(a, b, candidates[..0]) == [] && candidates[..|candidates|] == candidates
  {
  }

  lemma DiffStep<V>(a: seq<V>, b: seq<V>, candidates: seq<nat>, i: nat)
    requires |a| == |b| && i < |candidates|
    ensures var k := candidates[i];
            DiffOf(a, b, candidates[..i + 1]) == DiffOf(a, b, candidates[..i]) + if k < |a| && a[k] != b[k] then [k] else []
  {
    assert candidates[..i + 1][..i] == candidates[..i];
  }

  /** The listed cells are copied, or all, but not the default value. */
  method CopyIndexes<V>(s: Shape, a: array<V>, b: seq<V>, fields: seq<nat>)
    requires a.Length == |b| == Cells(s)
    modifies a
    ensures a[..] == Patched(old(a[..]), b[..Size(s)], fields, 0)
  {
    if |fields| > 0 {
      for i := 0 to |fields|
        invariant forall k | 0 <= k < a.Length :: a[k] == if k < Size(s) && k in fields[..i] then b[k] else old(a[k])
      {
        assert fields[..i + 1] == fields[..i] + [fields[i]];
        if fields[i] < Size(s) { a[fields[i]] := b[fields[i]]; }
      }
      assert fields[..|fields|] == fields;
    } else {
      for i := 0 to Size(s)
        invariant forall k | 0 <= k < a.Length :: a[k] == if k < i then b[k] else old(a[k])
      {
        a[i] := b[i];
      }
    }
  }

  /** The sender finds the differences from what the receiver has and sends these cells: the
      receiver then has what the sender has, and knows that something changed. Up to 65536
      cells this holds always. Default values are not sent. */
  lemma SyncByDelta<V, T>(s: Shape, c: Cell<V, T>, old_: seq<V>, new_: seq<V>)
    requires |old_| == Cells(s) && |new_| == Size(s) && Faithful(c, new_) && old_[..Size(s)] != new_
    requires !FirstUsed(DiffOf(new_, old_[..Size(s)], Upto(|new_|)), 0, |new_|, NO_INDEX + 1) || |new_| <= NO_INDEX + 1
    ensures var fields := DiffOf(new_, old_[..Size(s)], Upto(|new_|));
            var r := Decode(s, c, Start(old_), Delta(c, new_, fields));
            fields != [] && r.cells == new_ + [old_[Size(s)]] && r.changed
  {
    var fields := Differences(new_, old_[..Size(s)]);
    DeltaDecodes(s, c, Start(old_), new_, fields, 0, NO_INDEX);
    AllPatched(old_, new_, fields);
    hide Decode, DeltaFrom, DiffOf, Patched, AnyChange, FirstUsed;
  }

  lemma Differences<V>(a: seq<V>, b: seq<V>) returns (fields: seq<nat>)
    requires |a| == |b| && a != b
    ensures fields == DiffOf(a, b, Upto(|a|)) != []
    ensures forall k | 0 <= k < |a| :: k in fields <==> a[k] != b[k]
  {
    fields := DiffOf(a, b, Upto(|a|));
    forall k | 0 <= k < |a| ensures k in fields <==> a[k] != b[k] {
      DiffOfContains(a, b, Upto(|a|), k);
      assert Upto(|a|)[k] == k;
    }
    var k :| 0 <= k < |a| && a[k] != b[k];
    assert k in fields;
  }

  lemma AllPatched<V>(old_: seq<V>, new_: seq<V>, fields: seq<nat>)
    requires |old_| == |new_| + 1 && old_[..|new_|] != new_ && fields != []
    requires forall k | 0 <= k < |new_| :: k in fields <==> new_[k] != old_[..|new_|][k]
    ensures Patched(old_, new_, fields, 0) == new_ + [old_[|new_|]] && AnyChange(old_, new_, fields, 0)
  {
    var k :| 0 <= k < |new_| && new_[k] != old_[..|new_|][k];
    assert k in fields;
  }

  // ----- runs -----

  /** How many cells behind `i` are written the same. */
  function SameBehind<V, T(==)>(c: Cell<V, T>, cells: seq<V>, i: nat, j: nat): (n: nat)
    requires i < j <= |cells|
    ensures j + n <= |cells|
    ensures forall k | j <= k < j + n :: c.format(cells[k]) == c.format(cells[i])
    decreases |cells| - j
  {
    if j < |cells| && c.format(cells[j]) == c.format(cells[i]) then 1 + SameBehind(c, cells, i, j + 1) else 0
  }

  function RunsFrom<V, T(==)>(c: Cell<V, T>, cells: seq<V>, i: nat): seq<Token<T>>
    decreases |cells| - i
  {
    if i >= |cells| then [] else
      var n := SameBehind(c, cells, i, i + 1);
      if n > 1 then [At(i, n + 1, None, c.format(cells[i]))] + RunsFrom(c, cells, i + n + 1)
      else [Plain(c.format(cells[i]))] + RunsFrom(c, cells, i + 1)
  }

  method GetRuns<V, T(==)>(s: Shape, c: Cell<V, T>, cells: seq<V>) returns (items: seq<Token<T>>)
    requires |cells| == Cells(s)
    ensures items == RunsFrom(c, cells[..Size(s)], 0)
  {
    items := [];
    var values := cells[..Size(s)];
    var i := 0;
    while i < Size(s)
      invariant i <= |values| && items + RunsFrom(c, values, i) == RunsFrom(c, values, 0)
    {
      var same := CountSame(c, values, i);
      RunsUnfold(c, values, i);
      hide RunsFrom, SameBehind;
      if same > 1 {
        items := items + [At(i, same + 1, None, c.format(cells[i]))];
        i := i + same + 1;
      } else {
        items := items + [Plain(c.format(cells[i]))];
        i := i + 1;
      }
    }
  }

  method CountSame<V, T(==)>(c: Cell<V, T>, cells: seq<V>, i: nat) returns (same: nat)
    requires i < |cells|
    ensures same == SameBehind(c, cells, i, i + 1)
  {
    same := 0;
    var different, j := false, i + 1;
    while j < |cells| && !different
      invariant i < j <= |cells|
      invariant different ==> same == SameBehind(c, cells, i, i + 1)
      invariant !different ==> same + SameBehind(c, cells, i, j) == SameBehind(c, cells, i, i + 1)
    {
      if c.format(cells[i]) == c.format(cells[j]) { same := same + 1; } else { different := true; }
      j := j + 1;
    }
  }

  function RunToken<V, T(==)>(c: Cell<V, T>, cells: seq<V>, i: nat): (Token<T>, Count)
    requires i < |cells|
  {
    var n := SameBehind(c, cells, i, i + 1);
    if n > 1 then (At(i, n + 1, None, c.format(cells[i])), n + 1) else (Plain(c.format(cells[i])), 1)
  }

  lemma RunsUnfold<V, T>(c: Cell<V, T>, cells: seq<V>, i: nat)
    requires i < |cells|
    ensures var (t, size) := RunToken(c, cells, i);
            i + size <= |cells| && forall items :: items + RunsFrom(c, cells, i) == (items + [t]) + RunsFrom(c, cells, i + size)
  {
  }

  lemma RunRange<V, T>(c: Cell<V, T>, new_: seq<V>, i: nat)
    requires i < |new_| && Faithful(c, new_)
    ensures var (t, size) := RunToken(c, new_, i);
            && i + size <= |new_| && RunsFrom(c, new_, i) == [t] + RunsFrom(c, new_, i + size)
            && t == (if size > 1 then At(i, size, None, c.format(new_[i])) else Plain(c.format(new_[i])))
            && forall k | i <= k < i + size :: new_[k] == c.parse(c.format(new_[i]))
  {
    var size := RunToken(c, new_, i).1;
    forall k | i <= k < i + size ensures new_[k] == c.parse(c.format(new_[i])) {
      assert c.parse(c.format(new_[k])) == new_[k];
    }
  }

  lemma FillRange<V>(cells: seq<V>, new_: seq<V>, i: nat, n: nat, v: V)
    requires |cells| >= |new_| >= i + n && forall k | i <= k < i + n :: new_[k] == v
    ensures Fill(cells, i, n, v) == cells[..i] + new_[i..i + n] + cells[i + n..]
  {
  }

  lemma RunStep<V, T>(s: Shape, c: Cell<V, T>, d: Dec<V>, new_: seq<V>, i: nat)
    requires |d.cells| == Cells(s) && |new_| == Size(s) && i < |new_| && Faithful(c, new_) && Position(s, d) == i
    ensures var (t, size) := RunToken(c, new_, i);
            var r := DecodeOne(s, c, d, t);
            && i + size <= |new_| && RunsFrom(c, new_, i) == [t] + RunsFrom(c, new_, i + size)
            && Position(s, r) == i + size
            && r.cells == d.cells[..i] + new_[i..i + size] + d.cells[i + size..]
  {
    hide *;
    RunRange(c, new_, i);
    CellsSize(s);
    var size := RunToken(c, new_, i).1;
    var v := c.parse(c.format(new_[i]));
    FillRange(d.cells, new_, i, size, v);
    if size > 1 {
      DecodesLinear(s, c, d, i, size, c.format(new_[i]));
    } else {
      DecodesPlain(s, c, d, c.format(new_[i]));
      FillOne(d.cells, i, v);
    }
  }

  lemma CellsSize(s: Shape)
    ensures Cells(s) == Size(s) + 1
  {
  }

  /** The cursor always stands at the cell the encoder stands at. */
  lemma {:induction false} RunsDecode<V, T>(s: Shape, c: Cell<V, T>, d: Dec<V>, new_: seq<V>, i: nat)
    requires |d.cells| == Cells(s) && |new_| == Size(s) && i <= |new_| && Faithful(c, new_) && Position(s, d) == i
    ensures Decode(s, c, d, RunsFrom(c, new_, i)).cells == d.cells[..i] + new_[i..] + d.cells[|new_|..]
    decreases |new_| - i
  {
    hide *;
    CellsSize(s);
    if i == |new_| {
      assert d.cells[..i] + new_[i..] + d.cells[i..] == d.cells;
      NothingDecodes(s, c, d, new_);
    } else {
      RunStep(s, c, d, new_, i);
      var (t, size) := RunToken(c, new_, i);
      var d1 := DecodeOne(s, c, d, t);
      RunsDecode(s, c, d1, new_, i + size);
      DecodeCons(s, c, d, t, RunsFrom(c, new_, i + size));
      Joined(d.cells, new_, i, size, d1.cells);
    }
  }

  lemma NothingDecodes<V, T>(s: Shape, c: Cell<V, T>, d: Dec<V>, new_: seq<V>)
    requires |d.cells| == Cells(s)
    ensures Decode(s, c, d, RunsFrom(c, new_, |new_|)) == d
  {
  }

  lemma DecodeCons<V, T>(s: Shape, c: Cell<V, T>, d: Dec<V>, t: Token<T>, rest: seq<Token<T>>)
    requires |d.cells| == Cells(s)
    ensures Decode(s, c, d, [t] + rest) == Decode(s, c, DecodeOne(s, c, d, t), rest)
  {
    assert ([t] + rest)[0] == t && ([t] + rest)[1..] == rest;
  }

  lemma Joined<V>(a: seq<V>, b: seq<V>, i: nat, n: nat, a1: seq<V>)
    requires |a| >= |b| >= i + n && a1 == a[..i] + b[i..i + n] + a[i + n..]
    ensures a1[..i + n] + b[i + n..] + a1[|b|..] == a[..i] + b[i..] + a[|b|..]
  {
    assert a1[..i + n] == a[..i] + b[i..i + n];
    assert a1[|b|..] == a[|b|..];
    assert b[i..] == b[i..i + n] + b[i + n..];
  }

  /** A whole array is restored in every shape, whatever was there before; the default value
      stays. */
  lemma RunsRestore<V, T>(s: Shape, c: Cell<V, T>, old_: seq<V>, new_: seq<V>)
    requires |old_| == Cells(s) && |new_| == Size(s) && Faithful(c, new_)
    ensures Decode(s, c, Start(old_), RunsFrom(c, new_, 0)).cells == new_ + [old_[Size(s)]]
  {
    RunsDecode(s, c, Start(old_), new_, 0);
    assert old_[..0] + new_[0..] + old_[|new_|..] == new_ + [old_[Size(s)]];
  }
}
