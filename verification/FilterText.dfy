/** Filters as they are written into messages and read back: the name, and in brackets rows
    of indexes. */
module FilterText {
  import opened FiltersSet
  import opened FilterSync

  type Index = n: nat | n < 0x1_0000

  type Rows = seq<seq<Index>>

  // ----- splitting and joining -----

  function Cut(s: string, c: char): (r: seq<string>)
    ensures r != []
  {
    if s == "" then [""]
    else if s[0] == c then [""] + Cut(s[1..], c)
    else
      var r := Cut(s[1..], c);
      [[s[0]] + r[0]] + r[1..]
  }

  /** An empty text has no parts. */
  function Split(s: string, c: char): seq<string> {
    if s == "" then [] else Cut(s, c)
  }

  function Join(parts: seq<string>, c: char): string {
    if parts == [] then "" else if |parts| == 1 then parts[0] else parts[0] + [c] + Join(parts[1..], c)
  }

  lemma {:induction false} CutBefore(a: string, c: char, b: string)
    requires c !in a
    ensures Cut(a, c) == [a] && Cut(a + [c] + b, c) == [a] + Cut(b, c)
  {
    if a == "" {
      assert ("" + [c] + b)[1..] == b;
    } else {
      CutBefore(a[1..], c, b);
      assert (a + [c] + b)[1..] == a[1..] + [c] + b;
      assert [a[0]] + a[1..] == a;
    }
  }

  lemma {:induction false} CutJoin(parts: seq<string>, c: char)
    requires parts != [] && forall k | 0 <= k < |parts| :: c !in parts[k]
    ensures Cut(Join(parts, c), c) == parts
  {
    if |parts| == 1 {
      CutBefore(parts[0], c, "");
    } else {
      CutBefore(parts[0], c, Join(parts[1..], c));
      CutJoin(parts[1..], c);
    }
  }

  lemma {:induction false} JoinHas(parts: seq<string>, c: char, x: char)
    requires x != c && forall k | 0 <= k < |parts| :: x !in parts[k]
    ensures x !in Join(parts, c)
  {
    if |parts| > 1 {
      JoinHas(parts[1..], c, x);
    }
  }

  // ----- numbers -----

  predicate AllDigits(s: string) { forall k | 0 <= k < |s| :: '0' <= s[k] <= '9' }

  function Decimal(n: nat): (s: string)
    ensures s != "" && AllDigits(s)
  {
    if n < 10 then ['0' + n as char] else Decimal(n / 10) + ['0' + (n % 10) as char]
  }

  function Value(s: string): nat
    requires AllDigits(s)
  {
    if s == "" then 0 else Value(s[..|s| - 1]) * 10 + s[|s| - 1] as nat - '0' as nat
  }

  lemma {:induction false} ValueDecimal(n: nat)
    ensures Value(Decimal(n)) == n
  {
    if n < 10 {
      assert Decimal(n)[..0] == "";
    } else {
      ValueDecimal(n / 10);
      assert Decimal(n)[..|Decimal(n)| - 1] == Decimal(n / 10);
    }
  }

  /** How a text that is not a decimal number is read. */
  type Other = string -> Index

  function ReadNumber(s: string, other: Other): Index {
    if s != "" && AllDigits(s) then Value(s) % 0x1_0000 else other(s)
  }

  // ----- rows of indexes -----

  function Decimals(row: seq<Index>): (parts: seq<string>)
    ensures |parts| == |row| && forall k | 0 <= k < |row| :: parts[k] == Decimal(row[k])
  {
    seq(|row|, k requires 0 <= k < |row| => Decimal(row[k]))
  }

  function WriteRow(row: seq<Index>): string { Join(Decimals(row), ',') }

  function RowTexts(rows: Rows): (parts: seq<string>)
    ensures |parts| == |rows| && forall k | 0 <= k < |rows| :: parts[k] == WriteRow(rows[k])
  {
    seq(|rows|, k requires 0 <= k < |rows| => WriteRow(rows[k]))
  }

  function WriteRows(rows: Rows): string { Join(RowTexts(rows), '/') }

  function ReadRow(parts: seq<string>, other: Other): seq<Index> {
    seq(|parts|, k requires 0 <= k < |parts| => ReadNumber(parts[k], other))
  }

  /** Empty rows are dropped. */
  function ReadRows(parts: seq<string>, other: Other): Rows {
    if parts == [] then [] else
      var row := ReadRow(Split(parts[0], ','), other);
      (if row == [] then [] else [row]) + ReadRows(parts[1..], other)
  }

  lemma DecimalsLack(row: seq<Index>, x: char)
    requires !('0' <= x <= '9') && x != ','
    ensures x !in WriteRow(row)
  {
    JoinHas(Decimals(row), ',', x);
  }

  lemma DecimalsRead(row: seq<Index>, other: Other)
    ensures ReadRow(Decimals(row), other) == row
  {
    forall k | 0 <= k < |row| ensures ReadNumber(Decimals(row)[k], other) == row[k] {
      ValueDecimal(row[k]);
    }
  }

  lemma RowReads(row: seq<Index>, other: Other)
    ensures ReadRow(Split(WriteRow(row), ','), other) == row
    ensures WriteRow(row) == "" <==> row == []
  {
    DecimalsRead(row, other);
    hide Decimal, ReadNumber;
    if row != [] {
      CutJoin(Decimals(row), ',');
      assert Decimals(row)[0] != "";
    }
  }

  lemma {:induction false} TextsRead(rows: Rows, other: Other)
    ensures ReadRows(RowTexts(rows), other) == Full(rows)
  {
    if rows != [] {
      RowReads(rows[0], other);
      TextsRead(rows[1..], other);
      assert RowTexts(rows)[1..] == RowTexts(rows[1..]);
      hide WriteRow, ReadRow, Split;
    }
  }

  /** The rows that are not empty. */
  function Full(rows: Rows): Rows {
    if rows == [] then [] else (if rows[0] == [] then [] else [rows[0]]) + Full(rows[1..])
  }

  lemma {:induction false} FullIs(rows: Rows)
    ensures Full(rows) == rows <==> [] !in rows
    ensures [] !in Full(rows)
  {
    if rows != [] {
      FullIs(rows[1..]);
      assert rows == [rows[0]] + rows[1..];
      if rows[0] != [] && Full(rows) == rows { assert Full(rows)[1..] == Full(rows[1..]); }
    }
  }

  lemma RowsLack(rows: Rows, x: char)
    requires x == '[' || x == ']'
    ensures x !in WriteRows(rows)
  {
    forall k | 0 <= k < |rows| ensures x !in WriteRow(rows[k]) { DecimalsLack(rows[k], x); }
    hide WriteRow;
    JoinHas(RowTexts(rows), '/', x);
  }

  /** Rows are read back but for the empty ones. */
  lemma RowsRead(rows: Rows, other: Other)
    ensures ReadRows(Split(WriteRows(rows), '/'), other) == Full(rows)
    ensures [] !in rows ==> (WriteRows(rows) == "" <==> rows == [])
  {
    forall k | 0 <= k < |rows|
      ensures '/' !in WriteRow(rows[k]) && (WriteRow(rows[k]) == "" <==> rows[k] == [])
    {
      DecimalsLack(rows[k], '/');
      RowReads(rows[k], other);
    }
    TextsRead(rows, other);
    hide WriteRow, ReadRow;
    if rows != [] {
      CutJoin(RowTexts(rows), '/');
      assert rows[0] in rows;
      if |rows| == 1 { assert Full(rows[1..]) == []; }
    }
  }

  // ----- filters -----

  /** A name as the filter gives it back: braces are kept as brackets inside. */
  function OuterName(s: string): (r: string)
    ensures '[' in r ==> '[' in s
  {
    if '{' in s || '}' in s then
      seq(|s|, k requires 0 <= k < |s| => if s[k] == '[' then '{' else if s[k] == ']' then '}' else s[k])
    else s
  }

  function ToText(f: Filter<Rows>): string {
    f.name + if WriteRows(f.idx) == "" then "" else ['['] + (WriteRows(f.idx) + [']'])
  }

  /** A text that is empty leaves a new filter as it is. */
  function FromText(s: string, other: Other): Filter<Rows> {
    var items := Split(s, '[');
    if items == [] then Filter("", [], true)
    else Filter(OuterName(items[0]), if |items| > 1 then ReadBrackets(items[1], other) else [], false)
  }

  function ReadBrackets(s: string, other: Other): Rows {
    var parts := Split(s, ']');
    if parts == [] then [] else ReadRows(Split(parts[0], '/'), other)
  }

  lemma {:induction false} FirstPart(s: string, c: char)
    ensures c !in Cut(s, c)[0]
  {
    if s != "" && s[0] != c { FirstPart(s[1..], c); }
  }

  lemma ReadsPlain(f: Filter<Rows>, other: Other)
    requires OuterName(f.name) == f.name && '[' !in f.name
    ensures FromText(ToText(f), other) == Filter(f.name, Full(f.idx), f.name == "" && WriteRows(f.idx) == "")
  {
    var w := WriteRows(f.idx);
    RowsRead(f.idx, other);
    assert w == "" ==> Full(f.idx) == [];
    hide WriteRows, ReadRows, Full;
    if w == "" {
      CutBefore(f.name, '[', "");
      assert f.name + "" == f.name;
    } else {
      RowsLack(f.idx, '[');
      RowsLack(f.idx, ']');
      CutBefore(f.name, '[', w + [']']);
      assert f.name + ['['] + (w + [']']) == ToText(f);
      CutBefore(w + [']'], '[', "");
      CutBefore(w, ']', "");
      assert w + [']'] + "" == w + [']'];
    }
  }

  /** A filter comes back from its text exactly if its name has no bracket, no row of indexes
      is empty, and it is a name never set exactly if there is no text at all. */
  lemma TextFaithfulIff(f: Filter<Rows>, other: Other)
    requires OuterName(f.name) == f.name && (f.bare ==> f.name == "")
    ensures FromText(ToText(f), other) == f <==>
            '[' !in f.name && [] !in f.idx && (f.bare <==> f.name == "" && f.idx == [])
  {
    FullIs(f.idx);
    RowsRead(f.idx, other);
    if '[' in f.name {
      FirstPart(ToText(f), '[');
    } else {
      ReadsPlain(f, other);
    }
    hide ToText, ReadRows, WriteRows, Full, ReadBrackets, Cut;
  }

  // ----- messages -----

  datatype Line = Line(kind: Kind, text: string)

  function Write(m: Msg<Rows>): Line {
    Line(m.kind, if m.kind == FILT_UNDEF then m.name else ToText(Filter(m.name, m.idx, false)))
  }

  function Read(l: Line, other: Other): Msg<Rows> {
    if l.kind == FILT_UNDEF then Msg(l.kind, l.text, []) else
      var f := FromText(l.text, other);
      Msg(l.kind, f.name, f.idx)
  }

  /** What the partner makes of texts. */
  function ReadAll(m: FMap<Rows>, ls: seq<Line>, merge: Merge<Rows>, other: Other): FMap<Rows> {
    if ls == [] then m else Apply(ReadAll(m, ls[..|ls| - 1], merge, other), Read(ls[|ls| - 1], other), merge)
  }

  predicate Readable(m: Msg<Rows>) {
    m.kind == FILT_UNDEF || (m.name != "" && '[' !in m.name && OuterName(m.name) == m.name && [] !in m.idx)
  }

  function WriteAll(ms: seq<Msg<Rows>>): seq<Line> {
    if ms == [] then [] else WriteAll(ms[..|ms| - 1]) + [Write(ms[|ms| - 1])]
  }

  lemma ReadsLast(m: FMap<Rows>, ls: seq<Line>, l: Line, merge: Merge<Rows>, other: Other)
    ensures ReadAll(m, ls + [l], merge, other) == Apply(ReadAll(m, ls, merge, other), Read(l, other), merge)
  {
    hide Read, Apply;
    assert (ls + [l])[..|ls|] == ls;
  }

  lemma ReadsWritten(m: FMap<Rows>, msg: Msg<Rows>, merge: Merge<Rows>, other: Other)
    requires Readable(msg)
    ensures Apply(m, Read(Write(msg), other), merge) == Apply(m, msg, merge)
  {
    if msg.kind != FILT_UNDEF { TextFaithfulIff(Filter(msg.name, msg.idx, false), other); }
    hide FromText, ToText;
  }

  /** A partner who reads what was written has what the messages say. */
  lemma {:induction false} PartnerReads(m: FMap<Rows>, ms: seq<Msg<Rows>>, merge: Merge<Rows>, other: Other)
    requires forall k | 0 <= k < |ms| :: Readable(ms[k])
    ensures ReadAll(m, WriteAll(ms), merge, other) == ApplyAll(m, ms, merge)
  {
    hide Read, Write, Apply, Readable;
    if ms != [] {
      var last := |ms| - 1;
      PartnerReads(m, ms[..last], merge, other);
      ReadsWritten(ApplyAll(m, ms[..last], merge), ms[last], merge, other);
      ReadsLast(m, WriteAll(ms[..last]), Write(ms[last]), merge, other);
    }
  }

  /** So the partner of a sender of filters has what the sender keeps of him. */
  lemma PartnerHas(s: FilterSender<Rows>, other: Other)
    requires s.Valid() && forall k | 0 <= k < |s.sent| :: Readable(s.sent[k])
    ensures ReadAll(s.start, WriteAll(s.sent), s.merge, other) == s.dst
  {
    PartnerReads(s.start, s.sent, s.merge, other);
  }
}
