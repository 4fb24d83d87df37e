/** Cells that are strings: written in quotes and escaped, read as a C string. */
module ArrayStrings {
  import E = Escape
  import F = Fragments
  import C = ArrayCodec
  import D = ArrayDelta

  function BeforeNul(s: E.Text): E.Text {
    if s == [] || s[0] == 0 then [] else [s[0]] + BeforeNul(s[1..])
  }

  function Format(s: E.Text): E.Text {
    F.Quoted(E.EscapeAll(s))
  }

  /** A string that cannot be read counts as empty. */
  function Parse(t: E.Text): E.Text {
    match E.InterpretFirstString(t)
    case None => []
    case Some((s, _)) => BeforeNul(s)
  }

  const StringCell := C.Cell(Format, Parse)

  lemma {:induction false} BeforeNulWhole(s: E.Text)
    ensures BeforeNul(s) == s <==> 0 !in s
  {
    if s != [] {
      BeforeNulWhole(s[1..]);
      assert s == [s[0]] + s[1..];
      if s[0] != 0 && BeforeNul(s) == s {
        assert BeforeNul(s)[1..] == BeforeNul(s[1..]);
      }
    }
  }

  /** A string comes back exactly if it has no zero byte. */
  lemma StringFaithfulIff(s: E.Text)
    ensures Parse(Format(s)) == s <==> 0 !in s
  {
    F.QuotedReads(s);
    BeforeNulWhole(s);
  }

  /** So arrays of such strings come back, whole or by their differences, and the default
      value stays. */
  lemma StringArraysRestore(s: C.Shape, old_: seq<E.Text>, new_: seq<E.Text>)
    requires |old_| == C.Cells(s) && |new_| == C.Size(s) <= D.NO_INDEX + 1
    requires forall k | 0 <= k < |new_| :: 0 !in new_[k]
    ensures C.Decode(s, StringCell, C.Start(old_), D.RunsFrom(StringCell, new_, 0)).cells == new_ + [old_[|new_|]]
    ensures var before := old_[..|new_|];
            before != new_ ==>
              var r := C.Decode(s, StringCell, C.Start(old_), D.Delta(StringCell, new_, D.DiffOf(new_, before, D.Upto(|new_|))));
              r.cells == new_ + [old_[|new_|]] && r.changed
  {
    forall k | 0 <= k < |new_| ensures StringCell.parse(StringCell.format(new_[k])) == new_[k] {
      StringFaithfulIff(new_[k]);
    }
    D.RunsRestore(s, StringCell, old_, new_);
    if old_[..|new_|] != new_ { D.SyncByDelta(s, StringCell, old_, new_); }
  }
}
