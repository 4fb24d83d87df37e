/** Lists of answer records: which rows and which final status they carry for a command. */
module DbRecords {
  import opened Basics
  import opened DbCommon
  import DbResponseList
  import DbQueryList

  /** The rows carried for command `c`, in order. */
  function Rows(recs: seq<Record>, c: nat): seq<Row> {
    if recs == [] then [] else
      var last := recs[|recs| - 1];
      Rows(recs[..|recs| - 1], c) + if last.cmd == c then last.rows else []
  }

  /** The final status carried for command `c`, if any. */
  function Final(recs: seq<Record>, c: nat): Option<CmdStatus> {
    if recs == [] then None else
      var last := recs[|recs| - 1];
      if last.cmd == c && last.status != ROWS then Some(last.status) else Final(recs[..|recs| - 1], c)
  }

  predicate Mentions(recs: seq<Record>, c: nat) {
    exists i | 0 <= i < |recs| :: recs[i].cmd == c
  }

  /** A final record is the last one of its command. */
  predicate Orderly(recs: seq<Record>) {
    forall i, j | 0 <= i < j < |recs| && recs[i].cmd == recs[j].cmd :: recs[i].status == ROWS
  }

  lemma {:induction false} Append(a: seq<Record>, b: seq<Record>, c: nat)
    ensures Rows(a + b, c) == Rows(a, c) + Rows(b, c)
    ensures Final(a + b, c) == (if Final(b, c).Some? then Final(b, c) else Final(a, c))
  {
    if b == [] {
      assert a + b == a;
    } else {
      assert (a + b)[..|a + b| - 1] == a + b[..|b| - 1];
      Append(a, b[..|b| - 1], c);
    }
  }

  lemma {:induction false} NotMentioned(recs: seq<Record>, c: nat)
    requires !Mentions(recs, c)
    ensures Rows(recs, c) == [] && Final(recs, c) == None
  {
    if recs != [] {
      var last := |recs| - 1;
      assert recs[last].cmd != c;
      assert !Mentions(recs[..last], c) by {
        forall i | 0 <= i < last ensures recs[..last][i].cmd != c {
          assert recs[i].cmd != c;
        }
      }
      NotMentioned(recs[..last], c);
    }
  }

  lemma {:induction false} FinalWitness(recs: seq<Record>, c: nat) returns (i: nat)
    requires Final(recs, c).Some?
    ensures i < |recs| && recs[i].cmd == c && recs[i].status == Final(recs, c).value && recs[i].status != ROWS
  {
    var last := |recs| - 1;
    if recs[last].cmd == c && recs[last].status != ROWS {
      i := last;
    } else {
      i := FinalWitness(recs[..last], c);
    }
  }

  lemma {:induction false} NoFinal(recs: seq<Record>, c: nat)
    requires Final(recs, c).None?
    ensures forall i | 0 <= i < |recs| && recs[i].cmd == c :: recs[i].status == ROWS
  {
    if recs != [] {
      var last := |recs| - 1;
      NoFinal(recs[..last], c);
      forall i | 0 <= i < |recs| && recs[i].cmd == c ensures recs[i].status == ROWS {
        if i < last { assert recs[..last][i] == recs[i]; }
      }
    }
  }

  /** Nothing follows a final record. */
  lemma AfterFinal(a: seq<Record>, b: seq<Record>, c: nat)
    requires Orderly(a + b) && Final(a, c).Some?
    ensures !Mentions(b, c) && Rows(a + b, c) == Rows(a, c) && Final(a + b, c) == Final(a, c)
  {
    var i := FinalWitness(a, c);
    forall j | 0 <= j < |b| ensures b[j].cmd != c {
      assert (a + b)[i] == a[i] && (a + b)[|a| + j] == b[j];
    }
    NotMentioned(b, c);
    Append(a, b, c);
  }

  lemma OrderlyParts(a: seq<Record>, b: seq<Record>)
    requires Orderly(a + b)
    ensures Orderly(a) && Orderly(b)
  {
    assert forall i | 0 <= i < |a| :: (a + b)[i] == a[i];
    assert forall i | 0 <= i < |b| :: (a + b)[|a| + i] == b[i];
  }

  // ----- what the answering side writes -----

  lemma {:induction false} RowRecords(i: nat, r: Received, n: nat)
    requires n <= |r.rows| && r.rows != [] && HasNews(r) && r.status != ERROR
    ensures var recs := DbResponseList.NewRecords(i, r)[..n];
            && Rows(recs, i) == r.rows[..n]
            && Final(recs, i) == (if n == |r.rows| && r.status != ROWS then Some(r.status) else None)
            && Orderly(recs) && forall k | 0 <= k < |recs| :: recs[k].cmd == i
  {
    var all := DbResponseList.NewRecords(i, r);
    if n > 0 {
      RowRecords(i, r, n - 1);
      assert all[..n][..n - 1] == all[..n - 1];
      assert r.rows[..n] == r.rows[..n - 1] + [r.rows[n - 1]];
    }
  }

  /** The news of one command, serialised: its rows unless it failed, and its final status. */
  lemma NewRecordsCarry(i: nat, r: Received)
    ensures var recs := DbResponseList.NewRecords(i, r);
            && Rows(recs, i) == (if HasNews(r) && r.status != ERROR then r.rows else [])
            && Final(recs, i) == (if HasNews(r) && r.status != ROWS then Some(r.status) else None)
            && Orderly(recs) && forall k | 0 <= k < |recs| :: recs[k].cmd == i && recs[k].err == r.err
  {
    var recs := DbResponseList.NewRecords(i, r);
    if HasNews(r) {
      if r.status != ERROR && r.rows != [] {
        RowRecords(i, r, |r.rows|);
        assert recs[..|r.rows|] == recs && r.rows[..|r.rows|] == r.rows;
      } else {
        assert recs == [recs[0]] && recs[..0] == [];
      }
    }
  }

  lemma {:induction false} FlushCarries(rs: seq<Received>, n: nat, c: nat)
    requires n <= |rs|
    ensures var recs := DbResponseList.FlushRecords(rs, n);
            && Rows(recs, c) == (if c < n && HasNews(rs[c]) && rs[c].status != ERROR then rs[c].rows else [])
            && Final(recs, c) == (if c < n && HasNews(rs[c]) && rs[c].status != ROWS then Some(rs[c].status) else None)
  {
    hide *;
    NoRecords(rs, c);
    if n > 0 {
      var before, new_ := DbResponseList.FlushRecords(rs, n - 1), DbResponseList.NewRecords(n - 1, rs[n - 1]);
      FlushStep(rs, n - 1);
      FlushCarries(rs, n - 1, c);
      NewRecordsCarry(n - 1, rs[n - 1]);
      Append(before, new_, c);
      if c != n - 1 {
        NotMentionedBy(new_, n - 1, c);
      }
    }
  }

  lemma NoRecords(rs: seq<Received>, c: nat)
    ensures DbResponseList.FlushRecords(rs, 0) == [] && Orderly([])
    ensures Rows([], c) == [] && Final([], c) == None
  {
  }

  lemma NotMentionedBy(recs: seq<Record>, i: nat, c: nat)
    requires (forall k | 0 <= k < |recs| :: recs[k].cmd == i) && i != c
    ensures Rows(recs, c) == [] && Final(recs, c) == None
  {
    NotMentioned(recs, c);
  }

  lemma {:induction false} FlushOrderly(rs: seq<Received>, n: nat)
    requires n <= |rs|
    ensures var recs := DbResponseList.FlushRecords(rs, n);
            && Orderly(recs)
            && forall k | 0 <= k < |recs| :: recs[k].cmd < n && HasNews(rs[recs[k].cmd])
  {
    hide *;
    NoRecords(rs, 0);
    if n > 0 {
      var before, new_ := DbResponseList.FlushRecords(rs, n - 1), DbResponseList.NewRecords(n - 1, rs[n - 1]);
      FlushOrderly(rs, n - 1);
      NewRecordsCarry(n - 1, rs[n - 1]);
      FlushStep(rs, n - 1);
      JoinOrderly(before, new_);
    }
  }

  lemma FlushStep(rs: seq<Received>, n: nat)
    requires n < |rs|
    ensures DbResponseList.FlushRecords(rs, n + 1) ==
            DbResponseList.FlushRecords(rs, n) + DbResponseList.NewRecords(n, rs[n])
    ensures !HasNews(rs[n]) ==> DbResponseList.NewRecords(n, rs[n]) == []
  {
  }

  lemma JoinOrderly(a: seq<Record>, b: seq<Record>)
    requires Orderly(a) && Orderly(b)
    requires forall i, j | 0 <= i < |a| && 0 <= j < |b| && a[i].cmd == b[j].cmd :: a[i].status == ROWS
    ensures Orderly(a + b)
  {
  }

  /** Flushed records may follow what was sent before, for commands still open then. */
  lemma OrderlyFlush(recs: seq<Record>, rs: seq<Received>)
    requires Orderly(recs)
    requires forall c | 0 <= c < |rs| && HasNews(rs[c]) :: Final(recs, c).None?
    ensures Orderly(recs + DbResponseList.FlushRecords(rs, |rs|))
  {
    var new_ := DbResponseList.FlushRecords(rs, |rs|);
    FlushOrderly(rs, |rs|);
    forall i, j | 0 <= i < |recs| && 0 <= j < |new_| && recs[i].cmd == new_[j].cmd
      ensures recs[i].status == ROWS
    {
      NoFinal(recs, new_[j].cmd);
    }
    JoinOrderly(recs, new_);
  }

  // ----- what the asking side reads -----

  ghost predicate Closed(rs: seq<Received>, recs: seq<Record>) {
    forall c | 0 <= c < |rs| && rs[c].status != ROWS :: !Mentions(recs, c)
  }

  predicate Filed(r: Received, recs: seq<Record>, c: nat, r1: Received) {
    && r1.rows == r.rows + Rows(recs, c)
    && r1.status == (if Final(recs, c).Some? then Final(recs, c).value else r.status)
  }

  /** Filing records adds their rows and their final statuses, command by command. */
  lemma {:induction false} ApplyGoods(rs: seq<Received>, recs: seq<Record>)
    requires Orderly(recs) && Closed(rs, recs)
    ensures DbQueryList.ApplyItems(rs, Goods(recs)).1
    ensures forall c | 0 <= c < |rs| :: Filed(rs[c], recs, c, DbQueryList.ApplyItems(rs, Goods(recs)).0[c])
    decreases |recs|
  {
    hide Rows, Final, Orderly, Closed, Filed, AddToOne;
    if recs == [] { FiledNothing(rs); return; }
    var rest := recs[1..];
    var rs1 := AddToQueryState(rs, recs[0]);
    assert Goods(recs)[0] == Good(recs[0]) && Goods(recs)[1..] == Goods(rest);
    assert [recs[0]] + rest == recs;
    OrderlyParts([recs[0]], rest);
    StaysClosed(rs, recs);
    ApplyGoods(rs1, rest);
    var rs2 := DbQueryList.ApplyItems(rs1, Goods(rest)).0;
    assert rs2 == DbQueryList.ApplyItems(rs, Goods(recs)).0;
    hide *;
    forall c | 0 <= c < |rs|
      ensures Filed(rs[c], recs, c, rs2[c])
    {
      FiledFirst(rs, recs, c);
      FiledTwice(rs[c], [recs[0]], rs1[c], rest, rs2[c], c);
    }
  }

  lemma FiledNothing(rs: seq<Received>)
    ensures forall c | 0 <= c < |rs| :: Filed(rs[c], [], c, rs[c])
  {
  }

  lemma FiledTwice(r: Received, a: seq<Record>, r1: Received, b: seq<Record>, r2: Received, c: nat)
    requires Filed(r, a, c, r1) && Filed(r1, b, c, r2)
    ensures Filed(r, a + b, c, r2)
  {
    Append(a, b, c);
  }

  lemma FiledFirst(rs: seq<Received>, recs: seq<Record>, c: nat)
    requires c < |rs| && recs != [] && Orderly(recs) && Closed(rs, recs)
    ensures Filed(rs[c], [recs[0]], c, AddToQueryState(rs, recs[0])[c])
  {
    assert [recs[0]][..0] == [];
    if recs[0].cmd == c {
      assert Mentions(recs, c);
    }
  }

  lemma StaysClosed(rs: seq<Received>, recs: seq<Record>)
    requires recs != [] && Orderly(recs) && Closed(rs, recs)
    ensures Closed(AddToQueryState(rs, recs[0]), recs[1..])
  {
    var rs1 := AddToQueryState(rs, recs[0]);
    forall c, j | 0 <= c < |rs1| && rs1[c].status != ROWS && 0 <= j < |recs| - 1
      ensures recs[1..][j].cmd != c
    {
      assert recs[1..][j] == recs[j + 1];
      if rs[c].status != ROWS { assert !Mentions(recs, c); }
    }
  }
}
