/** What the asking and the answering side of the query protocol share: the state of one
    command's answer, the records sent for it, and the incremental parser of records. */
module DbCommon {
  import opened Basics

  type Row = string

  datatype CmdStatus = DONE | ROWS | ERROR

  /** One command's answer, as far as it is known. */
  datatype Received = Received(wasRead: bool, status: CmdStatus, rows: seq<Row>, err: string)

  const Fresh := Received(false, ROWS, [], "")

  function FreshResponses(n: nat): seq<Received> {
    seq(n, _ => Fresh)
  }

  /** A serialised piece of an answer. */
  datatype Record = Record(cmd: nat, status: CmdStatus, rows: seq<Row>, err: string)

  function AddToOne(r: Received, status: CmdStatus, rows: seq<Row>, err: string): Received {
    if r.status != ROWS then r else
      Received(r.wasRead && r.status == status && rows == [], status, r.rows + rows, err)
  }

  function AddToQueryState(rs: seq<Received>, rec: Record): (rs': seq<Received>)
    ensures |rs'| == |rs|
  {
    if rec.cmd >= |rs| then rs
    else rs[rec.cmd := AddToOne(rs[rec.cmd], rec.status, rec.rows, rec.err)]
  }

  /** The response vector is updated in place. */
  method AddInPlace(responses: array<Received>, rec: Record)
    modifies responses
    ensures responses[..] == AddToQueryState(old(responses[..]), rec)
    ensures forall c | 0 <= c < responses.Length :: var r := old(responses[c]);
              responses[c] == if c != rec.cmd || r.status != ROWS then r
                              else Received(r.wasRead && rec.status == ROWS && rec.rows == [], rec.status, r.rows + rec.rows, rec.err)
  {
    if rec.cmd >= responses.Length { return; }
    var r := responses[rec.cmd];
    assert r.rows + [] == r.rows;
    if r.status != ROWS { return; }
    if r.status != rec.status {
      r := r.(wasRead := false, status := rec.status);
    }
    if rec.rows != [] {
      r := r.(wasRead := false, rows := r.rows + rec.rows);
    }
    responses[rec.cmd] := r.(err := rec.err);
  }

  /** The byte that precedes the first piece of an answer, for older versions. */
  const HEADER_T: Byte := 116  // 't'

  /** The kind, and the numbers of service and query in hexadecimal. */
  const QUERY_HEADER_LENGTH := 1 + 4 + 16

  /** What an output buffer with so much room takes of a body: all that fits if that is at
      least `least` units, otherwise nothing (-1). Without room for the header `room` is
      negative. */
  function Taken(room: int, bodySize: nat, least: nat): (taken: int)
    requires least <= bodySize
    ensures taken == -1 || least <= taken <= bodySize
  {
    if room < least then -1 else if room < bodySize then room else bodySize
  }

  /** Every command's answer is final and was handed over. */
  predicate AllDone(rs: seq<Received>) {
    forall c | 0 <= c < |rs| :: rs[c].wasRead && rs[c].status != ROWS
  }

  predicate AllTerminal(rs: seq<Received>) {
    forall c | 0 <= c < |rs| :: rs[c].status != ROWS
  }

  predicate HasNews(r: Received) {
    !r.wasRead && (r.status != ROWS || r.rows != [])
  }

  // ----- the incremental parser -----

  /** A complete expression read from the stream: a record, or something else. */
  datatype Item = Good(rec: Record) | Bad

  /** The parser as an automaton on bytes; `None` is a syntax error, and `eof` tells
      whether the input may end here. */
  datatype Parser<!S> = Parser(start: S, step: (S, Byte) -> Option<(S, seq<Item>)>, eof: S -> bool)

  function Feed<S>(p: Parser<S>, s: S, b: seq<Byte>): Option<(S, seq<Item>)> {
    if b == [] then Some((s, [])) else
      match p.step(s, b[0])
      case None => None
      case Some((s1, out1)) =>
        match Feed(p, s1, b[1..])
        case None => None
        case Some((s2, out2)) => Some((s2, out1 + out2))
  }

  /** The parser does not care how its input is cut into pieces. */
  lemma {:induction false} FeedAppend<S>(p: Parser<S>, s: S, a: seq<Byte>, b: seq<Byte>)
    ensures Feed(p, s, a + b) ==
            match Feed(p, s, a)
            case None => None
            case Some((s1, out1)) =>
              match Feed(p, s1, b)
              case None => None
              case Some((s2, out2)) => Some((s2, out1 + out2))
  {
    if a == [] {
      assert a + b == b;
      if Feed(p, s, b).Some? {
        assert [] + Feed(p, s, b).value.1 == Feed(p, s, b).value.1;
      }
    } else {
      assert (a + b)[0] == a[0] && (a + b)[1..] == a[1..] + b;
      if p.step(s, a[0]).Some? {
        var (s1, out1) := p.step(s, a[0]).value;
        FeedAppend(p, s1, a[1..], b);
        match Feed(p, s1, a[1..])
        case None =>
        case Some((s2, out2)) =>
          match Feed(p, s2, b)
          case None =>
          case Some((s3, out3)) => assert (out1 + out2) + out3 == out1 + (out2 + out3);
      }
    }
  }

  /** Records are read back one by one: the parser yields a record on the last byte of its
      text, nothing before, and is then as if new. */
  ghost predicate SelfDelimiting<S>(p: Parser<S>, enc: Record -> seq<Byte>) {
    && p.eof(p.start)
    && (forall r :: enc(r) != [] && Feed(p, p.start, enc(r)) == Some((p.start, [Good(r)])))
    && (forall r, n | 0 <= n < |enc(r)| ::
          Feed(p, p.start, enc(r)[..n]).Some? && Feed(p, p.start, enc(r)[..n]).value.1 == [])
  }

  function EncodeAll(enc: Record -> seq<Byte>, recs: seq<Record>): seq<Byte> {
    if recs == [] then [] else enc(recs[0]) + EncodeAll(enc, recs[1..])
  }

  lemma {:induction false} EncodeAllAppend(enc: Record -> seq<Byte>, a: seq<Record>, b: seq<Record>)
    ensures EncodeAll(enc, a + b) == EncodeAll(enc, a) + EncodeAll(enc, b)
  {
    if a == [] {
      assert a + b == b;
    } else {
      assert (a + b)[0] == a[0] && (a + b)[1..] == a[1..] + b;
      EncodeAllAppend(enc, a[1..], b);
    }
  }

  function Goods(recs: seq<Record>): seq<Item> {
    seq(|recs|, i requires 0 <= i < |recs| => Good(recs[i]))
  }

  /** However much of the text of `recs` has arrived, what was read from it is an initial
      part of `recs`; from the whole text all of `recs` is read. */
  lemma {:induction false} ReadsPrefix<S>(p: Parser<S>, enc: Record -> seq<Byte>, recs: seq<Record>, b: seq<Byte>)
    returns (k: nat)
    requires SelfDelimiting(p, enc) && b <= EncodeAll(enc, recs)
    ensures k <= |recs| && Feed(p, p.start, b).Some?
    ensures Feed(p, p.start, b).value.1 == Goods(recs[..k])
    ensures b == EncodeAll(enc, recs) ==> k == |recs| && Feed(p, p.start, b).value.0 == p.start
  {
    if recs == [] {
      return 0;
    }
    var e := enc(recs[0]);
    if |b| < |e| {
      assert b == e[..|b|];
      return 0;
    }
    assert b == e + b[|e|..];
    var k1 := ReadsPrefix(p, enc, recs[1..], b[|e|..]);
    FeedAppend(p, p.start, e, b[|e|..]);
    k := k1 + 1;
    assert [Good(recs[0])] + Goods(recs[1..][..k1]) == Goods(recs[..k]);
  }
}
