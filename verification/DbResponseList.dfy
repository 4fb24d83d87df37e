/** The answering side: queries arriving in pieces, and their answers on the way out. */
module DbResponseList {
  import opened Basics
  import opened DbCommon

  datatype Command = Command(cmd: string, args: seq<string>)

  /** A partner's query that we answer ourselves. */
  datatype Answer = Answer(
    userId: int, partnerId: int, serviceId: int, service: string,
    queryBuffer: seq<Byte>, queryCompleted: bool, query: Option<seq<Command>>, queryRead: bool,
    cancelled: bool, cancelMessage: string,
    firstSent: bool, rowsAdded: nat,
    responses: seq<Received>, responseBuffer: seq<Byte>,
    allPrepared: bool, failed: bool, errorMessage: string)

  function NewAnswer(userId: int, partnerId: int, serviceId: int, service: string): Answer {
    Answer(userId, partnerId, serviceId, service, [], false, None, false, false, "", false, 0, [], [], false, false, "")
  }

  /** How queries are read and how records are written. */
  datatype Wire = Wire(parseQuery: seq<Byte> -> Option<seq<Command>>, enc: Record -> seq<Byte>)

  // ----- what happens to one query -----

  function ReceiveQuery(w: Wire, a: Answer, data: seq<Byte>, completed: bool): Answer {
    if a.queryCompleted || a.cancelled then a else
      var a1 := a.(queryBuffer := a.queryBuffer + data);
      if !completed then a1 else
        match w.parseQuery(a1.queryBuffer)
        case Some(cmds) => a1.(queryCompleted := true, query := Some(cmds), responses := FreshResponses(|cmds|))
        case None => a1.(queryCompleted := true, failed := true, errorMessage := "Failed to parse")
  }

  function ReceiveCancel(a: Answer, text: string): Answer {
    if a.cancelled then a else a.(cancelled := true, cancelMessage := text)
  }

  function DisconnectOne(a: Answer): Answer {
    ReceiveCancel(a, "Partner disconnected")
  }

  function SendResponse(a: Answer, rec: Record): Answer {
    if a.allPrepared || a.cancelled then a else
      var rs := AddToQueryState(a.responses, rec);
      a.(responses := rs, rowsAdded := a.rowsAdded + |rec.rows|, allPrepared := AllTerminal(rs))
  }

  /** The records for the news of command `i`: one per row, the last of them with the
      command's status; an error drops the rows. */
  function NewRecords(i: nat, r: Received): seq<Record> {
    if r.wasRead || (r.rows == [] && r.status == ROWS) then []
    else if r.status == ERROR then [Record(i, ERROR, [], r.err)]
    else if r.rows == [] then [Record(i, DONE, [], r.err)]
    else seq(|r.rows|, k requires 0 <= k < |r.rows| =>
           Record(i, if k + 1 == |r.rows| then r.status else ROWS, [r.rows[k]], r.err))
  }

  function Flushed(r: Received): Received {
    if HasNews(r) then Received(true, r.status, [], r.err) else r
  }

  /** The records for commands `0..n`. */
  function FlushRecords(rs: seq<Received>, n: nat): seq<Record>
    requires n <= |rs|
  {
    if n == 0 then [] else FlushRecords(rs, n - 1) + NewRecords(n - 1, rs[n - 1])
  }

  function FlushAll(rs: seq<Received>): (rs': seq<Received>)
    ensures |rs'| == |rs|
  {
    seq(|rs|, i requires 0 <= i < |rs| => Flushed(rs[i]))
  }

  /** The state half-way: the first `n` commands are serialised. */
  function FlushedTo(rs: seq<Received>, n: nat): (rs': seq<Received>)
    requires n <= |rs|
    ensures |rs'| == |rs|
  {
    FlushAll(rs[..n]) + rs[n..]
  }

  lemma FlushStarts(w: Wire, rs: seq<Received>)
    ensures FlushedTo(rs, 0) == rs && FlushedTo(rs, |rs|) == FlushAll(rs)
    ensures EncodeAll(w.enc, FlushRecords(rs, 0)) == []
  {
    assert rs[..|rs|] == rs;
  }

  lemma FlushMoves(rs: seq<Received>, n: nat)
    requires n < |rs|
    ensures FlushedTo(rs, n)[n] == rs[n]
    ensures FlushedTo(rs, n)[n := Flushed(rs[n])] == FlushedTo(rs, n + 1)
    ensures FlushRecords(rs, n + 1) == FlushRecords(rs, n) + NewRecords(n, rs[n])
  {
  }

  function Fill(w: Wire, a: Answer): Answer {
    a.(responses := FlushAll(a.responses),
       responseBuffer := a.responseBuffer + EncodeAll(w.enc, FlushRecords(a.responses, |a.responses|)))
  }

  predicate IsLastChunk(a: Answer) {
    a.allPrepared && AllDone(a.responses)
  }

  datatype Sent = Nothing
    | Response(partnerId: int, serviceId: int, data: seq<Byte>, last: bool)
    | Refusal(partnerId: int, serviceId: int, text: string)

  /** What a query sends into a buffer with so much room, and what becomes of it: `None` once
      all is sent. Its news are serialised even if nothing is sent. */
  function SendFrom(w: Wire, a: Answer, room: int): (r: (Option<Answer>, Sent))
    ensures r.1 == Nothing ==> r.0.Some?
    ensures r.0.Some? ==> r.0.value.userId == a.userId && r.0.value.partnerId == a.partnerId
  {
    if a.cancelled then (Some(a), Nothing)
    else if a.failed && room >= 0 then
      (None, Refusal(a.partnerId, a.serviceId, a.errorMessage[..Taken(room, |a.errorMessage|, 0)]))
    else if !a.queryCompleted then (Some(a), Nothing)
    else SendFilled(Fill(w, a), room)
  }

  /** The piece is final when the whole answer is ready and all of it goes. */
  function SendFilled(b: Answer, room: int): (r: (Option<Answer>, Sent))
    ensures r.1 == Nothing ==> r.0.Some?
    ensures r.0.Some? ==> r.0.value.userId == b.userId && r.0.value.partnerId == b.partnerId
  {
    if b.responseBuffer == [] || room < 1 then (Some(b), Nothing)
    else
      var n := Taken(room, |b.responseBuffer|, 1);
      var data := (if b.firstSent then [] else [HEADER_T]) + b.responseBuffer[..n];
      if IsLastChunk(b) && n == |b.responseBuffer| then (None, Response(b.partnerId, b.serviceId, data, true))
      else (Some(b.(firstSent := true, responseBuffer := b.responseBuffer[n..])),
            Response(b.partnerId, b.serviceId, data, false))
  }

  // ----- what that means -----

  /** As long as only parsed queries are answered: all is prepared exactly when every command
      has its final status. */
  predicate Consistent(a: Answer) {
    && (a.query.None? ==> a.responses == [] && !a.allPrepared)
    && (a.query.Some? ==> a.queryCompleted)
    && (a.responses != [] ==> (a.allPrepared <==> AllTerminal(a.responses)))
  }

  /** The text that is still to be sent, with the news not serialised yet. */
  function Unsent(w: Wire, a: Answer): seq<Byte> {
    a.responseBuffer + EncodeAll(w.enc, FlushRecords(a.responses, |a.responses|))
  }

  /** The news are taken, and nothing else is changed. */
  ghost predicate NewsTaken(rs: seq<Received>, rs1: seq<Received>) {
    && |rs1| == |rs|
    && forall c | 0 <= c < |rs| ::
         rs1[c] == if rs[c].wasRead || (rs[c].status == ROWS && rs[c].rows == []) then rs[c]
                   else Received(true, rs[c].status, [], rs[c].err)
  }

  function AtMost(room: int, size: nat): nat
    requires room >= 0
  {
    if room < size then room else size
  }

  /** A cancelled query sends nothing. One that could not be parsed is refused and dropped.
      One that was sends as much as there is room for; when that is all, and all is prepared
      and every status final, it is the last piece and the query is dropped; otherwise it
      stays with the rest. */
  ghost predicate SendsAs(w: Wire, a: Answer, room: int, r: Option<Answer>, s: Sent) {
    var text := Unsent(w, a);
    if a.cancelled || (!a.failed && !a.queryCompleted) then r == Some(a) && s == Nothing
    else if a.failed && room >= 0 then
      r == None && s == Refusal(a.partnerId, a.serviceId, a.errorMessage[..AtMost(room, |a.errorMessage|)])
    else if !a.queryCompleted then r == Some(a) && s == Nothing
    else if room < 1 || text == [] then
      s == Nothing && r.Some? && NewsTaken(a.responses, r.value.responses)
      && r.value == a.(responses := r.value.responses, responseBuffer := text)
    else
      var n := AtMost(room, |text|);
      && s == Response(a.partnerId, a.serviceId, (if a.firstSent then [] else [HEADER_T]) + text[..n],
                       n == |text| && a.allPrepared && AllTerminal(a.responses))
      && (if s.last then r == None
          else r.Some? && NewsTaken(a.responses, r.value.responses)
               && r.value == a.(responses := r.value.responses, responseBuffer := text[n..], firstSent := true))
  }

  /** The first query that can send does so, those before it send nothing, and those behind
      it stay as they are. */
  ghost predicate FirstSendsAs(w: Wire, qs: seq<Answer>, room: nat -> int, at: nat, qs1: seq<Answer>, s: Sent) {
    && at <= |qs| && at <= |qs1|
    && (forall k: nat | k < at :: SendsAs(w, qs[k], room(k), Some(qs1[k]), Nothing))
    && (if s == Nothing then |qs1| == |qs| == at
        else at < |qs| && exists r :: SendsAs(w, qs[at], room(at), r, s) && qs1[at..] == InPlace(r) + qs[at + 1..])
  }

  lemma FirstSendsMeans(w: Wire, qs: seq<Answer>, room: nat -> int, at: nat, qs1: seq<Answer>, s: Sent)
    requires FirstSends(w, qs, room, at, qs1, s)
    ensures FirstSendsAs(w, qs, room, at, qs1, s)
  {
    hide SendFrom, SendsAs;
    forall k: nat | k < at ensures SendsAs(w, qs[k], room(k), Some(qs1[k]), Nothing) {
      SendMeans(w, qs[k], room(k));
    }
    if s != Nothing { SendMeans(w, qs[at], room(at)); }
  }

  /** Once serialised there are no news, and no status has changed. */
  lemma FlushedAll(rs: seq<Received>)
    ensures AllDone(FlushAll(rs)) <==> AllTerminal(rs)
    ensures AllTerminal(FlushAll(rs)) <==> AllTerminal(rs)
    ensures forall c | 0 <= c < |rs| :: !HasNews(FlushAll(rs)[c]) && FlushAll(rs)[c].status == rs[c].status
  {
    var rs1 := FlushAll(rs);
    assert forall c | 0 <= c < |rs| :: rs1[c].status == rs[c].status && (rs[c].status != ROWS ==> rs1[c].wasRead);
    if AllTerminal(rs1) {
      forall c | 0 <= c < |rs| ensures rs[c].status != ROWS { assert rs1[c].status != ROWS; }
    }
  }

  lemma SendMeans(w: Wire, a: Answer, room: int)
    ensures var (r, s) := SendFrom(w, a, room);
            SendsAs(w, a, room, r, s) && (Consistent(a) && r.Some? ==> Consistent(r.value))
  {
    FlushedAll(a.responses);
    assert NewsTaken(a.responses, FlushAll(a.responses));
    hide FlushAll, FlushRecords, EncodeAll, AllDone, AllTerminal, NewsTaken;
  }

  /** A piece of a query is added to what there is of it. The last one makes it whole: then
      every command waits for its answer, or the query cannot be read. */
  ghost predicate ReceivedAs(w: Wire, a: Answer, data: seq<Byte>, completed: bool, b: Answer) {
    && b == a.(queryBuffer := a.queryBuffer + data, queryCompleted := completed, query := b.query, responses := b.responses,
               failed := b.failed, errorMessage := b.errorMessage)
    && (if !completed then b.query == a.query && b.responses == a.responses && b.failed == a.failed
        else if w.parseQuery(b.queryBuffer).None? then b.query == a.query && b.responses == a.responses && b.failed
        else b.query == w.parseQuery(b.queryBuffer) && |b.responses| == |b.query.value| && b.failed == a.failed
             && forall c | 0 <= c < |b.responses| :: b.responses[c] == Received(false, ROWS, [], ""))
  }

  lemma ReceiveConsistent(w: Wire, a: Answer, data: seq<Byte>, completed: bool)
    requires Consistent(a)
    ensures Consistent(ReceiveQuery(w, a, data, completed))
  {
    if a.query.None? && !a.queryCompleted && !a.cancelled && completed && w.parseQuery(a.queryBuffer + data).Some? {
      var n := |w.parseQuery(a.queryBuffer + data).value|;
      assert n > 0 ==> FreshResponses(n)[0].status == ROWS;
    }
  }

  /** Answering keeps that exactly if the query has been parsed, or nothing is answered any
      more: an answer that comes too early closes the query to all that follow. */
  lemma RespondConsistentIff(a: Answer, rec: Record)
    requires Consistent(a)
    ensures Consistent(SendResponse(a, rec)) <==> a.query.Some? || a.cancelled
  {
  }

  function InPlace(a: Option<Answer>): seq<Answer> {
    if a.Some? then [a.value] else []
  }

  function WithoutUser(qs: seq<Answer>, userId: int): seq<Answer> {
    if qs == [] then [] else
      WithoutUser(qs[..|qs| - 1], userId) + if qs[|qs| - 1].userId == userId then [] else [qs[|qs| - 1]]
  }

  ghost predicate DistinctIds(qs: seq<Answer>) {
    forall i, j | 0 <= i < j < |qs| :: qs[i].userId != qs[j].userId && qs[i].partnerId != qs[j].partnerId
  }

  lemma {:induction false} WithoutUserIs(qs: seq<Answer>, i: nat)
    requires DistinctIds(qs) && i < |qs|
    ensures WithoutUser(qs, qs[i].userId) == qs[..i] + qs[i + 1..]
  {
    var last := |qs| - 1;
    if i == last {
      WithoutAbsent(qs[..last], qs[last].userId);
      assert qs[i + 1..] == [];
    } else {
      WithoutUserIs(qs[..last], i);
      assert qs[..last][..i] == qs[..i] && qs[..last][i + 1..] + [qs[last]] == qs[i + 1..];
    }
  }

  lemma {:induction false} WithoutAbsent(qs: seq<Answer>, userId: int)
    requires forall k | 0 <= k < |qs| :: qs[k].userId != userId
    ensures WithoutUser(qs, userId) == qs
  {
    if qs != [] {
      var last := |qs| - 1;
      WithoutAbsent(qs[..last], userId);
      assert qs[..last] + [qs[last]] == qs;
    }
  }

  lemma {:induction false} WithoutKeepsIds(qs: seq<Answer>, userId: int)
    requires DistinctIds(qs)
    ensures DistinctIds(WithoutUser(qs, userId))
    ensures forall q | q in WithoutUser(qs, userId) :: q in qs
  {
    if qs != [] {
      var last := |qs| - 1;
      WithoutKeepsIds(qs[..last], userId);
      forall q | q in WithoutUser(qs[..last], userId)
        ensures q in qs && q.userId != qs[last].userId && q.partnerId != qs[last].partnerId
      {
        assert q in qs[..last];
        var k :| 0 <= k < last && qs[k] == q;
      }
    }
  }

  function IndexOfPartner(qs: seq<Answer>, id: int): (i: int)
    ensures -1 <= i < |qs|
    ensures if i < 0 then forall k | 0 <= k < |qs| :: qs[k].partnerId != id else qs[i].partnerId == id
  {
    if qs == [] then -1 else
      var j := IndexOfPartner(qs[..|qs| - 1], id);
      if j >= 0 then j else if qs[|qs| - 1].partnerId == id then |qs| - 1 else -1
  }

  function IndexOfUser(qs: seq<Answer>, id: int): (i: int)
    ensures -1 <= i < |qs|
    ensures if i < 0 then forall k | 0 <= k < |qs| :: qs[k].userId != id else qs[i].userId == id
  {
    if qs == [] then -1 else
      var j := IndexOfUser(qs[..|qs| - 1], id);
      if j >= 0 then j else if qs[|qs| - 1].userId == id then |qs| - 1 else -1
  }

  /** The queries before number `at` do what they do without sending, that one sends and
      the others stay as they are; or none sends. */
  ghost predicate FirstSends(w: Wire, qs: seq<Answer>, room: nat -> int, at: nat, qs1: seq<Answer>, s: Sent) {
    && at <= |qs| && at <= |qs1|
    && (forall k: nat | k < at :: SendFrom(w, qs[k], room(k)) == (Some(qs1[k]), Nothing))
    && (if s == Nothing then |qs1| == |qs| == at
        else at < |qs| && s == SendFrom(w, qs[at], room(at)).1
             && qs1[at..] == InPlace(SendFrom(w, qs[at], room(at)).0) + qs[at + 1..])
  }

  /** Half-way: the first `n` did not send, the others have not been tried. */
  ghost predicate Tried(w: Wire, qs: seq<Answer>, room: nat -> int, n: nat, qs1: seq<Answer>) {
    && n <= |qs| == |qs1|
    && (forall k: nat | k < n :: SendFrom(w, qs[k], room(k)) == (Some(qs1[k]), Nothing))
    && (forall k | n <= k < |qs| :: qs1[k] == qs[k])
  }

  lemma TriesMore(w: Wire, qs: seq<Answer>, room: nat -> int, n: nat, qs1: seq<Answer>, qs2: seq<Answer>, s: Sent)
    requires n < |qs| && Tried(w, qs, room, n, qs1) && s == SendFrom(w, qs[n], room(n)).1
    requires qs2 == qs1[..n] + InPlace(SendFrom(w, qs1[n], room(n)).0) + qs1[n + 1..]
    ensures if s == Nothing then Tried(w, qs, room, n + 1, qs2) else FirstSends(w, qs, room, n, qs2, s)
  {
    var r := SendFrom(w, qs[n], room(n)).0;
    hide SendFrom;
    assert qs1[n] == qs[n] && qs1[n + 1..] == qs[n + 1..];
    assert qs2[n..] == InPlace(r) + qs[n + 1..];
    assert forall k: nat | k < n :: qs2[k] == qs1[k];
    if s == Nothing {
      assert r.Some? && qs2 == qs1[..n] + [r.value] + qs1[n + 1..];
      assert forall k | n < k < |qs| :: qs2[k] == qs[k];
    }
  }

  /** Of the first `n` queries those parsed are marked read, and those not read before are
      offered, in order. */
  ghost predicate Offered(qs: seq<Answer>, qs1: seq<Answer>, offered: seq<int>, n: nat) {
    && n <= |qs| == |qs1| && offered == NewIds(qs[..n])
    && forall i | 0 <= i < |qs| :: qs1[i] == if i < n && qs[i].query.Some? then qs[i].(queryRead := true) else qs[i]
  }

  /** The parsed queries that were not read, in order. */
  function NewIds(qs: seq<Answer>): seq<int> {
    if qs == [] then [] else
      var last := qs[|qs| - 1];
      NewIds(qs[..|qs| - 1]) + if last.query.Some? && !last.queryRead then [last.userId] else []
  }

  lemma OfferedMore(qs: seq<Answer>, qs1: seq<Answer>, offered: seq<int>, n: nat)
    requires n < |qs1| && Offered(qs, qs1, offered, n)
    ensures if qs1[n].query.Some? && !qs1[n].queryRead then
              Offered(qs, qs1[n := qs1[n].(queryRead := true)], offered + [qs1[n].userId], n + 1)
            else Offered(qs, qs1, offered, n + 1)
  {
    assert qs[..n + 1][..n] == qs[..n] && qs[..n + 1][n] == qs[n];
  }

  lemma SameIds(qs: seq<Answer>, i: nat, a: Answer)
    requires i < |qs| && a.userId == qs[i].userId && a.partnerId == qs[i].partnerId && DistinctIds(qs)
    ensures DistinctIds(qs[i := a])
  {
  }

  lemma {:induction false} NewIdsAre(qs: seq<Answer>, id: int)
    ensures id in NewIds(qs) <==> exists i | 0 <= i < |qs| :: qs[i].userId == id && qs[i].query.Some? && !qs[i].queryRead
  {
    if qs != [] {
      NewIdsAre(qs[..|qs| - 1], id);
    }
  }

  class MyResponseList {
    const wire: Wire
    var queries: seq<Answer>

    constructor (wire: Wire)
      ensures Valid() && this.wire == wire && queries == []
    {
      this.wire := wire;
      queries := [];
    }

    ghost predicate Valid()
      reads this
    {
      DistinctIds(queries)
    }

    method FindByUser(id: int) returns (i: int)
      requires Valid()
      ensures i == IndexOfUser(queries, id)
    {
      i := 0;
      while i < |queries|
        invariant 0 <= i <= |queries|
        invariant forall k | 0 <= k < i :: queries[k].userId != id
      {
        if queries[i].userId == id { return; }
        i := i + 1;
      }
      i := -1;
    }

    method FindByPartner(id: int) returns (i: int)
      requires Valid()
      ensures i == IndexOfPartner(queries, id)
    {
      i := 0;
      while i < |queries|
        invariant 0 <= i <= |queries|
        invariant forall k | 0 <= k < i :: queries[k].partnerId != id
      {
        if queries[i].partnerId == id { return; }
        i := i + 1;
      }
      i := -1;
    }

    method CreateNewQuery(userId: int, partnerId: int, serviceId: int, service: string)
      requires Valid()
      modifies this
      ensures Valid()
      ensures queries == if IndexOfUser(old(queries), userId) >= 0 || IndexOfPartner(old(queries), partnerId) >= 0
                         then old(queries)
                         else old(queries) + [Answer(userId, partnerId, serviceId, service, [], false, None, false, false, "",
                                                     false, 0, [], [], false, false, "")]
    {
      var i := FindByUser(userId);
      if i >= 0 { return; }
      i := FindByPartner(partnerId);
      if i >= 0 { return; }
      queries := queries + [NewAnswer(userId, partnerId, serviceId, service)];
    }

    method ReceiveData(partnerId: int, serviceId: int, completed: bool, data: seq<Byte>) returns (ok: bool)
      requires Valid()
      modifies this
      ensures Valid()
      ensures var i := IndexOfPartner(old(queries), partnerId);
              if i >= 0 && old(queries)[i].serviceId == serviceId && !old(queries)[i].queryCompleted && !old(queries)[i].cancelled
              then ok && queries == old(queries)[i := ReceiveQuery(wire, old(queries)[i], data, completed)]
                   && ReceivedAs(wire, old(queries)[i], data, completed, queries[i])
              else !ok && queries == old(queries)
    {
      var i := FindByPartner(partnerId);
      if i < 0 { return false; }
      var q := queries[i];
      if q.serviceId != serviceId { return false; }
      if q.queryCompleted { return false; }
      if q.cancelled { return false; }
      q := q.(queryBuffer := q.queryBuffer + data);
      if completed {
        q := q.(queryCompleted := true);
        match wire.parseQuery(q.queryBuffer) {
          case Some(cmds) => q := q.(query := Some(cmds), responses := FreshResponses(|cmds|));
          case None => q := q.(failed := true, errorMessage := "Failed to parse");
        }
      }
      queries := queries[i := q];
      ok := true;
    }

    method Cancel(partnerId: int, serviceId: int, text: string) returns (ok: bool)
      requires Valid()
      modifies this
      ensures Valid()
      ensures var i := IndexOfPartner(old(queries), partnerId);
              if i >= 0 && old(queries)[i].serviceId == serviceId && !old(queries)[i].cancelled
              then ok && queries == old(queries)[i := ReceiveCancel(old(queries)[i], text)]
                   && queries[i] == old(queries)[i].(cancelled := true, cancelMessage := text)
              else !ok && queries == old(queries)
    {
      var i := FindByPartner(partnerId);
      if i < 0 { return false; }
      if queries[i].serviceId != serviceId { return false; }
      if queries[i].cancelled { return false; }
      queries := queries[i := queries[i].(cancelled := true, cancelMessage := text)];
      ok := true;
    }

    /** The user answers a command. */
    method Respond(userId: int, rec: Record)
      requires Valid()
      modifies this
      ensures Valid()
      ensures var i := IndexOfUser(old(queries), userId);
              queries == if i < 0 then old(queries) else old(queries)[i := SendResponse(old(queries)[i], rec)]
      ensures var i := IndexOfUser(old(queries), userId);
              i >= 0 ==> var a, b := old(queries)[i], queries[i];
                if a.allPrepared || a.cancelled then b == a
                else b == a.(responses := AddToQueryState(a.responses, rec), rowsAdded := a.rowsAdded + |rec.rows|,
                             allPrepared := AllTerminal(b.responses))
    {
      var i := FindByUser(userId);
      if i < 0 { return; }
      var q := queries[i];
      if q.allPrepared { return; }
      if q.cancelled { return; }
      q := q.(responses := AddToQueryState(q.responses, rec));
      q := q.(rowsAdded := q.rowsAdded + |rec.rows|);
      q := q.(allPrepared := AllTerminal(q.responses));
      queries := queries[i := q];
    }

    /** Serialises the news of a query, command by command and row by row. */
    method FillResponseBufferIfPossible(q0: Answer) returns (q: Answer)
      ensures q == Fill(wire, q0)
    {
      hide FlushedTo, FlushAll, FlushRecords, EncodeAll, NewRecords, Flushed, HasNews;
      var rs, buffer := q0.responses, q0.responseBuffer;
      FlushStarts(wire, q0.responses);
      var c := 0;
      while c < |rs|
        invariant c <= |rs| == |q0.responses|
        invariant rs == FlushedTo(q0.responses, c)
        invariant buffer == q0.responseBuffer + EncodeAll(wire.enc, FlushRecords(q0.responses, c))
      {
        FlushMoves(q0.responses, c);
        EncodeAllAppend(wire.enc, FlushRecords(q0.responses, c), NewRecords(c, rs[c]));
        var r;
        buffer, r := FlushOne(buffer, c, rs[c]);
        rs := rs[c := r];
        c := c + 1;
      }
      q := q0.(responses := rs, responseBuffer := buffer);
    }

    method FlushOne(buffer: seq<Byte>, c: nat, r0: Received) returns (out: seq<Byte>, r: Received)
      ensures out == buffer + EncodeAll(wire.enc, NewRecords(c, r0)) && r == Flushed(r0)
    {
      out, r := buffer, r0;
      if !r.wasRead && (|r.rows| > 0 || r.status != ROWS) {
        out := WriteRecords(out, c, r);
        r := r.(rows := [], wasRead := true);
      }
    }

    method WriteRecords(buffer: seq<Byte>, c: nat, r: Received) returns (out: seq<Byte>)
      requires HasNews(r)
      ensures out == buffer + EncodeAll(wire.enc, NewRecords(c, r))
    {
      ghost var recs := NewRecords(c, r);
      out := buffer;
      if r.status == ERROR {
        out := out + wire.enc(Record(c, ERROR, [], r.err));
        assert EncodeAll(wire.enc, recs) == wire.enc(recs[0]) + EncodeAll(wire.enc, recs[1..]);
      } else {
        for row := 0 to |r.rows|
          invariant out == buffer + EncodeAll(wire.enc, recs[..row])
        {
          var isLast := row + 1 >= |r.rows|;
          var rec := Record(c, if isLast then r.status else ROWS, [r.rows[row]], r.err);
          assert recs[row] == rec && recs[..row + 1] == recs[..row] + [rec];
          EncodeAllAppend(wire.enc, recs[..row], [rec]);
          assert EncodeAll(wire.enc, [rec]) == wire.enc(rec);
          out := out + wire.enc(rec);
        }
        if |r.rows| == 0 && r.status == DONE {
          out := out + wire.enc(Record(c, DONE, [], r.err));
          assert EncodeAll(wire.enc, recs) == wire.enc(recs[0]) + EncodeAll(wire.enc, recs[1..]);
        } else {
          assert recs[..|r.rows|] == recs;
        }
      }
    }

    /** At most one message, by the first query that can; those before it do what they do
        without sending. Nothing is done when the buffer has no more than the header.
        `room` is what it has for the message of each query. */
    method GenerateDataToSend(maxSize: nat, room: nat -> int) returns (sent: Sent)
      requires Valid()
      modifies this
      ensures Valid()
      ensures maxSize <= QUERY_HEADER_LENGTH + 1 ==> sent == Nothing && queries == old(queries)
      ensures maxSize > QUERY_HEADER_LENGTH + 1 ==> exists at: nat :: FirstSends(wire, old(queries), room, at, queries, sent)
                                                                       && FirstSendsAs(wire, old(queries), room, at, queries, sent)
    {
      if maxSize <= QUERY_HEADER_LENGTH + 1 { return Nothing; }
      ghost var at;
      sent, at := SendInTurn(room);
      hide FirstSends, FirstSendsAs;
      FirstSendsMeans(wire, old(queries), room, at, queries, sent);
      assert FirstSends(wire, old(queries), room, at, queries, sent);
    }

    method SendInTurn(room: nat -> int) returns (sent: Sent, ghost at: nat)
      requires Valid()
      modifies this
      ensures Valid() && FirstSends(wire, old(queries), room, at, queries, sent)
    {
      at := 0;
      for i := 0 to |queries|
        invariant Valid() && at == i && Tried(wire, old(queries), room, i, queries)
      {
        hide SendFrom, DistinctIds, FirstSends;
        ghost var before := queries;
        sent := TrySend(i, room(i));
        TriesMore(wire, old(queries), room, i, before, queries, sent);
        if sent != Nothing { return sent, i; }
        at := i + 1;
      }
      sent := Nothing;
    }

    method TrySend(i: nat, room: int) returns (sent: Sent)
      requires Valid() && i < |queries|
      modifies this
      ensures Valid()
      ensures sent == SendFrom(wire, old(queries)[i], room).1
      ensures queries == old(queries)[..i] + InPlace(SendFrom(wire, old(queries)[i], room).0) + old(queries)[i + 1..]
      ensures SendsAs(wire, old(queries)[i], room, SendFrom(wire, old(queries)[i], room).0, sent)
    {
      SendMeans(wire, queries[i], room);
      hide SendsAs;
      hide IsLastChunk, WithoutUser, FlushAll, FlushRecords, EncodeAll, SendFilled;
      var q := queries[i];
      WithoutUserIs(queries, i);
      WithoutKeepsIds(queries, q.userId);
      assert queries[..i] + [q] + queries[i + 1..] == queries;
      if q.cancelled { return Nothing; }
      if q.failed {
        if room >= 0 {
          EraseResponse(q.userId);
          assert queries[..i] + [] == queries[..i];
          return Refusal(q.partnerId, q.serviceId, q.errorMessage[..Taken(room, |q.errorMessage|, 0)]);
        }
      }
      if !q.queryCompleted { return Nothing; }
      q := FillResponseBufferIfPossible(q);
      sent := SendAnswer(i, q, room);
    }

    method SendAnswer(i: nat, q: Answer, room: int) returns (sent: Sent)
      requires Valid() && i < |queries| && q.userId == queries[i].userId && q.partnerId == queries[i].partnerId
      modifies this
      ensures Valid() && sent == SendFilled(q, room).1
      ensures queries == old(queries)[..i] + InPlace(SendFilled(q, room).0) + old(queries)[i + 1..]
    {
      hide IsLastChunk, WithoutUser;
      queries := queries[i := q];
      WithoutUserIs(queries, i);
      WithoutKeepsIds(queries, q.userId);
      if |q.responseBuffer| > 0 {
        var len := Taken(room, |q.responseBuffer|, 1);
        if len >= 0 {
          var whole := IsLastChunk(q) && len == |q.responseBuffer|;
          sent := Response(q.partnerId, q.serviceId, (if q.firstSent then [] else [HEADER_T]) + q.responseBuffer[..len], whole);
          if whole {
            EraseResponse(q.userId);
          } else {
            queries := queries[i := q.(firstSent := true, responseBuffer := q.responseBuffer[len..])];
          }
          return sent;
        }
      }
      sent := Nothing;
    }

    method EraseResponse(userId: int)
      requires Valid()
      modifies this
      ensures Valid() && queries == WithoutUser(old(queries), userId)
    {
      WithoutKeepsIds(queries, userId);
      var kept: seq<Answer> := [];
      for i := 0 to |queries|
        invariant queries == old(queries) && kept == WithoutUser(queries[..i], userId)
      {
        assert queries[..i + 1][..i] == queries[..i];
        if queries[i].userId != userId { kept := kept + [queries[i]]; }
      }
      assert queries[..|queries|] == queries;
      queries := kept;
    }

    /** Cancelled queries are reported once and dropped. */
    method GetCancelledQueries() returns (result: map<int, string>)
      requires Valid()
      modifies this
      ensures Valid()
      ensures forall q | q in old(queries) && q.cancelled :: q.userId in result && result[q.userId] == q.cancelMessage
      ensures forall id | id in result :: exists q | q in old(queries) :: q.cancelled && q.userId == id
      ensures forall q :: q in queries <==> q in old(queries) && !q.cancelled
    {
      result := map[];
      var kept: seq<Answer> := [];
      for i := 0 to |queries|
        invariant queries == old(queries)
        invariant forall k | 0 <= k < i && queries[k].cancelled ::
                    queries[k].userId in result && result[queries[k].userId] == queries[k].cancelMessage
        invariant forall id | id in result :: exists k | 0 <= k < i :: queries[k].cancelled && queries[k].userId == id
        invariant forall q :: q in kept <==> exists k | 0 <= k < i :: queries[k] == q && !q.cancelled
        invariant DistinctIds(kept)
      {
        if queries[i].cancelled {
          result := result[queries[i].userId := queries[i].cancelMessage];
        } else {
          kept := kept + [queries[i]];
        }
      }
      queries := kept;
    }

    method Disconnect()
      requires Valid()
      modifies this
      ensures Valid() && |queries| == |old(queries)|
      ensures forall i | 0 <= i < |queries| :: queries[i] == DisconnectOne(old(queries)[i]) && queries[i].cancelled
                                               && (old(queries)[i].cancelled ==> queries[i] == old(queries)[i])
    {
      for i := 0 to |queries|
        invariant |queries| == |old(queries)|
        invariant forall k | 0 <= k < |queries| ::
                    queries[k] == if k < i then DisconnectOne(old(queries)[k]) else old(queries)[k]
      {
        if !queries[i].cancelled {
          queries := queries[i := queries[i].(cancelled := true, cancelMessage := "Partner disconnected")];
        }
      }
    }

    /** Parsed queries the user has not seen yet, each offered once, in order and up to the
        limit. */
    method GetNewQueries(limit: nat) returns (result: seq<int>)
      requires Valid()
      modifies this
      ensures Valid()
      ensures exists n: nat :: Offered(old(queries), queries, result, n) && (n == |queries| || 0 < limit == |result|)
      ensures limit > 0 ==> |result| <= limit
    {
      result := [];
      ghost var before := queries;
      var i := 0;
      assert Offered(before, queries, result, 0);
      hide Offered, DistinctIds;
      while i < |queries|
        invariant i <= |queries| && Valid() && Offered(before, queries, result, i) && (limit > 0 ==> |result| < limit)
      {
        OfferedMore(before, queries, result, i);
        SameIds(queries, i, queries[i].(queryRead := true));
        if queries[i].query.Some? && !queries[i].queryRead {
          result := result + [queries[i].userId];
          queries := queries[i := queries[i].(queryRead := true)];
        }
        i := i + 1;
        if limit > 0 && |result| >= limit { break; }
      }
      assert Offered(before, queries, result, i);
    }
  }
}
