/** The asking side: queries on their way out, answers on their way to the user. */
module DbQueryList {
  import opened Basics
  import opened DbCommon

  datatype QueryStatus = QRunning | QPrepared | NeedSendCancel | CancelWasSent | QAborted
  datatype ResponseStatus = RRunning | RCompleted | RAborted | RCancelled

  /** A query of ours that is not forwarded. `id` is both the user's and the partner's. */
  datatype Query<S> = Query(
    id: int, serviceId: int, service: string, timeCreated: int, timeTimeout: int,
    queryStatus: QueryStatus, cancelMessage: string,
    queryBuffer: seq<Byte>,
    responseBuffer: seq<Byte>, responseStatus: ResponseStatus, abortMessage: string,
    received: seq<Received>, parser: S, bytesReceived: nat)

  /** One item handed to the user. */
  datatype Delivery = Delivery(id: int, cmd: nat, service: string, status: CmdStatus,
                               rows: seq<Row>, err: string, completed: bool)


  // ----- what happens to one query -----

  function SetErrors(rs: seq<Received>, msg: string): (rs': seq<Received>)
    ensures |rs'| == |rs|
  {
    seq(|rs|, c requires 0 <= c < |rs| =>
      if rs[c].status == ROWS then rs[c].(status := ERROR, wasRead := false, err := msg) else rs[c])
  }

  /** Files the items in order, up to the first that is not a record. */
  function ApplyItems(rs: seq<Received>, items: seq<Item>): (r: (seq<Received>, bool))
    ensures |r.0| == |rs|
    decreases |items|
  {
    if items == [] then (rs, true)
    else if items[0].Bad? then (rs, false)
    else ApplyItems(AddToQueryState(rs, items[0].rec), items[1..])
  }

  function ProcessResponse<S>(p: Parser<S>, q: Query<S>, eof: bool): (r: (Query<S>, bool))
    ensures |r.0.received| == |q.received|
  {
    match Feed(p, q.parser, q.responseBuffer)
    case None => (q.(parser := p.start), false)
    case Some((s, items)) =>
      if eof && !p.eof(s) then (q.(parser := p.start), false) else
        var (rs, ok) := ApplyItems(q.received, items);
        (q.(parser := s, responseBuffer := [], received := rs), ok)
  }

  function ParseReceived<S>(p: Parser<S>, q: Query<S>): Query<S> {
    var (q1, ok) := ProcessResponse(p, q, q.responseStatus == RCompleted);
    var q2 := if ok then q1 else
      q1.(queryStatus := NeedSendCancel, responseStatus := RAborted, cancelMessage := "Failed to parse",
          received := SetErrors(q1.received, "Failed to parse"));
    if q2.responseStatus == RCompleted then q2.(received := SetErrors(q2.received, "Response not received"))
    else q2
  }

  /** 'r' (more to come), 'R' (the last piece), 'E' (refused). */
  datatype Kind = KindPart | KindLast | KindError

  function MessageText(data: seq<Byte>): string {
    seq(|data|, i requires 0 <= i < |data| => data[i] as char)
  }

  /** A compatibility byte precedes the first piece; `None` when it is not that byte, where
      an assertion ends the program. */
  function StripHeader(bytesReceived: nat, data: seq<Byte>): Option<seq<Byte>> {
    if bytesReceived != 0 || data == [] then Some(data)
    else if data[0] == HEADER_T then Some(data[1..])
    else None
  }

  /** `None` when the program ends. */
  function ReceiveOne<S>(p: Parser<S>, q: Query<S>, data: seq<Byte>, kind: Kind): Option<Query<S>> {
    if q.responseStatus != RRunning then Some(q)
    else if kind == KindError then
      Some(q.(queryStatus := QAborted, responseStatus := RAborted,
              received := SetErrors(q.received, MessageText(data))))
    else
      match StripHeader(q.bytesReceived, data)
      case None => None
      case Some(body) => Some(ParseReceived(p, WithBody(q, body, kind)))
  }

  function WithBody<S>(q: Query<S>, body: seq<Byte>, kind: Kind): Query<S> {
    q.(responseStatus := if kind == KindLast then RCompleted else RRunning,
       bytesReceived := (q.bytesReceived + |body|) % UINT_SIZE,
       responseBuffer := q.responseBuffer + body)
  }

  function CancelOne<S>(q: Query<S>, reason: string, callback: bool): Query<S> {
    if q.queryStatus in {NeedSendCancel, CancelWasSent, QAborted} then q
    else
      var q1 := q.(queryStatus := NeedSendCancel, cancelMessage := reason);
      if !callback then q1.(responseStatus := RCancelled)
      else q1.(responseStatus := RAborted, received := SetErrors(q.received, reason))
  }

  function TimeoutOne<S>(q: Query<S>, now: int, msg: string): Query<S> {
    if q.timeTimeout < now && q.responseStatus == RRunning then
      q.(queryStatus := NeedSendCancel, responseStatus := RAborted, abortMessage := msg, cancelMessage := msg,
         received := SetErrors(q.received, msg))
    else q
  }

  function DisconnectOne<S>(q: Query<S>): Query<S> {
    var q1 := q.(queryStatus := QAborted);
    if q.responseStatus == RRunning then
      q1.(responseStatus := RAborted, abortMessage := "Disconnected", received := SetErrors(q.received, "Disconnected"))
    else q1
  }

  predicate CanBeErased<S>(q: Query<S>) {
    && q.responseStatus != RRunning
    && q.queryStatus != NeedSendCancel
    && (q.responseStatus == RCancelled || forall c | 0 <= c < |q.received| :: q.received[c].wasRead)
  }

  /** Handing over command `c`: what the user gets, and what remains. */
  function Handed<S>(q: Query<S>, c: nat): (Query<S>, Delivery)
    requires c < |q.received|
  {
    var r := q.received[c];
    var rs := q.received[c := Received(true, r.status, [], "")];
    (q.(received := rs), Delivery(q.id, c, q.service, r.status, r.rows, r.err, AllDone(rs)))
  }

  /** Hands over the news of one query from command `c` on, when `n` items were already
      handed over in this round. */
  function CollectOne<S>(q: Query<S>, c: nat, n: nat, limit: nat): (r: (Query<S>, seq<Delivery>))
    requires c <= |q.received|
    decreases |q.received| - c
  {
    if c == |q.received| then (q, [])
    else if !HasNews(q.received[c]) then CollectOne(q, c + 1, n, limit)
    else
      var (q1, d) := Handed(q, c);
      if limit > 0 && n + 1 >= limit then (q1, [d]) else
        var (q2, ds) := CollectOne(q1, c + 1, n + 1, limit);
        (q2, [d] + ds)
  }

  /** All queries in turn. */
  function CollectAll<S>(qs: seq<Query<S>>, limit: nat): (r: (seq<Query<S>>, seq<Delivery>))
    ensures |r.0| == |qs|
    decreases |qs|
  {
    if qs == [] then ([], []) else
      var last := |qs| - 1;
      var (before, ds) := CollectAll(qs[..last], limit);
      if qs[last].responseStatus == RCancelled then (before + [qs[last]], ds) else
        var (q, ds1) := CollectOne(qs[last], 0, |ds|, limit);
        (before + [q], ds + ds1)
  }

  function Remaining<S>(qs: seq<Query<S>>): seq<Query<S>> {
    if qs == [] then [] else
      var last := |qs| - 1;
      Remaining(qs[..last]) + if CanBeErased(qs[last]) then [] else [qs[last]]
  }

  ghost predicate DistinctIds<S>(qs: seq<Query<S>>) {
    forall i, j | 0 <= i < j < |qs| :: qs[i].id != qs[j].id
  }

  /** The position of a query, or -1. */
  function IndexOf<S>(qs: seq<Query<S>>, id: int): (i: int)
    ensures if i < 0 then forall k | 0 <= k < |qs| :: qs[k].id != id else i < |qs| && qs[i].id == id
    ensures i >= -1
  {
    if qs == [] then -1
    else
      var j := IndexOf(qs[..|qs| - 1], id);
      if j >= 0 then j else if qs[|qs| - 1].id == id then |qs| - 1 else -1
  }

  lemma {:induction false} FirstStays<S>(qs: seq<Query<S>>, i: nat, id: int)
    requires i < |qs| && IndexOf(qs[..i + 1], id) == i
    ensures IndexOf(qs, id) == i
  {
    if |qs| == i + 1 {
      assert qs[..i + 1] == qs;
    } else {
      assert qs[..|qs| - 1][..i + 1] == qs[..i + 1];
      FirstStays(qs[..|qs| - 1], i, id);
    }
  }

  lemma {:induction false} RemainingIds<S(!new)>(qs: seq<Query<S>>)
    requires DistinctIds(qs)
    ensures DistinctIds(Remaining(qs))
    ensures forall q :: q in Remaining(qs) <==> q in qs && !CanBeErased(q)
  {
    if qs != [] {
      var last := |qs| - 1;
      RemainingIds(qs[..last]);
      assert forall q :: q in qs <==> q == qs[last] || q in qs[..last];
      forall q | q in Remaining(qs[..last])
        ensures q.id != qs[last].id
      {
        assert q in qs[..last];
        var k :| 0 <= k < last && qs[k] == q;
      }
    }
  }

  lemma CollectOneKeeps<S>(q: Query<S>, c: nat, n: nat, limit: nat)
    requires c <= |q.received|
    ensures var q1 := CollectOne(q, c, n, limit).0;
            q1 == q.(received := q1.received) && |q1.received| == |q.received|
    decreases |q.received| - c
  {
  }

  lemma CollectAllIds<S>(qs: seq<Query<S>>, limit: nat)
    ensures forall i | 0 <= i < |qs| :: CollectAll(qs, limit).0[i].id == qs[i].id
    decreases |qs|
  {
    if qs != [] {
      var last := |qs| - 1;
      CollectAllIds(qs[..last], limit);
      CollectOneKeeps(qs[last], 0, |CollectAll(qs[..last], limit).1|, limit);
    }
  }

  /** What one call of generate_data_to_send put in the outgoing message. */
  datatype Sent = Nothing | Query_(id: int, serviceId: int, data: seq<Byte>, last: bool) | Cancel(id: int, serviceId: int, text: string)

  /** What a query sends into a buffer with so much room: a cancel, or a non-empty piece of
      the query, which is final ('Q') when it is the rest of a prepared one. */
  function SendFrom<S>(q: Query<S>, room: int): (Query<S>, Sent) {
    if q.queryStatus == NeedSendCancel then
      var n := Taken(room, |q.cancelMessage|, 0);
      if n < 0 then (q, Nothing)
      else (q.(queryStatus := CancelWasSent), Cancel(q.id, q.serviceId, q.cancelMessage[..n]))
    else if q.queryStatus in {QRunning, QPrepared} && q.queryBuffer != [] then
      var n := Taken(room, |q.queryBuffer|, 1);
      if n < 0 then (q, Nothing)
      else (q.(queryBuffer := q.queryBuffer[n..]),
            Query_(q.id, q.serviceId, q.queryBuffer[..n], n == |q.queryBuffer| && q.queryStatus == QPrepared))
    else (q, Nothing)
  }

  /** The first query that can send does, and no other changes. */
  ghost predicate FirstSends<S>(qs: seq<Query<S>>, room: nat -> int, i: nat, qs1: seq<Query<S>>, s: Sent)
    requires i < |qs|
  {
    && (forall j: nat | j < i :: SendFrom(qs[j], room(j)).1 == Nothing)
    && s == SendFrom(qs[i], room(i)).1 != Nothing && qs1 == qs[i := SendFrom(qs[i], room(i)).0]
  }

  // ----- what that means -----

  /** The commands that are still open end with this error, to be told to the user; what
      ended before stays as it is. */
  ghost predicate OpenOnesFail(rs: seq<Received>, rs1: seq<Received>, msg: string) {
    && |rs1| == |rs|
    && forall c | 0 <= c < |rs| ::
         rs1[c] == if rs[c].status == ROWS then Received(false, ERROR, rs[c].rows, msg) else rs[c]
  }

  predicate AllGood(items: seq<Item>) { forall k | 0 <= k < |items| :: items[k].Good? }

  lemma {:induction false} AppliedIff(rs: seq<Received>, items: seq<Item>)
    ensures ApplyItems(rs, items).1 <==> AllGood(items)
    decreases |items|
  {
    if items != [] && items[0].Good? {
      AppliedIff(AddToQueryState(rs, items[0].rec), items[1..]);
      assert AllGood(items) <==> AllGood(items[1..]) by {
        assert forall k | 1 <= k < |items| :: items[k] == items[1..][k - 1];
      }
    }
  }

  lemma ErrorsMean(rs: seq<Received>, msg: string)
    ensures OpenOnesFail(rs, SetErrors(rs, msg), msg)
  {
  }

  /** The text is read on from where it ended before. If it is no sequence of records, or the
      last piece ends inside one, the query ends with a cancel to send; otherwise no command
      is open after the last piece. */
  ghost predicate ReadsAs<S>(p: Parser<S>, q: Query<S>, text: seq<Byte>, last: bool, q1: Query<S>) {
    var fed := Feed(p, q.parser, text);
    if fed.None? || (last && !p.eof(fed.value.0)) then GivenUp(q, q1) && OpenOnesFail(q.received, q1.received, "Failed to parse")
    else
      var (s, items) := fed.value;
      var filed := ApplyItems(q.received, items).0;
      if !AllGood(items) then GivenUp(q, q1) && OpenOnesFail(filed, q1.received, "Failed to parse")
      else
        && q1.responseStatus == (if last then RCompleted else RRunning) && q1.queryStatus == q.queryStatus
        && q1.responseBuffer == [] && q1.parser == s
        && (if last then OpenOnesFail(filed, q1.received, "Response not received") else q1.received == filed)
  }

  predicate GivenUp<S>(q: Query<S>, q1: Query<S>) {
    q1.responseStatus == RAborted && q1.queryStatus == NeedSendCancel && q1.cancelMessage == "Failed to parse" && q1.id == q.id
  }

  lemma ReadMeans<S>(p: Parser<S>, q: Query<S>)
    requires q.responseStatus in {RRunning, RCompleted}
    ensures ReadsAs(p, q, q.responseBuffer, q.responseStatus == RCompleted, ParseReceived(p, q))
  {
    var r := ProcessResponse(p, q, q.responseStatus == RCompleted).0.received;
    ErrorsMean(r, "Failed to parse");
    ErrorsMean(r, "Response not received");
    var fed := Feed(p, q.parser, q.responseBuffer);
    if fed.Some? { AppliedIff(q.received, fed.value.1); }
    hide Feed, ApplyItems, AllGood, OpenOnesFail, SetErrors;
  }

  /** A refusal ends a running query with its text as error; any other message is read,
      without the byte before the first. If that is not there the program ends. */
  lemma ReceiveMeans<S>(p: Parser<S>, q: Query<S>, data: seq<Byte>, kind: Kind)
    requires q.responseStatus == RRunning
    ensures match ReceiveOne(p, q, data, kind)
            case None => kind != KindError && q.bytesReceived == 0 && data != [] && data[0] != 116
            case Some(q1) =>
              if kind == KindError then
                && q1 == q.(queryStatus := QAborted, responseStatus := RAborted, received := q1.received)
                && OpenOnesFail(q.received, q1.received, MessageText(data))
              else if q.bytesReceived == 0 && data != [] then
                data[0] == 116 && ReadsAs(p, q, q.responseBuffer + data[1..], kind == KindLast, q1)
              else ReadsAs(p, q, q.responseBuffer + data, kind == KindLast, q1)
  {
    if kind == KindError {
      ErrorsMean(q.received, MessageText(data));
    } else if StripHeader(q.bytesReceived, data).Some? {
      var body := StripHeader(q.bytesReceived, data).value;
      ReadMeans(p, WithBody(q, body, kind));
      ReadsSame(p, q, WithBody(q, body, kind), q.responseBuffer + body, kind == KindLast, ParseReceived(p, WithBody(q, body, kind)));
    }
    hide ParseReceived, ReadsAs, OpenOnesFail;
  }

  lemma ReadsSame<S>(p: Parser<S>, q: Query<S>, q0: Query<S>, text: seq<Byte>, last: bool, q1: Query<S>)
    requires ReadsAs(p, q0, text, last, q1)
    requires q0.id == q.id && q0.parser == q.parser && q0.received == q.received && q0.queryStatus == q.queryStatus
    ensures ReadsAs(p, q, text, last, q1)
  {
  }

  /** A query is cancelled once; then it has a cancel to send. With a callback its open
      commands fail, without one the user hears no more of it. */
  lemma CancelMeans<S>(q: Query<S>, reason: string, callback: bool)
    ensures var q1 := CancelOne(q, reason, callback);
            if q.queryStatus in {NeedSendCancel, CancelWasSent, QAborted} then q1 == q
            else
              && q1 == q.(queryStatus := NeedSendCancel, cancelMessage := reason, responseStatus := q1.responseStatus,
                          received := q1.received)
              && (if callback then q1.responseStatus == RAborted && OpenOnesFail(q.received, q1.received, reason)
                  else q1.responseStatus == RCancelled && q1.received == q.received)
  {
  }

  /** A query that runs past its deadline is aborted, its open commands fail, and it has a
      cancel to send; any other stays as it is. */
  lemma TimeoutMeans<S>(q: Query<S>, now: int, msg: string)
    ensures var q1 := TimeoutOne(q, now, msg);
            if q.timeTimeout < now && q.responseStatus == RRunning then
              && q1 == q.(queryStatus := NeedSendCancel, responseStatus := RAborted, abortMessage := msg,
                          cancelMessage := msg, received := q1.received)
              && OpenOnesFail(q.received, q1.received, msg)
            else q1 == q
  {
  }

  /** When the link is lost nothing more is sent, and a running query is aborted. */
  lemma DisconnectMeans<S>(q: Query<S>)
    ensures var q1 := DisconnectOne(q);
            && q1.queryStatus == QAborted
            && (if q.responseStatus == RRunning then
                  && q1 == q.(queryStatus := QAborted, responseStatus := RAborted, abortMessage := "Disconnected",
                              received := q1.received)
                  && OpenOnesFail(q.received, q1.received, "Disconnected")
                else q1 == q.(queryStatus := QAborted))
  {
  }

  function AtMost(room: int, size: nat): nat
    requires room >= 0
  {
    if room < size then room else size
  }

  /** A query with a cancel to send sends that, once; one with text to send sends as much as
      there is room for, marked as the end exactly if it is the end of a prepared query. */
  ghost predicate SendsAs<S>(q: Query<S>, room: int, q1: Query<S>, s: Sent) {
    if q.queryStatus == NeedSendCancel && room >= 0 then
      && s == Cancel(q.id, q.serviceId, q.cancelMessage[..AtMost(room, |q.cancelMessage|)])
      && q1 == q.(queryStatus := CancelWasSent)
    else if q.queryStatus in {QRunning, QPrepared} && q.queryBuffer != [] && room >= 1 then
      var n := AtMost(room, |q.queryBuffer|);
      && s == Query_(q.id, q.serviceId, q.queryBuffer[..n], n == |q.queryBuffer| && q.queryStatus == QPrepared)
      && q1 == q.(queryBuffer := q.queryBuffer[n..])
    else s == Nothing && q1 == q
  }

  lemma SendMeans<S>(q: Query<S>, room: int)
    ensures SendsAs(q, room, SendFrom(q, room).0, SendFrom(q, room).1)
  {
  }

  /** So a cancelled query sends its cancel, as soon as there is room, and never again. */
  lemma CancelIsSent<S>(q: Query<S>, reason: string, callback: bool, room: int)
    requires q.queryStatus in {QRunning, QPrepared} && room >= 0
    ensures var (q1, s) := SendFrom(CancelOne(q, reason, callback), room);
            s == Cancel(q.id, q.serviceId, reason[..AtMost(room, |reason|)]) && forall later :: SendFrom(q1, later).1 == Nothing
  {
  }

  class MyQueryList<S(!new)> {
    const parser: Parser<S>
    var queries: seq<Query<S>>

    constructor (parser: Parser<S>)
      ensures Valid() && this.parser == parser && queries == []
    {
      this.parser := parser;
      queries := [];
    }

    ghost predicate Valid()
      reads this
    {
      DistinctIds(queries)
    }

    method Find(id: int) returns (i: int)
      ensures i == IndexOf(queries, id)
    {
      i := 0;
      while i < |queries|
        invariant 0 <= i <= |queries|
        invariant IndexOf(queries[..i], id) == -1
      {
        assert queries[..i + 1][..i] == queries[..i];
        if queries[i].id == id {
          FirstStays(queries, i, id);
          return;
        }
        i := i + 1;
      }
      assert queries[..i] == queries;
      i := -1;
    }

    method AddNewQuery(id: int, serviceId: int, service: string, text: seq<Byte>, commands: nat, timeout: int, now: int)
      requires Valid()
      modifies this
      ensures Valid()
      ensures queries == if IndexOf(old(queries), id) >= 0 then old(queries)
                         else old(queries) + [NewQuery(parser, id, serviceId, service, text, commands, timeout, now)]
      ensures |queries| > |old(queries)| ==>
                queries[|old(queries)|] == Query(id, serviceId, service, now, now + timeout, QPrepared, "", text, [], RRunning, "",
                                                 seq(commands, _ => Received(false, ROWS, [], "")), parser.start, 0)
    {
      var i := Find(id);
      if i >= 0 { return; }
      queries := queries + [NewQuery(parser, id, serviceId, service, text, commands, timeout, now)];
    }

    /** `None`: an assertion has failed. */
    method ReceiveData(id: int, serviceId: int, data: seq<Byte>, kind: Kind) returns (news: Option<bool>)
      requires Valid()
      modifies this
      ensures Valid()
      ensures var i := IndexOf(old(queries), id);
              if i >= 0 && old(queries)[i].serviceId == serviceId && old(queries)[i].responseStatus == RRunning then
                match ReceiveOne(parser, old(queries)[i], data, kind)
                case None => news == None && queries == old(queries)
                case Some(q) => news == Some(true) && queries == old(queries)[i := q]
              else news == Some(false) && queries == old(queries)
    {
      var i := Find(id);
      if i < 0 { return Some(false); }
      var q := queries[i];
      if q.serviceId != serviceId { return Some(false); }
      if q.responseStatus == RCancelled { return Some(false); }
      if q.responseStatus == RCompleted { return Some(false); }
      if q.responseStatus == RAborted { return Some(false); }
      var r := ReceiveInto(q, data, kind);
      if r.None? { return None; }
      ReceiveKeepsId(parser, q, data, kind);
      queries := queries[i := r.value];
      news := Some(true);
    }

    /** The message is for a query that is still running. */
    method ReceiveInto(q0: Query<S>, data: seq<Byte>, kind: Kind) returns (r: Option<Query<S>>)
      requires q0.responseStatus == RRunning
      ensures r == ReceiveOne(parser, q0, data, kind)
    {
      var q := q0;
      if kind == KindPart || kind == KindLast {
        if kind == KindLast { q := q.(responseStatus := RCompleted); }
        var body := data;
        if q.bytesReceived == 0 && |data| > 0 {
          if data[0] != HEADER_T { return None; }
          body := data[1..];
        }
        q := q.(bytesReceived := (q.bytesReceived + |body|) % UINT_SIZE);
        q := q.(responseBuffer := q.responseBuffer + body);
        hide ParseReceived;
        r := Some(ParseReceived(parser, q));
      } else {
        q := q.(queryStatus := QAborted, responseStatus := RAborted);
        r := Some(q.(received := SetErrors(q.received, MessageText(data))));
      }
    }

    method CancelQuery(id: int, reason: string, callback: bool)
      requires Valid()
      modifies this
      ensures Valid()
      ensures var i := IndexOf(old(queries), id);
              if i < 0 || old(queries)[i].queryStatus in {NeedSendCancel, CancelWasSent, QAborted} then
                queries == old(queries)
              else queries == Remaining(old(queries)[i := CancelOne(old(queries)[i], reason, callback)])
    {
      var i := Find(id);
      if i < 0 { return; }
      var q := queries[i];
      if q.queryStatus == NeedSendCancel || q.queryStatus == CancelWasSent { return; }
      if q.queryStatus == QAborted { return; }
      q := q.(queryStatus := NeedSendCancel, cancelMessage := reason);
      if !callback {
        q := q.(responseStatus := RCancelled);
      } else {
        q := q.(responseStatus := RAborted);
        q := q.(received := SetErrors(q.received, q.cancelMessage));
      }
      assert q == CancelOne(queries[i], reason, callback);
      queries := queries[i := q];
      RemoveFinishedQueries();
    }

    method CheckTimeout(now: int, msg: Query<S> -> string) returns (changed: bool)
      requires Valid()
      modifies this
      ensures Valid() && |queries| == |old(queries)|
      ensures forall i | 0 <= i < |queries| :: queries[i] == TimeoutOne(old(queries)[i], now, msg(old(queries)[i]))
      ensures changed <==> exists i :: 0 <= i < |queries| && old(queries)[i].timeTimeout < now
                                       && old(queries)[i].responseStatus == RRunning
    {
      changed := false;
      for i := 0 to |queries|
        invariant |queries| == |old(queries)|
        invariant forall k | 0 <= k < |queries| ::
                    queries[k] == if k < i then TimeoutOne(old(queries)[k], now, msg(old(queries)[k])) else old(queries)[k]
        invariant changed <==> exists k :: 0 <= k < i && old(queries)[k].timeTimeout < now
                                           && old(queries)[k].responseStatus == RRunning
      {
        var q := queries[i];
        if q.timeTimeout < now {
          if q.responseStatus == RRunning {
            var text := msg(q);
            q := q.(queryStatus := NeedSendCancel, responseStatus := RAborted, abortMessage := text, cancelMessage := text);
            q := q.(received := SetErrors(q.received, text));
            changed := true;
          }
        }
        queries := queries[i := q];
      }
    }

    method Disconnect()
      requires Valid()
      modifies this
      ensures Valid() && |queries| == |old(queries)|
      ensures forall i | 0 <= i < |queries| :: queries[i] == DisconnectOne(old(queries)[i])
      ensures forall i | 0 <= i < |queries| :: queries[i].queryStatus == QAborted && queries[i].responseStatus != RRunning
    {
      for i := 0 to |queries|
        invariant |queries| == |old(queries)|
        invariant forall k | 0 <= k < |queries| ::
                    queries[k] == if k < i then DisconnectOne(old(queries)[k]) else old(queries)[k]
      {
        var q := queries[i].(queryStatus := QAborted);
        if q.responseStatus == RRunning {
          q := q.(responseStatus := RAborted, abortMessage := "Disconnected");
          q := q.(received := SetErrors(q.received, "Disconnected"));
        }
        queries := queries[i := q];
      }
    }

    method RemoveFinishedQueries()
      requires Valid()
      modifies this
      ensures Valid() && queries == Remaining(old(queries))
    {
      RemainingIds(queries);
      var kept := [];
      for i := 0 to |queries|
        invariant queries == old(queries)
        invariant kept == Remaining(queries[..i])
      {
        assert queries[..i + 1][..i] == queries[..i];
        if !CanBeErased(queries[i]) { kept := kept + [queries[i]]; }
      }
      assert queries[..|queries|] == queries;
      queries := kept;
    }

    /** The news of every query in turn, and then finished queries are dropped. */
    method GetNewResponses(limit: nat) returns (result: seq<Delivery>)
      requires Valid()
      modifies this
      ensures Valid()
      ensures (queries, result) == (var (qs, ds) := CollectAll(old(queries), limit); (Remaining(qs), ds))
    {
      result := [];
      CollectAllIds(queries, limit);
      for i := 0 to |queries|
        invariant |queries| == |old(queries)| && queries[i..] == old(queries)[i..]
        invariant (queries[..i], result) == CollectAll(old(queries)[..i], limit)
      {
        assert old(queries)[..i + 1][..i] == old(queries)[..i];
        assert queries[i] == queries[i..][0] == old(queries)[i] && queries[i..][1..] == old(queries)[i..][1..];
        if queries[i].responseStatus != RCancelled {
          result := CollectInto(i, result, limit);
        }
        assert queries[..i + 1] == queries[..i] + [queries[i]];
      }
      assert old(queries)[..|queries|] == old(queries) && queries[..|queries|] == queries;
      RemoveFinishedQueries();
    }

    method CollectInto(i: nat, already: seq<Delivery>, limit: nat) returns (result: seq<Delivery>)
      requires i < |queries|
      modifies this
      ensures var (q, ds) := CollectOne(old(queries)[i], 0, |already|, limit);
              queries == old(queries)[i := q] && result == already + ds
    {
      result := already;
      ghost var (qEnd, dsEnd) := CollectOne(queries[i], 0, |already|, limit);
      var c := 0;
      while c < |queries[i].received|
        invariant |queries| == |old(queries)| && queries == old(queries)[i := queries[i]]
        invariant c <= |queries[i].received|
        invariant var (q, ds) := CollectOne(queries[i], c, |result|, limit);
                  qEnd == q && already + dsEnd == result + ds
      {
        if HasNews(queries[i].received[c]) {
          var (q, d) := Handed(queries[i], c);
          ghost var (_, ds) := CollectOne(queries[i], c, |result|, limit);
          assert result + ds == (result + [d]) + ds[1..];
          queries := queries[i := q];
          result := result + [d];
          if limit > 0 && |result| >= limit { return; }
        }
        c := c + 1;
      }
    }

    /** At most one message, and none when the buffer has no more than the header. `room` is
        what it has for the message of each query. */
    method GenerateDataToSend(maxSize: nat, room: nat -> int) returns (sent: Sent)
      requires Valid()
      modifies this
      ensures Valid()
      ensures maxSize <= QUERY_HEADER_LENGTH ==> sent == Nothing
      ensures sent == Nothing ==> queries == old(queries)
      ensures sent == Nothing && maxSize > QUERY_HEADER_LENGTH ==>
                forall i: nat | i < |queries| :: SendFrom(queries[i], room(i)).1 == Nothing
      ensures sent != Nothing ==>
                exists i: nat :: i < |old(queries)| && FirstSends(old(queries), room, i, queries, sent)
      ensures sent != Nothing ==>
                exists i: nat, q :: i < |old(queries)| && SendsAs(old(queries)[i], room(i), q, sent) && queries == old(queries)[i := q]
    {
      forall i | 0 <= i < |queries| ensures SendsAs(queries[i], room(i), SendFrom(queries[i], room(i)).0, SendFrom(queries[i], room(i)).1) {
        SendMeans(queries[i], room(i));
      }
      hide SendsAs;
      if maxSize <= QUERY_HEADER_LENGTH { return Nothing; }
      for i := 0 to |queries|
        invariant queries == old(queries)
        invariant forall j: nat | j < i :: SendFrom(queries[j], room(j)).1 == Nothing
      {
        var q := queries[i];
        if q.queryStatus == NeedSendCancel {
          var len := Taken(room(i), |q.cancelMessage|, 0);
          if len >= 0 {
            queries := queries[i := q.(queryStatus := CancelWasSent)];
            sent := Cancel(q.id, q.serviceId, q.cancelMessage[..len]);
            assert FirstSends(old(queries), room, i, queries, sent);
            return;
          }
        }
        if q.queryStatus == QRunning || q.queryStatus == QPrepared {
          if |q.queryBuffer| > 0 {
            var len := Taken(room(i), |q.queryBuffer|, 1);
            if len >= 0 {
              queries := queries[i := q.(queryBuffer := q.queryBuffer[len..])];
              sent := Query_(q.id, q.serviceId, q.queryBuffer[..len], len == |q.queryBuffer| && q.queryStatus == QPrepared);
              assert FirstSends(old(queries), room, i, queries, sent);
              return;
            }
          }
        }
      }
      sent := Nothing;
    }
  }

  function NewQuery<S>(p: Parser<S>, id: int, serviceId: int, service: string, text: seq<Byte>, commands: nat,
                       timeout: int, now: int): Query<S>
  {
    Query(id, serviceId, service, now, now + timeout, QPrepared, "", text, [], RRunning, "",
          FreshResponses(commands), p.start, 0)
  }

  lemma ReceiveKeepsId<S>(p: Parser<S>, q: Query<S>, data: seq<Byte>, kind: Kind)
    ensures ReceiveOne(p, q, data, kind).Some? ==> ReceiveOne(p, q, data, kind).value.id == q.id
  {
  }
}
