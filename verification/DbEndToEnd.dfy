/** One query between two nodes joined by two FIFO links: the text of the query goes up in
    pieces, the records of its answer come down in pieces, and either side may cancel, give
    up or lose the link at any moment. */
module DbEndToEnd {
  import opened Basics
  import opened DbCommon
  import opened DbRecords
  import Q = DbQueryList
  import R = DbResponseList
  import L = DbLifecycle

  datatype Up = UQuery(data: seq<Byte>, last: bool) | UCancel(text: string)
  datatype Down = DResponse(data: seq<Byte>, last: bool) | DRefusal(data: seq<Byte>)

  /** The asking side, the answering side, the links, and what happened so far: the query
      text that arrived, whether a cancel arrived, the answer text taken from the link, how
      many records were read from it, whether a byte of it was taken for the compatibility
      byte by mistake, the records written, and the responses the answering user gave. */
  datatype Net<S> = Net(
    life: L.Life<S>, linked: bool,
    answer: Option<R.Answer>, created: nat, reachable: bool,
    up: seq<Up>, down: seq<Down>,
    got: seq<Byte>, cancelSeen: bool, consumed: seq<Byte>, seen: nat, misread: bool,
    recs: seq<Record>, supplied: seq<Record>)

  datatype Config<!S> = Config(p: Parser<S>, w: R.Wire, text: seq<Byte>, n: nat, id: int, serviceId: int, service: string)

  function Init<S>(cfg: Config<S>, timeout: int, now: int): Net<S> {
    var q := Q.NewQuery(cfg.p, cfg.id, cfg.serviceId, cfg.service, cfg.text, cfg.n, timeout, now);
    Net(L.Start(q), true, None, 0, true, [], [], [], false, [], 0, false, [], [])
  }

  datatype Action =
    | AskSend(size: nat)
    | AskReceive
    | AskCancel(reason: string, callback: bool)
    | AskTimeout(now: int, msg: string)
    | AskCollect(already: nat, limit: nat)
    | AskSweep
    | AskDisconnect
    | AnswerReceive(userId: int)
    | AnswerRespond(rec: Record)
    | AnswerSend(room: int)
    | AnswerCollectCancelled
    | AnswerDisconnect

  // ----- the asking side -----

  predicate Awaiting<S>(l: L.Life<S>) {
    !l.erased && !l.crashed && l.q.responseStatus == Q.RRunning
  }

  function DoAskSend<S>(cfg: Config<S>, net: Net<S>, size: nat): Net<S> {
    var q := net.life.q;
    if net.life.erased || net.life.crashed then net
    else if q.queryStatus == Q.NeedSendCancel then
      net.(life := L.Step(cfg.p, net.life, L.EvCancelSent), up := net.up + [UCancel(q.cancelMessage)])
    else if q.queryStatus in {Q.QRunning, Q.QPrepared} && 0 < size <= |q.queryBuffer| then
      net.(life := L.Step(cfg.p, net.life, L.EvQuerySent(size)),
           up := net.up + [UQuery(q.queryBuffer[..size], q.queryStatus == Q.QPrepared && size == |q.queryBuffer|)])
    else net
  }

  /** How many records can be read from the text after its compatibility byte. */
  function ReadCount<S>(p: Parser<S>, text: seq<Byte>): nat {
    if text == [] then 0 else
      match Feed(p, p.start, text[1..])
      case None => 0
      case Some((_, items)) => |items|
  }

  /** A later piece is treated as if it were the first. */
  predicate Misread<S>(net: Net<S>, data: seq<Byte>) {
    Awaiting(net.life) && net.consumed != [] && Q.StripHeader(net.life.q.bytesReceived, data) != Some(data)
  }

  function AfterMessage<S>(cfg: Config<S>, l: L.Life<S>, m: Down): L.Life<S> {
    match m
    case DResponse(data, last) => L.Step(cfg.p, l, L.EvReceive(data, if last then Q.KindLast else Q.KindPart))
    case DRefusal(data) => L.Step(cfg.p, l, L.EvReceive(data, Q.KindError))
  }

  function DoAskReceive<S>(cfg: Config<S>, net: Net<S>): Net<S> {
    if !net.linked || net.down == [] || net.life.crashed then net else
      var life := AfterMessage(cfg, net.life, net.down[0]);
      if life.crashed then net.(life := life) else
        var net1 := net.(life := life, down := net.down[1..]);
        match net.down[0]
        case DResponse(data, last) =>
          net1.(consumed := net.consumed + data,
                misread := net.misread || Misread(net, data),
                seen := if Awaiting(net.life) then ReadCount(cfg.p, net.consumed + data) else net.seen)
        case DRefusal(_) => net1
  }

  // ----- the answering side -----

  function DoAnswerReceive<S>(cfg: Config<S>, net: Net<S>, userId: int): Net<S> {
    if !net.reachable || net.up == [] then net else
      var net1 := net.(up := net.up[1..]);
      match net.up[0]
      case UQuery(data, last) =>
        var a := if net.answer.Some? then net.answer.value else R.NewAnswer(userId, cfg.id, cfg.serviceId, cfg.service);
        net1.(answer := Some(R.ReceiveQuery(cfg.w, a, data, last)),
              created := net.created + if net.answer.None? then 1 else 0,
              got := net.got + data)
      case UCancel(text) =>
        net1.(answer := if net.answer.None? then None else Some(R.ReceiveCancel(net.answer.value, text)),
              cancelSeen := true)
  }

  /** A response counts when its command is still open. */
  predicate Accepted(a: R.Answer, rec: Record) {
    !a.allPrepared && !a.cancelled && rec.cmd < |a.responses| && a.responses[rec.cmd].status == ROWS
  }

  /** The user can only answer a query that was offered to him, so one that was parsed. */
  function DoRespond<S>(net: Net<S>, rec: Record): Net<S> {
    if net.answer.None? || net.answer.value.query.None? then net else
      net.(answer := Some(R.SendResponse(net.answer.value, rec)),
           supplied := if Accepted(net.answer.value, rec) then net.supplied + [rec] else net.supplied)
  }

  function TextBytes(s: string): seq<Byte> {
    seq(|s|, i requires 0 <= i < |s| => s[i] as int % 256)
  }

  /** What the list of answers sends into a buffer with so much room. */
  function SendOne(w: R.Wire, a: R.Answer, room: int): (Option<R.Answer>, seq<Down>) {
    var (a1, s) := R.SendFrom(w, a, room);
    (a1, match s
         case Nothing => []
         case Response(_, _, data, last) => [DResponse(data, last)]
         case Refusal(_, _, text) => [DRefusal(TextBytes(text))])
  }

  /** What gets written into the answer when its news are serialised. */
  function NewlyWritten(a: R.Answer): seq<Record> {
    if a.cancelled || !a.queryCompleted then [] else R.FlushRecords(a.responses, |a.responses|)
  }

  function DoAnswerSend<S>(cfg: Config<S>, net: Net<S>, room: int): Net<S> {
    if net.answer.None? then net else
      var (a, msgs) := SendOne(cfg.w, net.answer.value, room);
      net.(answer := a, down := net.down + msgs, recs := net.recs + NewlyWritten(net.answer.value))
  }

  function Next<S>(cfg: Config<S>, net: Net<S>, act: Action): Net<S> {
    match act
    case AskSend(size) => DoAskSend(cfg, net, size)
    case AskReceive => DoAskReceive(cfg, net)
    case AskCancel(reason, callback) => net.(life := L.Step(cfg.p, net.life, L.EvCancel(reason, callback)))
    case AskTimeout(now, msg) => net.(life := L.Step(cfg.p, net.life, L.EvTimeout(now, msg)))
    case AskCollect(already, limit) => net.(life := L.Step(cfg.p, net.life, L.EvCollect(already, limit)))
    case AskSweep => net.(life := L.Step(cfg.p, net.life, L.EvSweep))
    case AskDisconnect => net.(life := L.Step(cfg.p, net.life, L.EvDisconnect), linked := false)
    case AnswerReceive(userId) => DoAnswerReceive(cfg, net, userId)
    case AnswerRespond(rec) => DoRespond(net, rec)
    case AnswerSend(room) => DoAnswerSend(cfg, net, room)
    case AnswerCollectCancelled =>
      if net.answer.Some? && net.answer.value.cancelled then net.(answer := None) else net
    case AnswerDisconnect =>
      net.(reachable := false, answer := if net.answer.None? then None else Some(R.DisconnectOne(net.answer.value)))
  }

  ghost predicate Follows<S>(cfg: Config<S>, net: Net<S>, net1: Net<S>) {
    exists act :: net1 == Next(cfg, net, act)
  }

  ghost predicate StepAt<S>(cfg: Config<S>, nets: seq<Net<S>>, i: nat)
    requires 0 < i < |nets|
  {
    Follows(cfg, nets[i - 1], nets[i])
  }

  /** A run: the system begins, and each state follows from the one before by some action. */
  ghost predicate IsRun<S>(cfg: Config<S>, nets: seq<Net<S>>) {
    && |nets| > 0
    && (exists timeout, now :: nets[0] == Init(cfg, timeout, now))
    && forall i: nat | 0 < i < |nets| :: StepAt(cfg, nets, i)
  }

  /** The rows handed to the asking user for command `c`. */
  function Given(log: seq<Q.Delivery>, c: nat): seq<Row> {
    if log == [] then [] else
      var last := log[|log| - 1];
      Given(log[..|log| - 1], c) + if last.cmd == c then last.rows else []
  }

  // ----- the invariant: the query on its way up -----

  predicate Stopped<S>(q: Q.Query<S>) {
    q.queryStatus in {Q.CancelWasSent, Q.QAborted}
  }

  /** What arrived, what is on the link and what is still to be sent make up the text; the
      piece that completes it says so; a cancel is the last message ever. */
  predicate UpOk(text: seq<Byte>, got: seq<Byte>, up: seq<Up>, rest: seq<Byte>, stopped: bool)
    decreases |up|
  {
    if up == [] then got + rest == text
    else
      match up[0]
      case UQuery(data, last) =>
        data != [] && (last <==> got + data == text) && UpOk(text, got + data, up[1..], rest, stopped)
      case UCancel(_) => stopped && up[1..] == [] && got + rest == text
  }

  lemma {:induction false} UpLength(text: seq<Byte>, got: seq<Byte>, up: seq<Up>, rest: seq<Byte>, stopped: bool)
    requires UpOk(text, got, up, rest, stopped)
    ensures |got| + |rest| <= |text|
    decreases |up|
  {
    if up != [] && up[0].UQuery? {
      UpLength(text, got + up[0].data, up[1..], rest, stopped);
    }
  }

  lemma {:induction false} UpStops(text: seq<Byte>, got: seq<Byte>, up: seq<Up>, rest: seq<Byte>)
    requires UpOk(text, got, up, rest, false)
    ensures UpOk(text, got, up, rest, true)
    decreases |up|
  {
    if up != [] && up[0].UQuery? {
      UpStops(text, got + up[0].data, up[1..], rest);
    }
  }

  lemma {:induction false} UpSends(text: seq<Byte>, got: seq<Byte>, up: seq<Up>, rest: seq<Byte>, size: nat)
    requires UpOk(text, got, up, rest, false) && 0 < size <= |rest|
    ensures UpOk(text, got, up + [UQuery(rest[..size], size == |rest|)], rest[size..], false)
    decreases |up|
  {
    var m := UQuery(rest[..size], size == |rest|);
    assert rest[..size] + rest[size..] == rest;
    if up == [] {
      assert ([] + [m])[1..] == [];
      assert (got + m.data) + rest[size..] == got + rest;
    } else {
      assert (up + [m])[0] == up[0] && (up + [m])[1..] == up[1..] + [m];
      if up[0].UQuery? {
        UpSends(text, got + up[0].data, up[1..], rest, size);
      }
    }
  }

  lemma {:induction false} UpCancels(text: seq<Byte>, got: seq<Byte>, up: seq<Up>, rest: seq<Byte>, m: Up)
    requires UpOk(text, got, up, rest, false) && m.UCancel?
    ensures UpOk(text, got, up + [m], rest, true)
    decreases |up|
  {
    if up == [] {
      assert ([] + [m])[1..] == [];
    } else {
      assert (up + [m])[0] == up[0] && (up + [m])[1..] == up[1..] + [m];
      if up[0].UQuery? {
        UpCancels(text, got + up[0].data, up[1..], rest, m);
      }
    }
  }

  // ----- the invariant: the answer on its way down -----

  /** What was taken and what is on the link is an initial part of the answer; the last
      piece completes it, is the last message, and is sent when all is `ended`. A refusal
      is the last message, too. `gone`: the answering side has dropped the query. */
  predicate DownOk(taken: seq<Byte>, down: seq<Down>, full: seq<Byte>, gone: bool, ended: bool)
    decreases |down|
  {
    if down == [] then taken <= full
    else
      match down[0]
      case DResponse(data, last) =>
        && (if taken == [] then |data| >= 2 else data != [])
        && (last ==> down[1..] == [] && gone && ended && taken + data == full)
        && DownOk(taken + data, down[1..], full, gone, ended)
      case DRefusal(_) => gone && taken <= full && down[1..] == []
  }

  /** The text that has left the answering side. */
  function Left(taken: seq<Byte>, down: seq<Down>): seq<Byte>
    decreases |down|
  {
    if down == [] then taken
    else Left(if down[0].DResponse? then taken + down[0].data else taken, down[1..])
  }

  lemma {:induction false} DownPrefix(taken: seq<Byte>, down: seq<Down>, full: seq<Byte>, gone: bool, ended: bool)
    requires DownOk(taken, down, full, gone, ended)
    ensures taken <= full && taken <= Left(taken, down)
    ensures down != [] && down[0].DResponse? ==> Left(taken, down) != []
    decreases |down|
  {
    if down != [] && down[0].DResponse? {
      DownPrefix(taken + down[0].data, down[1..], full, gone, ended);
      assert taken <= taken + down[0].data;
    }
  }

  lemma {:induction false} DownGrows(taken: seq<Byte>, down: seq<Down>, full: seq<Byte>, full1: seq<Byte>,
                                     gone1: bool, ended: bool, ended1: bool)
    requires DownOk(taken, down, full, false, ended) && full <= full1
    ensures DownOk(taken, down, full1, gone1, ended1)
    decreases |down|
  {
    if down != [] {
      DownGrows(taken + down[0].data, down[1..], full, full1, gone1, ended, ended1);
    }
  }

  lemma {:induction false} DownSends(taken: seq<Byte>, down: seq<Down>, full: seq<Byte>, data: seq<Byte>, last: bool,
                                     gone: bool, ended: bool)
    requires DownOk(taken, down, full, false, false)
    requires Left(taken, down) + data <= full && (if Left(taken, down) == [] then |data| >= 2 else data != [])
    requires last ==> gone && ended && Left(taken, down) + data == full
    ensures DownOk(taken, down + [DResponse(data, last)], full, gone, ended)
    ensures Left(taken, down + [DResponse(data, last)]) == Left(taken, down) + data
    decreases |down|
  {
    var m := DResponse(data, last);
    if down == [] {
      assert ([] + [m])[1..] == [];
    } else {
      assert (down + [m])[0] == down[0] && (down + [m])[1..] == down[1..] + [m];
      DownPrefix(taken + down[0].data, down[1..], full, false, false);
      DownSends(taken + down[0].data, down[1..], full, data, last, gone, ended);
    }
  }

  lemma {:induction false} DownRefuses(taken: seq<Byte>, down: seq<Down>, full: seq<Byte>, m: Down, ended: bool)
    requires DownOk(taken, down, full, false, false) && m.DRefusal?
    ensures DownOk(taken, down + [m], full, true, ended)
    decreases |down|
  {
    if down == [] {
      assert ([] + [m])[1..] == [];
    } else {
      assert (down + [m])[0] == down[0] && (down + [m])[1..] == down[1..] + [m];
      DownRefuses(taken + down[0].data, down[1..], full, m, ended);
    }
  }

  // ----- the invariant: all parts -----

  ghost predicate UpInv<S>(cfg: Config<S>, net: Net<S>) {
    && UpOk(cfg.text, net.got, net.up, net.life.q.queryBuffer, Stopped(net.life.q))
    && net.life.q.queryStatus != Q.QRunning
    && (net.cancelSeen ==> net.up == [] && Stopped(net.life.q))
  }

  predicate Silent<S>(net: Net<S>) {
    net.recs == [] && net.supplied == [] && net.consumed == [] && net.down == []
  }

  /** The query is taken up once, and read from the whole text. */
  ghost predicate AnswerInv<S>(cfg: Config<S>, net: Net<S>) {
    match net.answer
    case None =>
      && net.created <= 1
      && (net.created == 0 ==> net.got == [] && Silent(net))
      && (net.created == 1 ==> net.got == cfg.text || net.cancelSeen || !net.reachable)
    case Some(a) =>
      && net.created == 1 && a.queryBuffer == net.got
      && (a.queryCompleted <==> net.got == cfg.text)
      && (a.cancelled ==> net.cancelSeen || !net.reachable)
      && (a.query.None? ==> a.responses == [] && a.responseBuffer == [] && !a.firstSent && Silent(net))
      && (a.query.Some? ==> a.queryCompleted && a.query == cfg.w.parseQuery(cfg.text) && |a.responses| == |a.query.value|)
      && (a.failed <==> a.queryCompleted && a.query.None?)
      && (a.failed ==> cfg.w.parseQuery(cfg.text).None?)
  }

  /** What was written for command `c` agrees with what the answering user supplied. */
  predicate Agree(recs: seq<Record>, supplied: seq<Record>, c: nat) {
    && Rows(recs, c) <= Rows(supplied, c)
    && (Final(recs, c).Some? ==> Final(supplied, c) == Final(recs, c))
    && (Final(recs, c) == Some(DONE) ==> Rows(recs, c) == Rows(supplied, c))
  }

  /** Nothing is lost between the user and the records, but for rows of a failed command. */
  predicate Carried(r: Received, recs: seq<Record>, supplied: seq<Record>, c: nat) {
    && Final(supplied, c) == (if r.status == ROWS then None else Some(r.status))
    && Final(recs, c) == (if r.wasRead then Final(supplied, c) else None)
    && (r.wasRead ==> r.rows == [])
    && (!(r.wasRead && r.status == ERROR) ==> Rows(recs, c) + r.rows == Rows(supplied, c))
  }

  ghost predicate CarryInv<S>(net: Net<S>) {
    && Orderly(net.recs) && Orderly(net.supplied)
    && (forall c: nat :: Agree(net.recs, net.supplied, c))
    && (net.answer.Some? ==> forall c | 0 <= c < |net.answer.value.responses| ::
          Carried(net.answer.value.responses[c], net.recs, net.supplied, c))
  }

  /** The whole text of the answer so far. */
  function Full<S>(cfg: Config<S>, recs: seq<Record>): seq<Byte> {
    [HEADER_T] + EncodeAll(cfg.w.enc, recs)
  }

  /** Every command of the query has its final record. */
  ghost predicate Ended<S>(cfg: Config<S>, recs: seq<Record>) {
    cfg.w.parseQuery(cfg.text).Some? && forall c | 0 <= c < |cfg.w.parseQuery(cfg.text).value| :: Final(recs, c).Some?
  }

  ghost predicate StreamInv<S>(cfg: Config<S>, net: Net<S>) {
    && DownOk(net.consumed, net.down, Full(cfg, net.recs), net.answer.None?, net.answer.None? && Ended(cfg, net.recs))
    && (net.answer.Some? ==>
          var a := net.answer.value;
          if a.firstSent then
            Left(net.consumed, net.down) != [] && Left(net.consumed, net.down) + a.responseBuffer == Full(cfg, net.recs)
          else net.consumed == [] && net.down == [] && a.responseBuffer == EncodeAll(cfg.w.enc, net.recs))
  }

  /** The parser stands where the text taken so far leaves it. */
  ghost predicate ReaderInv<S>(cfg: Config<S>, net: Net<S>) {
    var q := net.life.q;
    && q.responseBuffer == [] && |net.consumed| != 1 && net.seen <= |net.recs|
    && q.bytesReceived == (if net.consumed == [] then 0 else (|net.consumed| - 1) % UINT_SIZE)
    && net.seen == ReadCount(cfg.p, net.consumed)
    && Feed(cfg.p, cfg.p.start, if net.consumed == [] then [] else net.consumed[1..]) ==
       Some((q.parser, Goods(net.recs[..net.seen])))
  }

  /** What the asking user has, or can fetch, of command `c`. */
  predicate Reaches(r: Received, log: seq<Q.Delivery>, recs: seq<Record>, c: nat, running: bool) {
    && Given(log, c) + r.rows == Rows(recs, c)
    && (r.status == DONE ==> Final(recs, c) == Some(DONE))
    && (running ==> r.status == (if Final(recs, c).Some? then Final(recs, c).value else ROWS))
  }

  ghost predicate AskInv<S>(cfg: Config<S>, net: Net<S>) {
    var q := net.life.q;
    && net.seen <= |net.recs| && |q.received| == cfg.n
    && (Awaiting(net.life) ==> ReaderInv(cfg, net))
    && (forall c | 0 <= c < |q.received| ::
          Reaches(q.received[c], net.life.log, net.recs[..net.seen], c, Awaiting(net.life)))
  }

  /** A completed answer was read to its end, and its statuses are the answering user's. */
  ghost predicate CompleteInv<S>(cfg: Config<S>, net: Net<S>) {
    var q := net.life.q;
    q.responseStatus == Q.RCompleted ==>
      && net.answer.None? && net.created == 1 && net.seen == |net.recs| && Ended(cfg, net.recs)
      && (cfg.w.parseQuery(cfg.text).Some? && |cfg.w.parseQuery(cfg.text).value| == cfg.n ==>
            forall c | 0 <= c < |q.received| :: Final(net.recs, c) == Some(q.received[c].status))
  }

  ghost predicate Inv<S>(cfg: Config<S>, net: Net<S>) {
    && L.Inv(net.life) && UpInv(cfg, net) && AnswerInv(cfg, net) && CarryInv(net) && StreamInv(cfg, net)
    && (!net.misread ==> AskInv(cfg, net) && CompleteInv(cfg, net))
  }

  // ----- the asking side keeps it -----

  /** Handing over moves rows from the pending ones to the given ones. */
  lemma {:induction false} CollectMoves<S>(q: Q.Query<S>, from: nat, n: nat, limit: nat, log: seq<Q.Delivery>, c: nat)
    requires from <= |q.received| && c < |q.received|
    ensures var (q1, ds) := Q.CollectOne(q, from, n, limit);
            && |q1.received| == |q.received|
            && q1.received[c].status == q.received[c].status
            && Given(log + ds, c) + q1.received[c].rows == Given(log, c) + q.received[c].rows
    decreases |q.received| - from
  {
    assert log + [] == log;
    if from < |q.received| {
      if !HasNews(q.received[from]) {
        CollectMoves(q, from + 1, n, limit, log, c);
      } else {
        var (q1, d) := Q.Handed(q, from);
        assert (log + [d])[..|log|] == log;
        if !(limit > 0 && n + 1 >= limit) {
          CollectMoves(q1, from + 1, n + 1, limit, log + [d], c);
          var (_, ds) := Q.CollectOne(q1, from + 1, n + 1, limit);
          assert (log + [d]) + ds == log + ([d] + ds);
        }
      }
    }
  }

  /** An event of the asking side other than a message. */
  lemma EventReaches<S>(p: Parser<S>, l: L.Life<S>, ev: L.Event, recs: seq<Record>, c: nat)
    requires !ev.EvReceive? && c < |l.q.received|
    requires Reaches(l.q.received[c], l.log, recs, c, Awaiting(l))
    ensures var l1 := L.Step(p, l, ev);
            && |l1.q.received| == |l.q.received|
            && Reaches(l1.q.received[c], l1.log, recs, c, Awaiting(l1))
            && (l.q.received[c].status != ROWS ==> l1.q.received[c].status == l.q.received[c].status)
  {
    hide Rows, Final, Given;
    if ev.EvCollect? {
      CollectMoves(l.q, 0, ev.already, ev.limit, l.log, c);
      Q.CollectOneKeeps(l.q, 0, ev.already, ev.limit);
    }
  }

  lemma EventFrame<S>(p: Parser<S>, l: L.Life<S>, ev: L.Event)
    requires !ev.EvReceive? && !ev.EvQuerySent? && L.Inv(l)
    ensures var q, q1 := l.q, L.Step(p, l, ev).q;
            && q1.queryBuffer == q.queryBuffer && q1.parser == q.parser && q1.bytesReceived == q.bytesReceived
            && q1.responseBuffer == q.responseBuffer && |q1.received| == |q.received|
            && (q.queryStatus != Q.QRunning ==> q1.queryStatus != Q.QRunning)
            && (Stopped(q) ==> Stopped(q1))
            && (Awaiting(L.Step(p, l, ev)) ==> Awaiting(l))
            && (q1.responseStatus == Q.RCompleted ==> q.responseStatus == Q.RCompleted)
  {
    if ev.EvCollect? {
      Q.CollectOneKeeps(l.q, 0, ev.already, ev.limit);
    }
  }

  lemma AskEvents<S>(cfg: Config<S>, net: Net<S>, net1: Net<S>, ev: L.Event)
    requires Inv(cfg, net) && !ev.EvReceive? && !ev.EvQuerySent?
    requires net1 == net.(life := L.Step(cfg.p, net.life, ev), linked := net1.linked)
    ensures Inv(cfg, net1)
  {
    L.StepKeeps(cfg.p, net.life, ev);
    EventFrame(cfg.p, net.life, ev);
    hide L.Step, L.Inv, UpOk, AnswerInv, CarryInv, StreamInv;
    if !Stopped(net.life.q) && Stopped(net1.life.q) {
      UpStops(cfg.text, net.got, net.up, net.life.q.queryBuffer);
    }
    FarSame(cfg, net, net1);
    AskKept(cfg, net, net1, ev);
  }

  /** What is said of the answering side and the answer does not depend on the asking side. */
  lemma FarSame<S>(cfg: Config<S>, net: Net<S>, net1: Net<S>)
    requires net1 == net.(life := net1.life, linked := net1.linked)
    ensures AnswerInv(cfg, net1) == AnswerInv(cfg, net) && CarryInv(net1) == CarryInv(net)
    ensures StreamInv(cfg, net1) == StreamInv(cfg, net)
  {
  }

  lemma AnswerSame<S>(cfg: Config<S>, net: Net<S>, net1: Net<S>)
    requires net1 == net.(answer := net1.answer, up := net1.up, cancelSeen := net1.cancelSeen, reachable := net1.reachable)
    requires net1.answer.Some? <==> net.answer.Some?
    requires net.answer.Some? ==>
               var a, a1 := net.answer.value, net1.answer.value;
               a1.responses == a.responses && a1.responseBuffer == a.responseBuffer && a1.firstSent == a.firstSent
    ensures CarryInv(net1) == CarryInv(net) && StreamInv(cfg, net1) == StreamInv(cfg, net)
  {
  }

  lemma AskKept<S>(cfg: Config<S>, net: Net<S>, net1: Net<S>, ev: L.Event)
    requires !ev.EvReceive? && L.Inv(net.life)
    requires !net.misread ==> AskInv(cfg, net) && CompleteInv(cfg, net)
    requires net1 == net.(life := L.Step(cfg.p, net.life, ev), linked := net1.linked, up := net1.up)
    requires Awaiting(net1.life) ==> Awaiting(net.life)
    requires var q, q1 := net.life.q, net1.life.q;
             && q1.parser == q.parser && q1.bytesReceived == q.bytesReceived && |q1.received| == |q.received|
             && q1.responseBuffer == q.responseBuffer
             && (q1.responseStatus == Q.RCompleted ==> q.responseStatus == Q.RCompleted)
    ensures !net.misread ==> AskInv(cfg, net1) && CompleteInv(cfg, net1)
  {
    if !net.misread {
      hide L.Step, Feed, Rows, Final, Given;
      forall c | 0 <= c < |net.life.q.received|
        ensures Reaches(net1.life.q.received[c], net1.life.log, net.recs[..net.seen], c, Awaiting(net1.life))
        ensures net.life.q.received[c].status != ROWS ==> net1.life.q.received[c].status == net.life.q.received[c].status
      {
        EventReaches(cfg.p, net.life, ev, net.recs[..net.seen], c);
      }
    }
  }

  lemma AskSendsCancel<S>(cfg: Config<S>, net: Net<S>)
    requires Inv(cfg, net) && !net.life.erased && net.life.q.queryStatus == Q.NeedSendCancel
    ensures Inv(cfg, DoAskSend(cfg, net, 0))
  {
    var net1 := DoAskSend(cfg, net, 0);
    var q := net.life.q;
    L.StepKeeps(cfg.p, net.life, L.EvCancelSent);
    if !net.life.crashed {
      UpCancels(cfg.text, net.got, net.up, q.queryBuffer, UCancel(q.cancelMessage));
      AskKept(cfg, net, net1, L.EvCancelSent);
      FarSame(cfg, net, net1.(up := net.up));
      FarSameUp(cfg, net1.(up := net.up), net1);
      hide L.Inv, UpOk, DownOk, AskInv, CompleteInv, CarryInv, StreamInv, AnswerInv;
    }
  }

  lemma FarSameUp<S>(cfg: Config<S>, net: Net<S>, net1: Net<S>)
    requires net1 == net.(up := net1.up)
    ensures AnswerInv(cfg, net1) == AnswerInv(cfg, net) && CarryInv(net1) == CarryInv(net)
    ensures StreamInv(cfg, net1) == StreamInv(cfg, net)
  {
  }

  lemma AskSendsQuery<S>(cfg: Config<S>, net: Net<S>, size: nat)
    requires Inv(cfg, net) && !net.life.erased && net.life.q.queryStatus == Q.QPrepared
    requires 0 < size <= |net.life.q.queryBuffer|
    ensures Inv(cfg, DoAskSend(cfg, net, size))
  {
    var net1 := DoAskSend(cfg, net, size);
    L.StepKeeps(cfg.p, net.life, L.EvQuerySent(size));
    UpSends(cfg.text, net.got, net.up, net.life.q.queryBuffer, size);
    AskKept(cfg, net, net1, L.EvQuerySent(size));
    hide L.Inv, UpOk, DownOk, AskInv, CompleteInv, CarryInv;
  }

  // ----- a piece of the answer arrives -----

  /** The records that a further piece of the text completes. */
  lemma Advance<S>(cfg: Config<S>, recs: seq<Record>, taken: seq<Byte>, more: seq<Byte>, parser: S, seen: nat)
    returns (seen1: nat, parser1: S)
    requires SelfDelimiting(cfg.p, cfg.w.enc) && taken + more <= EncodeAll(cfg.w.enc, recs)
    requires seen <= |recs| && Feed(cfg.p, cfg.p.start, taken) == Some((parser, Goods(recs[..seen])))
    ensures seen <= seen1 <= |recs|
    ensures Feed(cfg.p, cfg.p.start, taken + more) == Some((parser1, Goods(recs[..seen1])))
    ensures Feed(cfg.p, parser, more) == Some((parser1, Goods(recs[seen..seen1])))
    ensures taken + more == EncodeAll(cfg.w.enc, recs) ==> seen1 == |recs| && parser1 == cfg.p.start
  {
    hide SelfDelimiting, EncodeAll;
    seen1 := ReadsPrefix(cfg.p, cfg.w.enc, recs, taken + more);
    FeedAppend(cfg.p, cfg.p.start, taken, more);
    parser1 := Feed(cfg.p, cfg.p.start, taken + more).value.0;
    var items := Feed(cfg.p, parser, more).value.1;
    assert Goods(recs[..seen]) + items == Goods(recs[..seen1]);
    forall i | 0 <= i < |items| ensures items[i] == Good(recs[seen..seen1][i]) {
      assert items[i] == Goods(recs[..seen1])[seen + i];
    }
    assert items == Goods(recs[seen..seen1]);
  }

  /** Good records are filed without an error. */
  lemma ParseGood<S>(p: Parser<S>, q: Q.Query<S>, parser1: S, new_: seq<Record>)
    requires Feed(p, q.parser, q.responseBuffer) == Some((parser1, Goods(new_)))
    requires q.responseStatus == Q.RCompleted ==> p.eof(parser1)
    requires Orderly(new_) && Closed(q.received, new_)
    ensures var rs := Q.ApplyItems(q.received, Goods(new_)).0;
            Q.ParseReceived(p, q) ==
              q.(parser := parser1, responseBuffer := [],
                 received := if q.responseStatus == Q.RCompleted then Q.SetErrors(rs, "Response not received") else rs)
    ensures forall c | 0 <= c < |q.received| ::
              Filed(q.received[c], new_, c, Q.ApplyItems(q.received, Goods(new_)).0[c])
  {
    ApplyGoods(q.received, new_);
  }

  /** What was open for the user is still open for the records to come. */
  lemma StillClosed<S>(cfg: Config<S>, net: Net<S>, seen1: nat)
    requires AskInv(cfg, net) && Awaiting(net.life) && Orderly(net.recs) && net.seen <= seen1 <= |net.recs|
    ensures Orderly(net.recs[net.seen..seen1]) && Closed(net.life.q.received, net.recs[net.seen..seen1])
  {
    hide ReaderInv;
    var a, b, rest := net.recs[..net.seen], net.recs[net.seen..seen1], net.recs[seen1..];
    assert (a + b) + rest == net.recs;
    OrderlyParts(a + b, rest);
    OrderlyParts(a, b);
    forall c | 0 <= c < |net.life.q.received| && net.life.q.received[c].status != ROWS
      ensures !Mentions(b, c)
    {
      assert Reaches(net.life.q.received[c], net.life.log, a, c, true);
      AfterFinal(a, b, c);
    }
  }

  lemma FiledReaches(r: Received, log: seq<Q.Delivery>, a: seq<Record>, new_: seq<Record>, c: nat, r1: Received)
    requires Reaches(r, log, a, c, true) && Filed(r, new_, c, r1)
    ensures Reaches(r1, log, a + new_, c, true)
  {
    Append(a, new_, c);
  }

  /** The life after a good piece. */
  function Fed<S>(q: Q.Query<S>, last: bool, size: nat, parser1: S, rs: seq<Received>): Q.Query<S> {
    q.(responseStatus := if last then Q.RCompleted else Q.RRunning,
       bytesReceived := (q.bytesReceived + size) % UINT_SIZE,
       parser := parser1, responseBuffer := [],
       received := if last then Q.SetErrors(rs, "Response not received") else rs)
  }

  ghost predicate AllReach<S>(net: Net<S>, rs: seq<Received>, seen1: nat)
    requires seen1 <= |net.recs|
  {
    && |rs| == |net.life.q.received|
    && forall c | 0 <= c < |rs| :: Reaches(rs[c], net.life.log, net.recs[..seen1], c, true)
  }

  lemma TakeBytes<S>(cfg: Config<S>, net: Net<S>, data: seq<Byte>, body: seq<Byte>)
    returns (seen1: nat, parser1: S)
    requires SelfDelimiting(cfg.p, cfg.w.enc) && ReaderInv(cfg, net)
    requires net.consumed + data <= Full(cfg, net.recs) && data != []
    requires body == if net.consumed == [] then data[1..] else data
    ensures net.seen <= seen1 <= |net.recs|
    ensures Feed(cfg.p, cfg.p.start, (net.consumed + data)[1..]) == Some((parser1, Goods(net.recs[..seen1])))
    ensures Feed(cfg.p, net.life.q.parser, body) == Some((parser1, Goods(net.recs[net.seen..seen1])))
    ensures net.consumed + data == Full(cfg, net.recs) ==> seen1 == |net.recs| && cfg.p.eof(parser1)
  {
    StartEof(cfg);
    hide SelfDelimiting, EncodeAll, Goods, Feed;
    var taken := if net.consumed == [] then [] else net.consumed[1..];
    assert (net.consumed + data)[1..] == taken + body;
    assert Full(cfg, net.recs)[1..] == EncodeAll(cfg.w.enc, net.recs);
    seen1, parser1 := Advance(cfg, net.recs, taken, body, net.life.q.parser, net.seen);
  }

  lemma TakePiece<S>(cfg: Config<S>, net: Net<S>, data: seq<Byte>, last: bool)
    returns (seen1: nat, parser1: S, rs: seq<Received>)
    requires SelfDelimiting(cfg.p, cfg.w.enc)
    requires AskInv(cfg, net) && Awaiting(net.life) && Orderly(net.recs) && !Misread(net, data)
    requires net.consumed + data <= Full(cfg, net.recs) && (if net.consumed == [] then |data| >= 2 else data != [])
    requires last ==> net.consumed + data == Full(cfg, net.recs)
    ensures net.seen <= seen1 <= |net.recs| && AllReach(net, rs, seen1)
    ensures Feed(cfg.p, cfg.p.start, (net.consumed + data)[1..]) == Some((parser1, Goods(net.recs[..seen1])))
    ensures var q := net.life.q;
            Q.ReceiveOne(cfg.p, q, data, if last then Q.KindLast else Q.KindPart) ==
            Some(Fed(q, last, if net.consumed == [] then |data| - 1 else |data|, parser1, rs))
    ensures last ==> seen1 == |net.recs|
  {
    hide *;
    var q := net.life.q;
    AskFacts(cfg, net);
    FirstByte(cfg, net, data);
    var body := Q.StripHeader(q.bytesReceived, data).value;
    seen1, parser1 := TakeBytes(cfg, net, data, body);
    StillClosed(cfg, net, seen1);
    var new_ := net.recs[net.seen..seen1];
    ReceiveGood(cfg.p, q, data, body, last, parser1, new_);
    rs := Q.ApplyItems(q.received, Goods(new_)).0;
    assert net.recs[..net.seen] + new_ == net.recs[..seen1];
    AllFiledReach(net, new_, seen1, rs);
  }

  lemma AskFacts<S>(cfg: Config<S>, net: Net<S>)
    requires AskInv(cfg, net) && Awaiting(net.life)
    ensures ReaderInv(cfg, net) && AllReach(net, net.life.q.received, net.seen)
    ensures net.life.q.responseStatus == Q.RRunning && net.life.q.responseBuffer == [] && |net.life.q.received| == cfg.n
  {
    hide Reaches;
  }

  lemma AllFiledReach<S>(net: Net<S>, new_: seq<Record>, seen1: nat, rs: seq<Received>)
    requires net.seen <= seen1 <= |net.recs| && net.recs[..net.seen] + new_ == net.recs[..seen1]
    requires |rs| == |net.life.q.received| && AllReach(net, net.life.q.received, net.seen)
    requires forall c | 0 <= c < |rs| :: Filed(net.life.q.received[c], new_, c, rs[c])
    ensures AllReach(net, rs, seen1)
  {
    hide Reaches, Filed;
    forall c | 0 <= c < |rs|
      ensures Reaches(rs[c], net.life.log, net.recs[..seen1], c, true)
    {
      FiledReaches(net.life.q.received[c], net.life.log, net.recs[..net.seen], new_, c, rs[c]);
    }
  }

  /** What receiving a good piece makes of the query. */
  lemma ReceiveGood<S>(p: Parser<S>, q: Q.Query<S>, data: seq<Byte>, body: seq<Byte>, last: bool, parser1: S, new_: seq<Record>)
    requires q.responseStatus == Q.RRunning && q.responseBuffer == [] && Q.StripHeader(q.bytesReceived, data) == Some(body)
    requires Feed(p, q.parser, body) == Some((parser1, Goods(new_))) && (last ==> p.eof(parser1))
    requires Orderly(new_) && Closed(q.received, new_)
    ensures var rs := Q.ApplyItems(q.received, Goods(new_)).0;
            Q.ReceiveOne(p, q, data, if last then Q.KindLast else Q.KindPart) == Some(Fed(q, last, |body|, parser1, rs))
    ensures forall c | 0 <= c < |q.received| ::
              Filed(q.received[c], new_, c, Q.ApplyItems(q.received, Goods(new_)).0[c])
  {
    hide Feed, Goods, Q.ParseReceived, Q.ApplyItems, Orderly, Closed, Filed;
    assert q.responseBuffer + body == body;
    ParseGood(p, Q.WithBody(q, body, if last then Q.KindLast else Q.KindPart), parser1, new_);
  }

  lemma StartEof<S>(cfg: Config<S>)
    requires SelfDelimiting(cfg.p, cfg.w.enc)
    ensures cfg.p.eof(cfg.p.start)
  {
  }

  lemma FirstByte<S>(cfg: Config<S>, net: Net<S>, data: seq<Byte>)
    requires ReaderInv(cfg, net) && Awaiting(net.life) && !Misread(net, data)
    requires net.consumed + data <= Full(cfg, net.recs) && (if net.consumed == [] then |data| >= 2 else data != [])
    ensures Q.StripHeader(net.life.q.bytesReceived, data) == Some(if net.consumed == [] then data[1..] else data)
  {
    if net.consumed == [] {
      assert (net.consumed + data)[0] == data[0] == Full(cfg, net.recs)[0];
    }
  }

  lemma ReceiveFrame<S>(p: Parser<S>, l: L.Life<S>, data: seq<Byte>, kind: Q.Kind)
    requires L.Inv(l) && l.q.queryStatus != Q.QRunning
    ensures var l1 := L.Step(p, l, L.EvReceive(data, kind));
            && l1.q.queryBuffer == l.q.queryBuffer && l1.q.queryStatus != Q.QRunning && (Stopped(l.q) ==> Stopped(l1.q))
            && (!Awaiting(l) ==> l1 == l)
            && (l1.crashed ==> l1 == l.(crashed := true))
  {
  }

  lemma MessageFrame<S>(cfg: Config<S>, l: L.Life<S>, m: Down)
    requires L.Inv(l) && l.q.queryStatus != Q.QRunning
    ensures var l1 := AfterMessage(cfg, l, m);
            && L.Inv(l1) && l1.q.queryBuffer == l.q.queryBuffer && l1.q.queryStatus != Q.QRunning
            && (Stopped(l.q) ==> Stopped(l1.q)) && (!Awaiting(l) ==> l1 == l)
            && (l1.crashed ==> l1 == l.(crashed := true))
  {
    var ev := if m.DRefusal? then L.EvReceive(m.data, Q.KindError)
              else L.EvReceive(m.data, if m.last then Q.KindLast else Q.KindPart);
    assert AfterMessage(cfg, l, m) == L.Step(cfg.p, l, ev);
    hide AfterMessage, L.Step, L.Inv;
    L.StepKeeps(cfg.p, l, ev);
    ReceiveFrame(cfg.p, l, ev.data, ev.kind);
  }

  lemma ReceiveKeepsUp<S>(cfg: Config<S>, net: Net<S>)
    requires L.Inv(net.life) && UpInv(cfg, net) && net.linked && net.down != []
    ensures L.Inv(DoAskReceive(cfg, net).life) && UpInv(cfg, DoAskReceive(cfg, net))
  {
    var net1 := DoAskReceive(cfg, net);
    MessageFrame(cfg, net.life, net.down[0]);
    hide L.Inv, UpOk, AfterMessage, Stopped, Awaiting, ReadCount, Misread;
    if !Stopped(net.life.q) && Stopped(net1.life.q) {
      UpStops(cfg.text, net.got, net.up, net.life.q.queryBuffer);
    }
  }

  /** Taking a message keeps what is said about the query and the link. */
  lemma ReceiveKeepsRest<S>(cfg: Config<S>, net: Net<S>)
    requires Inv(cfg, net) && net.linked && net.down != []
    ensures var net1 := DoAskReceive(cfg, net);
            L.Inv(net1.life) && UpInv(cfg, net1) && AnswerInv(cfg, net1) && CarryInv(net1) && StreamInv(cfg, net1)
  {
    hide L.Step, L.Inv, UpInv, CarryInv, StreamInv, AskInv, CompleteInv;
    ReceiveKeepsUp(cfg, net);
    ReceiveStreams(cfg, net);
    CarrySame(net, DoAskReceive(cfg, net));
    ReceiveAnswer(cfg, net);
  }

  lemma ReceiveAnswer<S>(cfg: Config<S>, net: Net<S>)
    requires AnswerInv(cfg, net) && StreamInv(cfg, net)
    ensures AnswerInv(cfg, DoAskReceive(cfg, net))
  {
    hide L.Step, Ended, EncodeAll, Feed;
  }

  lemma CarrySame<S>(net: Net<S>, net1: Net<S>)
    requires net1.recs == net.recs && net1.supplied == net.supplied && net1.answer == net.answer
    ensures CarryInv(net1) == CarryInv(net)
  {
  }

  lemma ReceiveStreams<S>(cfg: Config<S>, net: Net<S>)
    requires StreamInv(cfg, net)
    ensures StreamInv(cfg, DoAskReceive(cfg, net))
  {
    hide L.Step, Ended, EncodeAll, Feed;
  }

  lemma ReceivesRefusal<S>(cfg: Config<S>, net: Net<S>)
    requires Inv(cfg, net) && net.linked && net.down != [] && net.down[0].DRefusal? && !net.misread
    ensures var net1 := DoAskReceive(cfg, net); AskInv(cfg, net1) && CompleteInv(cfg, net1)
  {
    hide Rows, Final, Given, L.Inv;
  }

  lemma ReceivesPiece<S>(cfg: Config<S>, net: Net<S>)
    requires SelfDelimiting(cfg.p, cfg.w.enc)
    requires Inv(cfg, net) && net.linked && net.down != [] && net.down[0].DResponse? && !net.misread
    requires Awaiting(net.life) && !Misread(net, net.down[0].data)
    ensures var net1 := DoAskReceive(cfg, net); AskInv(cfg, net1) && CompleteInv(cfg, net1)
  {
    hide L.Inv, UpInv, AnswerInv, AskInv, CompleteInv, SelfDelimiting, Q.ReceiveOne, DoAskReceive, Orderly, Feed, StreamInv;
    var DResponse(data, last) := net.down[0];
    NextPiece(cfg, net);
    var seen1, parser1, rs := TakePiece(cfg, net, data, last);
    hide *;
    LastIsAll(cfg, net);
    assert net.consumed + data != [];
    PieceState(cfg, net, seen1, parser1, rs);
    AskFacts(cfg, net);
    PieceAsked(cfg, net, DoAskReceive(cfg, net), data, last, parser1, rs);
    PieceCompletes(cfg, net, DoAskReceive(cfg, net), last, rs);
  }

  lemma NextPiece<S>(cfg: Config<S>, net: Net<S>)
    requires StreamInv(cfg, net) && net.down != [] && net.down[0].DResponse?
    ensures var DResponse(data, last) := net.down[0];
            && net.consumed + data <= Full(cfg, net.recs) && (if net.consumed == [] then |data| >= 2 else data != [])
            && (last ==> net.consumed + data == Full(cfg, net.recs))
  {
    DownPrefix(net.consumed + net.down[0].data, net.down[1..], Full(cfg, net.recs), net.answer.None?,
               net.answer.None? && Ended(cfg, net.recs));
  }

  lemma PieceState<S>(cfg: Config<S>, net: Net<S>, seen1: nat, parser1: S, rs: seq<Received>)
    requires net.linked && net.down != [] && net.down[0].DResponse? && Awaiting(net.life) && seen1 <= |net.recs|
    requires !net.misread && !Misread(net, net.down[0].data)
    requires var (data, last) := (net.down[0].data, net.down[0].last);
             && net.consumed + data != []
             && Feed(cfg.p, cfg.p.start, (net.consumed + data)[1..]) == Some((parser1, Goods(net.recs[..seen1])))
             && Q.ReceiveOne(cfg.p, net.life.q, data, if last then Q.KindLast else Q.KindPart) ==
                Some(Fed(net.life.q, last, if net.consumed == [] then |data| - 1 else |data|, parser1, rs))
    ensures var (data, last) := (net.down[0].data, net.down[0].last);
            var net1 := DoAskReceive(cfg, net);
            && net1 == net.(life := net1.life, consumed := net.consumed + data, seen := net1.seen, down := net1.down,
                            misread := net1.misread)
            && net1.life == net.life.(q := Fed(net.life.q, last, if net.consumed == [] then |data| - 1 else |data|, parser1, rs))
            && net1.seen == ReadCount(cfg.p, net1.consumed) == seen1
            && (last ==> net1.life.q.received == Q.SetErrors(rs, "Response not received"))
            && (net1.life.q.responseStatus == Q.RCompleted ==> last)
  {
    assert |Goods(net.recs[..seen1])| == seen1;
    hide Feed, Q.ReceiveOne, Goods;
  }

  lemma LastIsAll<S>(cfg: Config<S>, net: Net<S>)
    requires StreamInv(cfg, net) && AnswerInv(cfg, net) && net.down != [] && net.down[0].DResponse?
    ensures net.down[0].last ==> net.answer.None? && net.created == 1 && Ended(cfg, net.recs)
    ensures if net.consumed == [] then |net.down[0].data| >= 2 else net.down[0].data != []
  {
  }

  lemma PieceAsked<S>(cfg: Config<S>, net: Net<S>, net1: Net<S>, data: seq<Byte>, last: bool, parser1: S, rs: seq<Received>)
    requires AskInv(cfg, net) && Awaiting(net.life) && net1.seen <= |net.recs| && AllReach(net, rs, net1.seen)
    requires if net.consumed == [] then |data| >= 2 else data != []
    requires net1 == net.(life := net1.life, consumed := net.consumed + data, seen := net1.seen, down := net1.down,
                          misread := net1.misread)
    requires net1.life == net.life.(q := Fed(net.life.q, last, if net.consumed == [] then |data| - 1 else |data|, parser1, rs))
    requires net1.seen == ReadCount(cfg.p, net1.consumed)
    requires Feed(cfg.p, cfg.p.start, net1.consumed[1..]) == Some((parser1, Goods(net.recs[..net1.seen])))
    ensures AskInv(cfg, net1)
  {
    hide Rows, Final, Given, Feed, ReadCount, Goods;
  }

  lemma PieceCompletes<S>(cfg: Config<S>, net: Net<S>, net1: Net<S>, last: bool, rs: seq<Received>)
    requires |net.life.q.received| == cfg.n
    requires last ==> net.answer.None? && net.created == 1 && Ended(cfg, net.recs) && AllReach(net, rs, |net.recs|)
    requires last ==> net1.answer.None? && net1.created == 1 && net1.seen == |net.recs| && net1.recs == net.recs
    requires last ==> net1.life.q.received == Q.SetErrors(rs, "Response not received")
    requires net1.life.q.responseStatus == Q.RCompleted ==> last
    ensures CompleteInv(cfg, net1)
  {
    hide Rows, Final, Given;
    assert net.recs[..|net.recs|] == net.recs;
    forall c: nat | Final(net.recs, c).Some? ensures Final(net.recs, c).value != ROWS {
      var _ := FinalWitness(net.recs, c);
    }
  }

  /** The program has ended: what is said of the query stays as it was. */
  lemma CrashKeeps<S>(cfg: Config<S>, net: Net<S>, net1: Net<S>)
    requires net1 == net.(life := net.life.(crashed := true)) && !net.misread
    requires AskInv(cfg, net) && CompleteInv(cfg, net)
    ensures AskInv(cfg, net1) && CompleteInv(cfg, net1)
  {
    hide Rows, Final, Given, ReaderInv;
  }

  lemma AskReceives<S>(cfg: Config<S>, net: Net<S>)
    requires SelfDelimiting(cfg.p, cfg.w.enc) && Inv(cfg, net)
    ensures Inv(cfg, DoAskReceive(cfg, net))
  {
    var net1 := DoAskReceive(cfg, net);
    if net.linked && net.down != [] {
      ReceiveKeepsRest(cfg, net);
      if !net1.misread { ReceiveAsks(cfg, net); }
      hide L.Inv, UpInv, AnswerInv, CarryInv, StreamInv, AskInv, CompleteInv, DoAskReceive;
    }
  }

  lemma ReceiveAsks<S>(cfg: Config<S>, net: Net<S>)
    requires SelfDelimiting(cfg.p, cfg.w.enc) && Inv(cfg, net) && net.linked && net.down != []
    requires !DoAskReceive(cfg, net).misread
    ensures var net1 := DoAskReceive(cfg, net); AskInv(cfg, net1) && CompleteInv(cfg, net1)
  {
    var net1 := DoAskReceive(cfg, net);
    MessageFrame(cfg, net.life, net.down[0]);
    assert !net.misread;
    if net1.life.crashed {
      assert net1 == net.(life := net.life.(crashed := true));
      CrashKeeps(cfg, net, net1);
    } else if net.down[0].DRefusal? {
      ReceivesRefusal(cfg, net);
    } else if Awaiting(net.life) {
      ReceivesPiece(cfg, net);
    } else {
      ReceivesLate(cfg, net);
    }
  }

  /** A piece that is not waited for any more. */
  lemma ReceivesLate<S>(cfg: Config<S>, net: Net<S>)
    requires Inv(cfg, net) && net.linked && net.down != [] && net.down[0].DResponse? && !net.misread && !Awaiting(net.life)
    ensures var net1 := DoAskReceive(cfg, net); AskInv(cfg, net1) && CompleteInv(cfg, net1)
  {
    ReceiveFrame(cfg.p, net.life, net.down[0].data, if net.down[0].last then Q.KindLast else Q.KindPart);
    hide L.Step, L.Inv, UpInv, AnswerInv, CarryInv, StreamInv, Rows, Final, Given;
  }

  // ----- the answering side keeps it -----

  /** Nothing but the first piece can start the query, and nothing starts it again. */
  lemma StartsOnce<S>(cfg: Config<S>, net: Net<S>)
    requires UpInv(cfg, net) && AnswerInv(cfg, net)
    requires net.reachable && net.up != [] && net.up[0].UQuery? && net.answer.None?
    ensures net.created == 0 && net.got == []
  {
    UpLength(cfg.text, net.got + net.up[0].data, net.up[1..], net.life.q.queryBuffer, Stopped(net.life.q));
  }

  lemma AnswerReceivesQuery<S>(cfg: Config<S>, net: Net<S>, userId: int)
    requires Inv(cfg, net) && net.reachable && net.up != [] && net.up[0].UQuery?
    ensures Inv(cfg, DoAnswerReceive(cfg, net, userId))
  {
    var net1 := DoAnswerReceive(cfg, net, userId);
    UpLength(cfg.text, net.got + net.up[0].data, net.up[1..], net.life.q.queryBuffer, Stopped(net.life.q));
    if net.answer.None? { StartsOnce(cfg, net); }
    hide L.Inv, AskInv;
    assert net1.answer.Some? && net1.got == net.got + net.up[0].data;
    assert !net.answer.Some? || !net.answer.value.queryCompleted;
    assert Silent(net) && Silent(net1);
    assert Rows([], 0) == [] && Final([], 0) == None;
    assert EncodeAll(cfg.w.enc, []) == [];
    assert AnswerInv(cfg, net1) by { hide UpOk; }
    assert AskInv(cfg, net1) == AskInv(cfg, net) by { AskSame(cfg, net, net1); }
  }

  lemma AskSame<S>(cfg: Config<S>, net: Net<S>, net1: Net<S>)
    requires net1 == net.(answer := net1.answer, created := net1.created, got := net1.got, up := net1.up,
                          cancelSeen := net1.cancelSeen, down := net1.down, supplied := net1.supplied,
                          reachable := net1.reachable)
    ensures AskInv(cfg, net1) == AskInv(cfg, net)
  {
  }

  lemma UpSame<S>(cfg: Config<S>, net: Net<S>, net1: Net<S>)
    requires net1.life == net.life && net1.got == net.got && net1.up == net.up && net1.cancelSeen == net.cancelSeen
    ensures UpInv(cfg, net1) == UpInv(cfg, net)
  {
  }

  lemma AnswerReceivesCancel<S>(cfg: Config<S>, net: Net<S>, userId: int)
    requires Inv(cfg, net) && net.reachable && net.up != [] && net.up[0].UCancel?
    ensures Inv(cfg, DoAnswerReceive(cfg, net, userId))
  {
    var net1 := DoAnswerReceive(cfg, net, userId);
    AskSame(cfg, net, net1);
    AnswerSame(cfg, net, net1);
    hide L.Inv, AskInv, CarryInv, StreamInv;
  }

  lemma AnswerDrops<S>(cfg: Config<S>, net: Net<S>)
    requires Inv(cfg, net)
    ensures Inv(cfg, Next(cfg, net, AnswerCollectCancelled))
  {
    var net1 := Next(cfg, net, AnswerCollectCancelled);
    if net1 != net {
      AskSame(cfg, net, net1);
      UpSame(cfg, net, net1);
      DropsStream(cfg, net, net1);
      hide L.Inv, UpInv, AskInv, StreamInv, Rows, Final, Orderly;
    }
  }

  /** The query is dropped without a word. */
  lemma DropsStream<S>(cfg: Config<S>, net: Net<S>, net1: Net<S>)
    requires StreamInv(cfg, net) && net.answer.Some? && net1 == net.(answer := None)
    ensures StreamInv(cfg, net1)
  {
    hide Ended;
    DownGrows(net.consumed, net.down, Full(cfg, net.recs), Full(cfg, net.recs), true, false, Ended(cfg, net.recs));
  }

  lemma AnswerLosesLink<S>(cfg: Config<S>, net: Net<S>)
    requires Inv(cfg, net)
    ensures Inv(cfg, Next(cfg, net, AnswerDisconnect))
  {
    var net1 := Next(cfg, net, AnswerDisconnect);
    AskSame(cfg, net, net1);
    UpSame(cfg, net, net1);
    AnswerSame(cfg, net, net1);
    hide L.Inv, UpInv, AskInv, CarryInv, StreamInv;
  }

  // ----- the user answers -----

  lemma RespondCarries(r: Received, recs: seq<Record>, supplied: seq<Record>, rec: Record)
    requires r.status == ROWS && Carried(r, recs, supplied, rec.cmd)
    ensures Carried(AddToOne(r, rec.status, rec.rows, rec.err), recs, supplied + [rec], rec.cmd)
  {
    Append(supplied, [rec], rec.cmd);
    assert [rec][..0] == [];
    assert Rows([rec], rec.cmd) == rec.rows;
  }

  lemma OtherCommand(recs: seq<Record>, rec: Record, c: nat)
    requires rec.cmd != c
    ensures Rows(recs + [rec], c) == Rows(recs, c) && Final(recs + [rec], c) == Final(recs, c)
  {
    NotMentioned([rec], c);
    Append(recs, [rec], c);
  }

  lemma RespondOrderly(supplied: seq<Record>, rec: Record)
    requires Orderly(supplied) && Final(supplied, rec.cmd).None?
    ensures Orderly(supplied + [rec])
  {
    NoFinal(supplied, rec.cmd);
    JoinOrderly(supplied, [rec]);
  }

  lemma RespondOne(rs: seq<Received>, recs: seq<Record>, supplied: seq<Record>, rec: Record, c: nat)
    requires rec.cmd < |rs| && rs[rec.cmd].status == ROWS && Carried(rs[rec.cmd], recs, supplied, rec.cmd)
    requires Agree(recs, supplied, c) && (c < |rs| ==> Carried(rs[c], recs, supplied, c))
    ensures Agree(recs, supplied + [rec], c)
    ensures c < |rs| ==> Carried(AddToQueryState(rs, rec)[c], recs, supplied + [rec], c)
  {
    hide Rows, Final;
    if c != rec.cmd {
      OtherCommand(supplied, rec, c);
    } else {
      AgreeGrows(recs, supplied, rec);
      RespondCarries(rs[c], recs, supplied, rec);
    }
  }

  lemma RespondsCarry<S>(net: Net<S>, rec: Record)
    requires CarryInv(net) && net.answer.Some? && net.answer.value.query.Some?
    ensures CarryInv(DoRespond(net, rec))
  {
    hide Rows, Final, Orderly, Carried, Agree, AddToQueryState;
    var rs := net.answer.value.responses;
    if !Accepted(net.answer.value, rec) {
      Refused(net.answer.value, rec);
    } else {
      StillOpen(rs[rec.cmd], net.recs, net.supplied, rec.cmd);
      RespondOrderly(net.supplied, rec);
      forall c: nat
        ensures Agree(net.recs, net.supplied + [rec], c)
        ensures c < |rs| ==> Carried(AddToQueryState(rs, rec)[c], net.recs, net.supplied + [rec], c)
      {
        RespondOne(rs, net.recs, net.supplied, rec, c);
      }
    }
  }

  lemma StillOpen(r: Received, recs: seq<Record>, supplied: seq<Record>, c: nat)
    requires Carried(r, recs, supplied, c) && r.status == ROWS
    ensures Final(supplied, c).None?
  {
  }

  lemma AnswerResponds<S>(cfg: Config<S>, net: Net<S>, rec: Record)
    requires Inv(cfg, net)
    ensures Inv(cfg, DoRespond(net, rec))
  {
    var net1 := DoRespond(net, rec);
    if net.answer.Some? && net.answer.value.query.Some? {
      AskSame(cfg, net, net1);
      UpSame(cfg, net, net1);
      RespondsCarry(net, rec);
      hide L.Inv, UpInv, AskInv, CarryInv, DownOk, Left, EncodeAll, Final;
    }
  }

  lemma Refused(a: R.Answer, rec: Record)
    requires !Accepted(a, rec)
    ensures R.SendResponse(a, rec).responses == a.responses
  {
  }

  lemma AgreeGrows(recs: seq<Record>, supplied: seq<Record>, rec: Record)
    requires Agree(recs, supplied, rec.cmd) && Final(supplied, rec.cmd).None?
    ensures Agree(recs, supplied + [rec], rec.cmd)
  {
    Append(supplied, [rec], rec.cmd);
  }

  // ----- the answer is serialised and sent -----

  lemma FillCarries(rs: seq<Received>, recs: seq<Record>, supplied: seq<Record>, c: nat)
    requires Agree(recs, supplied, c) && (c < |rs| ==> Carried(rs[c], recs, supplied, c))
    ensures var recs1 := recs + R.FlushRecords(rs, |rs|);
            Agree(recs1, supplied, c) && (c < |rs| ==> Carried(R.Flushed(rs[c]), recs1, supplied, c))
  {
    hide Rows, Final, R.FlushRecords;
    FlushCarries(rs, |rs|, c);
    Append(recs, R.FlushRecords(rs, |rs|), c);
    assert Rows(recs, c) + [] == Rows(recs, c);
  }

  /** Serialising without sending. */
  function Serialised<S>(cfg: Config<S>, net: Net<S>): Net<S>
    requires net.answer.Some?
  {
    net.(answer := Some(R.Fill(cfg.w, net.answer.value)), recs := net.recs + NewlyWritten(net.answer.value))
  }

  lemma SerialisedCarries<S>(cfg: Config<S>, net: Net<S>)
    requires CarryInv(net) && net.answer.Some? && !net.answer.value.cancelled && net.answer.value.queryCompleted
    ensures CarryInv(Serialised(cfg, net))
  {
    hide Rows, Final, Orderly, EncodeAll, R.FlushRecords, R.Flushed;
    var rs := net.answer.value.responses;
    forall c: nat
      ensures Agree(Serialised(cfg, net).recs, net.supplied, c)
      ensures c < |rs| ==> Carried(R.Flushed(rs[c]), Serialised(cfg, net).recs, net.supplied, c)
    {
      FillCarries(rs, net.recs, net.supplied, c);
    }
    forall c | 0 <= c < |rs| && HasNews(rs[c]) ensures Final(net.recs, c).None? {
      assert Carried(rs[c], net.recs, net.supplied, c);
    }
    OrderlyFlush(net.recs, rs);
  }

  lemma SerialisedStreams<S>(cfg: Config<S>, net: Net<S>)
    requires StreamInv(cfg, net) && net.answer.Some? && !net.answer.value.cancelled && net.answer.value.queryCompleted
    ensures StreamInv(cfg, Serialised(cfg, net))
    ensures Full(cfg, net.recs) <= Full(cfg, Serialised(cfg, net).recs)
  {
    hide EncodeAll, R.FlushRecords, R.FlushAll, DownOk, Ended;
    var new_ := NewlyWritten(net.answer.value);
    EncodeAllAppend(cfg.w.enc, net.recs, new_);
    DownGrows(net.consumed, net.down, Full(cfg, net.recs), Full(cfg, net.recs + new_), false, false, false);
  }

  lemma SerialisedAsks<S>(cfg: Config<S>, net: Net<S>)
    requires net.answer.Some? && AskInv(cfg, net)
    ensures AskInv(cfg, Serialised(cfg, net))
  {
    hide Reaches, Feed;
    assert Serialised(cfg, net).recs[..net.seen] == net.recs[..net.seen];
  }

  lemma SerialisedAnswer<S>(cfg: Config<S>, net: Net<S>)
    requires AnswerInv(cfg, net) && net.answer.Some? && !net.answer.value.cancelled && net.answer.value.queryCompleted
    ensures AnswerInv(cfg, Serialised(cfg, net))
  {
    if net.answer.value.responses == [] {
      assert NewlyWritten(net.answer.value) == [];
      assert EncodeAll(cfg.w.enc, []) == [];
    }
  }

  lemma Serialises<S>(cfg: Config<S>, net: Net<S>)
    requires Inv(cfg, net) && net.answer.Some? && !net.answer.value.cancelled && net.answer.value.queryCompleted
    ensures Inv(cfg, Serialised(cfg, net))
  {
    SerialisedCarries(cfg, net);
    SerialisedStreams(cfg, net);
    SerialisedAnswer(cfg, net);
    UpSame(cfg, net, Serialised(cfg, net));
    if !net.misread { SerialisedAsks(cfg, net); }
    hide L.Inv, UpInv, CarryInv, StreamInv, AskInv, AnswerInv, Ended;
  }

  // ----- the message leaves -----

  /** A piece of the serialised answer leaves. `net` holds the query as serialised. */
  lemma SendsPiece<S>(cfg: Config<S>, net: Net<S>, size: nat, last: bool)
    requires StreamInv(cfg, net) && net.answer.Some? && 0 < size <= |net.answer.value.responseBuffer|
    requires last ==> size == |net.answer.value.responseBuffer| && Ended(cfg, net.recs)
    ensures var a := net.answer.value;
            var data := (if a.firstSent then [] else [HEADER_T]) + a.responseBuffer[..size];
            StreamInv(cfg, net.(down := net.down + [DResponse(data, last)],
              answer := if last then None else Some(a.(firstSent := true, responseBuffer := a.responseBuffer[size..]))))
  {
    hide EncodeAll, Ended;
    var a := net.answer.value;
    var data := (if a.firstSent then [] else [HEADER_T]) + a.responseBuffer[..size];
    assert a.responseBuffer[..size] + a.responseBuffer[size..] == a.responseBuffer;
    var left := Left(net.consumed, net.down);
    assert (left + data) + a.responseBuffer[size..] == Full(cfg, net.recs);
    DownGrows(net.consumed, net.down, Full(cfg, net.recs), Full(cfg, net.recs), false, false, false);
    DownSends(net.consumed, net.down, Full(cfg, net.recs), data, last, last, last && Ended(cfg, net.recs));
    if !last {
      DownGrows(net.consumed, net.down + [DResponse(data, last)], Full(cfg, net.recs), Full(cfg, net.recs), false, false, false);
    }
  }

  lemma LastEnds<S>(cfg: Config<S>, net: Net<S>)
    requires AnswerInv(cfg, net) && CarryInv(net) && net.answer.Some? && AllDone(net.answer.value.responses)
    requires net.answer.value.query.Some?
    ensures Ended(cfg, net.recs)
  {
    hide Rows, Final, Orderly;
    var a := net.answer.value;
    forall c | 0 <= c < |a.responses| ensures Final(net.recs, c).Some? {
      assert Carried(a.responses[c], net.recs, net.supplied, c);
    }
  }

  lemma AnswerSendsPiece<S>(cfg: Config<S>, net: Net<S>, size: nat, last: bool)
    requires Inv(cfg, net) && net.answer.Some? && net.answer.value.query.Some?
    requires 0 < size <= |net.answer.value.responseBuffer|
    requires last ==> size == |net.answer.value.responseBuffer| && AllDone(net.answer.value.responses)
    ensures var a := net.answer.value;
            var data := (if a.firstSent then [] else [HEADER_T]) + a.responseBuffer[..size];
            Inv(cfg, net.(down := net.down + [DResponse(data, last)],
              answer := if last then None else Some(a.(firstSent := true, responseBuffer := a.responseBuffer[size..]))))
  {
    if last { LastEnds(cfg, net); }
    SendsPiece(cfg, net, size, last);
    var a := net.answer.value;
    var data := (if a.firstSent then [] else [HEADER_T]) + a.responseBuffer[..size];
    var net1 := net.(down := net.down + [DResponse(data, last)],
              answer := if last then None else Some(a.(firstSent := true, responseBuffer := a.responseBuffer[size..])));
    AskSame(cfg, net, net1);
    UpSame(cfg, net, net1);
    hide L.Inv, UpInv, StreamInv, AskInv, Ended, Agree, Carried, Orderly;
  }

  lemma AnswerRefuses<S>(cfg: Config<S>, net: Net<S>, room: int)
    requires Inv(cfg, net) && net.answer.Some? && net.answer.value.failed && !net.answer.value.cancelled && room >= 0
    ensures Inv(cfg, DoAnswerSend(cfg, net, room))
  {
    var a := net.answer.value;
    var m := DRefusal(TextBytes(a.errorMessage[..Taken(room, |a.errorMessage|, 0)]));
    var net1 := net.(answer := None, down := net.down + [m]);
    RefusalLeaves(cfg, net, room);
    AskSame(cfg, net, net1);
    UpSame(cfg, net, net1);
    DownRefuses(net.consumed, net.down, Full(cfg, net.recs), m, Ended(cfg, net.recs));
    hide L.Inv, UpInv, AskInv, Ended, Agree, Carried, Orderly, TextBytes, DoAnswerSend, DownOk, Left, EncodeAll;
  }

  lemma RefusalLeaves<S>(cfg: Config<S>, net: Net<S>, room: int)
    requires AnswerInv(cfg, net) && net.answer.Some? && net.answer.value.failed && !net.answer.value.cancelled && room >= 0
    ensures var a := net.answer.value;
            DoAnswerSend(cfg, net, room) ==
            net.(answer := None,
                 down := net.down + [DRefusal(TextBytes(a.errorMessage[..Taken(room, |a.errorMessage|, 0)]))])
  {
    assert NewlyWritten(net.answer.value) == [];
    assert net.recs + [] == net.recs;
  }

  /** Sending serialises first, and then a piece leaves, or nothing. */
  lemma SendsAfterSerialising<S>(cfg: Config<S>, net: Net<S>, room: int)
    requires net.answer.Some? && !net.answer.value.cancelled && net.answer.value.queryCompleted
    requires !(net.answer.value.failed && room >= 0)
    ensures var mid := Serialised(cfg, net);
            var a := mid.answer.value;
            DoAnswerSend(cfg, net, room) ==
            if a.responseBuffer != [] && room >= 1 then
              var n := Taken(room, |a.responseBuffer|, 1);
              var last := R.IsLastChunk(a) && n == |a.responseBuffer|;
              mid.(down := mid.down + [DResponse((if a.firstSent then [] else [HEADER_T]) + a.responseBuffer[..n], last)],
                   answer := if last then None else Some(a.(firstSent := true, responseBuffer := a.responseBuffer[n..])))
            else mid
  {
    hide R.FlushRecords, EncodeAll, R.IsLastChunk;
    assert net.down + [] == net.down;
  }

  lemma NothingToSend<S>(cfg: Config<S>, net: Net<S>, room: int)
    requires net.answer.Some? && (net.answer.value.cancelled || (!net.answer.value.queryCompleted && !net.answer.value.failed))
    ensures DoAnswerSend(cfg, net, room) == net
  {
    assert net.down + [] == net.down && net.recs + [] == net.recs;
  }

  lemma AnswerFacts<S>(cfg: Config<S>, net: Net<S>)
    requires AnswerInv(cfg, net) && net.answer.Some?
    ensures var a := net.answer.value;
            && (a.failed ==> a.queryCompleted)
            && (a.responseBuffer != [] ==> a.query.Some?)
  {
  }

  lemma AnswerSends<S>(cfg: Config<S>, net: Net<S>, room: int)
    requires Inv(cfg, net)
    ensures Inv(cfg, DoAnswerSend(cfg, net, room))
  {
    if net.answer.None? { return; }
    var a := net.answer.value;
    assert AnswerInv(cfg, net);
    AnswerFacts(cfg, net);
    if a.cancelled || !a.queryCompleted {
      NothingToSend(cfg, net, room);
    } else if a.failed && room >= 0 {
      AnswerRefuses(cfg, net, room);
    } else {
      SendsSerialised(cfg, net, room);
    }
  }

  lemma SendsSerialised<S>(cfg: Config<S>, net: Net<S>, room: int)
    requires Inv(cfg, net) && net.answer.Some? && !net.answer.value.cancelled && net.answer.value.queryCompleted
    requires !(net.answer.value.failed && room >= 0)
    ensures Inv(cfg, DoAnswerSend(cfg, net, room))
  {
    Serialises(cfg, net);
    SendsAfterSerialising(cfg, net, room);
    var mid := Serialised(cfg, net);
    assert AnswerInv(cfg, mid) && mid.answer.Some?;
    hide Inv, AnswerInv, R.Fill, DoAnswerSend, NewlyWritten;
    AnswerFacts(cfg, mid);
    var b := mid.answer.value;
    if b.responseBuffer != [] && room >= 1 {
      var n := Taken(room, |b.responseBuffer|, 1);
      LastIsDone(b);
      hide R.IsLastChunk, AllDone;
      AnswerSendsPiece(cfg, mid, n, R.IsLastChunk(b) && n == |b.responseBuffer|);
    }
  }

  lemma LastIsDone(a: R.Answer)
    ensures R.IsLastChunk(a) ==> AllDone(a.responses)
  {
  }

  // ----- whole runs -----

  lemma {:induction false} InitInv<S>(cfg: Config<S>, timeout: int, now: int)
    ensures Inv(cfg, Init(cfg, timeout, now))
  {
    assert EncodeAll(cfg.w.enc, []) == [];
    assert Goods([]) == [];
  }

  lemma NextKeeps<S>(cfg: Config<S>, net: Net<S>, act: Action)
    requires SelfDelimiting(cfg.p, cfg.w.enc) && Inv(cfg, net)
    ensures Inv(cfg, Next(cfg, net, act))
  {
    hide Inv, SelfDelimiting, L.Step, DoAnswerSend, DoRespond, DoAskReceive;
    var net1 := Next(cfg, net, act);
    match act
    case AskSend(size) => AskSends(cfg, net, size);
    case AskReceive => AskReceives(cfg, net);
    case AskCancel(reason, callback) => AskEvents(cfg, net, net1, L.EvCancel(reason, callback));
    case AskTimeout(now, msg) => AskEvents(cfg, net, net1, L.EvTimeout(now, msg));
    case AskCollect(already, limit) => AskEvents(cfg, net, net1, L.EvCollect(already, limit));
    case AskSweep => AskEvents(cfg, net, net1, L.EvSweep);
    case AskDisconnect => AskEvents(cfg, net, net1, L.EvDisconnect);
    case AnswerReceive(userId) => AnswerReceives(cfg, net, userId);
    case AnswerRespond(rec) => AnswerResponds(cfg, net, rec);
    case AnswerSend(room) => AnswerSends(cfg, net, room);
    case AnswerCollectCancelled => AnswerDrops(cfg, net);
    case AnswerDisconnect => AnswerLosesLink(cfg, net);
  }

  lemma AnswerReceives<S>(cfg: Config<S>, net: Net<S>, userId: int)
    requires Inv(cfg, net)
    ensures Inv(cfg, DoAnswerReceive(cfg, net, userId))
  {
    if net.reachable && net.up != [] {
      if net.up[0].UQuery? { AnswerReceivesQuery(cfg, net, userId); } else { AnswerReceivesCancel(cfg, net, userId); }
    }
  }

  lemma AskSends<S>(cfg: Config<S>, net: Net<S>, size: nat)
    requires Inv(cfg, net)
    ensures Inv(cfg, DoAskSend(cfg, net, size))
  {
    var q := net.life.q;
    if !net.life.erased {
      if q.queryStatus == Q.NeedSendCancel {
        AskSendsCancel(cfg, net);
      } else if q.queryStatus == Q.QPrepared && 0 < size <= |q.queryBuffer| {
        AskSendsQuery(cfg, net, size);
      } else {
        assert UpInv(cfg, net);
      }
    }
  }

  lemma {:induction false} RunInv<S(!new)>(cfg: Config<S>, nets: seq<Net<S>>, k: nat)
    requires SelfDelimiting(cfg.p, cfg.w.enc) && IsRun(cfg, nets) && k < |nets|
    ensures Inv(cfg, nets[k])
  {
    hide Inv, SelfDelimiting, Next;
    if k == 0 {
      var timeout, now :| nets[0] == Init(cfg, timeout, now);
      InitInv(cfg, timeout, now);
    } else {
      RunInv(cfg, nets, k - 1);
      assert StepAt(cfg, nets, k) && Follows(cfg, nets[k - 1], nets[k]);
      var act :| nets[k] == Next(cfg, nets[k - 1], act);
      NextKeeps(cfg, nets[k - 1], act);
    }
  }

  /** The main result. In every run whose answer has at most 2^32 bytes, however the texts
      are cut and the two sides take turns: the rows handed to the asking user for a command are an initial part of those
      the answering user supplied for it; and once the command was handed over as done, they
      are all of them, and the answering user did say it was done. */
  lemma RowsArrive<S(!new)>(cfg: Config<S>, nets: seq<Net<S>>, k: nat, c: nat)
    requires SelfDelimiting(cfg.p, cfg.w.enc) && IsRun(cfg, nets) && k < |nets| && c < cfg.n
    requires |EncodeAll(cfg.w.enc, nets[k].recs)| <= UINT_SIZE
    ensures var net := nets[k];
            && Given(net.life.log, c) <= Rows(net.supplied, c)
            && (forall j | 0 <= j < |net.life.log| && net.life.log[j].cmd == c && net.life.log[j].status == DONE ::
                  Given(net.life.log, c) == Rows(net.supplied, c) && Final(net.supplied, c) == Some(DONE))
  {
    RunInv(cfg, nets, k);
    NeverMisread(cfg, nets, k);
    hide IsRun, SelfDelimiting, L.Inv, UpInv, AnswerInv, CarryInv, StreamInv, AskInv, CompleteInv, Given, Rows, Final, EncodeAll;
    RowsArrived(cfg, nets[k], c);
  }

  lemma RowsArrived<S>(cfg: Config<S>, net: Net<S>, c: nat)
    requires L.Inv(net.life) && CarryInv(net) && AskInv(cfg, net) && c < cfg.n
    ensures Given(net.life.log, c) <= Rows(net.supplied, c)
    ensures forall j | 0 <= j < |net.life.log| && net.life.log[j].cmd == c && net.life.log[j].status == DONE ::
              Given(net.life.log, c) == Rows(net.supplied, c) && Final(net.supplied, c) == Some(DONE)
  {
    hide ReaderInv, Orderly, Given, Rows, Final, L.Inv;
    var r, read, unread := net.life.q.received[c], net.recs[..net.seen], net.recs[net.seen..];
    assert Reaches(r, net.life.log, read, c, Awaiting(net.life));
    assert Agree(net.recs, net.supplied, c);
    assert read + unread == net.recs;
    Append(read, unread, c);
    forall j | 0 <= j < |net.life.log| && net.life.log[j].cmd == c && net.life.log[j].status == DONE
      ensures Given(net.life.log, c) == Rows(net.supplied, c) && Final(net.supplied, c) == Some(DONE)
    {
      HandedDone(net.life, j);
      AfterFinal(read, unread, c);
    }
  }

  lemma HandedDone<S>(l: L.Life<S>, j: nat)
    requires L.Inv(l) && j < |l.log| && l.log[j].status == DONE
    ensures l.log[j].cmd < |l.q.received|
    ensures var r := l.q.received[l.log[j].cmd]; r.status == DONE && r.rows == []
  {
    HandedOver(l.log, j);
    assert l.log[j].cmd < |l.q.received|;
  }

  lemma {:induction false} HandedOver(log: seq<Q.Delivery>, j: nat)
    requires j < |log| && log[j].status != ROWS
    ensures L.Finals(log, log[j].cmd) >= 1
  {
    if j < |log| - 1 {
      HandedOver(log[..|log| - 1], j);
    }
  }

  /** Such an answer that was received completely ends every command as the answering user did,
      with every row either handed over or waiting to be fetched, when both sides agree on
      the number of commands. */
  lemma CompleteAnswer<S(!new)>(cfg: Config<S>, nets: seq<Net<S>>, k: nat, c: nat)
    requires SelfDelimiting(cfg.p, cfg.w.enc) && IsRun(cfg, nets) && k < |nets| && c < cfg.n
    requires |EncodeAll(cfg.w.enc, nets[k].recs)| <= UINT_SIZE
    requires cfg.w.parseQuery(cfg.text).Some? && |cfg.w.parseQuery(cfg.text).value| == cfg.n
    requires nets[k].life.q.responseStatus == Q.RCompleted
    ensures var net := nets[k];
            && c < |net.life.q.received|
            && Final(net.supplied, c) == Some(net.life.q.received[c].status)
            && (net.life.q.received[c].status == DONE ==>
                  Given(net.life.log, c) + net.life.q.received[c].rows == Rows(net.supplied, c))
  {
    RunInv(cfg, nets, k);
    NeverMisread(cfg, nets, k);
    hide IsRun, SelfDelimiting, L.Inv, UpInv, AnswerInv, CarryInv, StreamInv, AskInv, CompleteInv, Given, Rows, Final, EncodeAll;
    AnswerCompleted(cfg, nets[k], c);
  }

  lemma AnswerCompleted<S>(cfg: Config<S>, net: Net<S>, c: nat)
    requires CarryInv(net) && AskInv(cfg, net) && CompleteInv(cfg, net) && c < cfg.n
    requires cfg.w.parseQuery(cfg.text).Some? && |cfg.w.parseQuery(cfg.text).value| == cfg.n
    requires net.life.q.responseStatus == Q.RCompleted
    ensures c < |net.life.q.received|
    ensures Final(net.supplied, c) == Some(net.life.q.received[c].status)
    ensures net.life.q.received[c].status == DONE ==>
              Given(net.life.log, c) + net.life.q.received[c].rows == Rows(net.supplied, c)
  {
    hide ReaderInv, Orderly, Given, Rows, Final;
    assert Reaches(net.life.q.received[c], net.life.log, net.recs[..net.seen], c, Awaiting(net.life));
    assert Agree(net.recs, net.supplied, c);
    assert net.recs[..net.seen] == net.recs;
  }

  /** The answering side takes the query up at most once, whole, as it was asked. */
  lemma AskedOnce<S(!new)>(cfg: Config<S>, nets: seq<Net<S>>, k: nat)
    requires SelfDelimiting(cfg.p, cfg.w.enc) && IsRun(cfg, nets) && k < |nets|
    ensures var net := nets[k];
            && net.created <= 1 && net.got <= cfg.text
            && (net.answer.Some? && net.answer.value.queryCompleted ==>
                  net.answer.value.queryBuffer == cfg.text && net.answer.value.query == cfg.w.parseQuery(cfg.text))
  {
    RunInv(cfg, nets, k);
    hide IsRun, SelfDelimiting, L.Inv, UpInv, AnswerInv, CarryInv, StreamInv, AskInv, CompleteInv;
    TakenUp(cfg, nets[k]);
  }

  lemma TakenUp<S>(cfg: Config<S>, net: Net<S>)
    requires UpInv(cfg, net) && AnswerInv(cfg, net)
    ensures net.created <= 1 && net.got <= cfg.text
    ensures net.answer.Some? && net.answer.value.queryCompleted ==>
              net.answer.value.queryBuffer == cfg.text && net.answer.value.query == cfg.w.parseQuery(cfg.text)
  {
    UpPrefix(cfg.text, net.got, net.up, net.life.q.queryBuffer, Stopped(net.life.q));
  }

  lemma {:induction false} UpPrefix(text: seq<Byte>, got: seq<Byte>, up: seq<Up>, rest: seq<Byte>, stopped: bool)
    requires UpOk(text, got, up, rest, stopped)
    ensures got <= text
    decreases |up|
  {
    if up != [] && up[0].UQuery? {
      UpPrefix(text, got + up[0].data, up[1..], rest, stopped);
      assert got <= got + up[0].data;
    } else {
      assert got <= got + rest;
    }
  }

  // ----- the compatibility byte -----

  /** The bytes counted so far come round to zero though a piece has been taken. */
  predicate Wraps<S>(net: Net<S>) {
    net.consumed != [] && (|net.consumed| - 1) % UINT_SIZE == 0
  }

  /** A piece is handed to the parser as it was sent, but for the compatibility byte of the
      first, exactly unless the count has come round to zero. Then it loses its first byte
      if that is the compatibility byte, and ends the program if not. */
  lemma PieceKeptWhole<S>(cfg: Config<S>, net: Net<S>)
    requires Inv(cfg, net) && !net.misread && Awaiting(net.life)
    requires net.down != [] && net.down[0].DResponse?
    ensures var data := net.down[0].data;
            var r := Q.StripHeader(net.life.q.bytesReceived, data);
            && (r == Some(if net.consumed == [] then data[1..] else data) <==> !Wraps(net))
            && (Wraps(net) ==> r == if data[0] == HEADER_T then Some(data[1..]) else None)
  {
    var data := net.down[0].data;
    hide Feed;
    DownPrefix(net.consumed + data, net.down[1..], Full(cfg, net.recs), net.answer.None?,
               net.answer.None? && Ended(cfg, net.recs));
    if net.consumed == [] {
      assert (net.consumed + data)[0] == data[0] == Full(cfg, net.recs)[0];
    } else {
      assert |data[1..]| != |data|;
    }
  }

  /** So an answer of at most 2^32 bytes is never misread and never ends the program. */
  lemma {:induction false} NeverMisread<S(!new)>(cfg: Config<S>, nets: seq<Net<S>>, k: nat)
    requires SelfDelimiting(cfg.p, cfg.w.enc) && IsRun(cfg, nets) && k < |nets|
    requires |EncodeAll(cfg.w.enc, nets[k].recs)| <= UINT_SIZE
    ensures !nets[k].misread && !nets[k].life.crashed
  {
    hide SelfDelimiting, Next, Inv, EncodeAll;
    if k > 0 {
      assert StepAt(cfg, nets, k) && Follows(cfg, nets[k - 1], nets[k]);
      var act :| nets[k] == Next(cfg, nets[k - 1], act);
      NextWrites(cfg, nets[k - 1], act);
      NeverMisread(cfg, nets, k - 1);
      RunInv(cfg, nets, k - 1);
      NotMisreadNow(cfg, nets[k - 1], act);
    }
  }

  lemma NextWrites<S>(cfg: Config<S>, net: Net<S>, act: Action)
    ensures |EncodeAll(cfg.w.enc, net.recs)| <= |EncodeAll(cfg.w.enc, Next(cfg, net, act).recs)|
  {
    hide L.Step, EncodeAll;
    if act.AnswerSend? && net.answer.Some? {
      EncodeAllAppend(cfg.w.enc, net.recs, NewlyWritten(net.answer.value));
    }
  }

  lemma NotMisreadNow<S>(cfg: Config<S>, net: Net<S>, act: Action)
    requires Inv(cfg, net) && !net.misread && !net.life.crashed && |EncodeAll(cfg.w.enc, net.recs)| <= UINT_SIZE
    ensures !Next(cfg, net, act).misread && !Next(cfg, net, act).life.crashed
  {
    if act.AskReceive? && net.linked && net.down != [] {
      if net.down[0].DResponse? && Awaiting(net.life) {
        PieceKeptWhole(cfg, net);
        NoWrap(cfg, net);
      }
      KeptIsNotMisread(cfg, net);
    } else {
      OtherStep(cfg, net, act);
    }
  }

  lemma NoWrap<S>(cfg: Config<S>, net: Net<S>)
    requires StreamInv(cfg, net) && net.down != [] && net.down[0].DResponse? && |net.consumed| != 1
    requires |EncodeAll(cfg.w.enc, net.recs)| <= UINT_SIZE
    ensures !Wraps(net)
  {
    NextPiece(cfg, net);
    hide StreamInv, EncodeAll;
  }

  lemma KeptIsNotMisread<S>(cfg: Config<S>, net: Net<S>)
    requires net.linked && net.down != [] && !net.life.crashed && !net.misread
    requires net.down[0].DResponse? && Awaiting(net.life) ==>
               var data := net.down[0].data;
               data != [] && Q.StripHeader(net.life.q.bytesReceived, data) == Some(if net.consumed == [] then data[1..] else data)
    ensures !DoAskReceive(cfg, net).misread && !DoAskReceive(cfg, net).life.crashed
  {
    hide Q.ParseReceived, Feed;
  }

  lemma OtherStep<S>(cfg: Config<S>, net: Net<S>, act: Action)
    requires act.AskReceive? ==> !net.linked || net.down == []
    ensures Next(cfg, net, act).misread == net.misread && Next(cfg, net, act).life.crashed == net.life.crashed
  {
    hide L.Step, R.ReceiveQuery, R.ReceiveCancel, R.SendResponse, R.DisconnectOne, R.SendFrom, Accepted, NewlyWritten;
    match act
    case AskSend(size) =>
      NoCrash(cfg.p, net.life, L.EvCancelSent);
      NoCrash(cfg.p, net.life, L.EvQuerySent(size));
    case AskCancel(reason, callback) => NoCrash(cfg.p, net.life, L.EvCancel(reason, callback));
    case AskTimeout(now, msg) => NoCrash(cfg.p, net.life, L.EvTimeout(now, msg));
    case AskCollect(already, limit) => NoCrash(cfg.p, net.life, L.EvCollect(already, limit));
    case AskSweep => NoCrash(cfg.p, net.life, L.EvSweep);
    case AskDisconnect => NoCrash(cfg.p, net.life, L.EvDisconnect);
    case _ =>
  }

  lemma NoCrash<S>(p: Parser<S>, l: L.Life<S>, ev: L.Event)
    requires !ev.EvReceive?
    ensures L.Step(p, l, ev).crashed == l.crashed
  {
  }

  // ----- the list of queries does what the asking side does here -----

  /** What a query sends is a step of the asking side. */
  lemma QueryListSends<S>(cfg: Config<S>, net: Net<S>, room: int)
    requires !net.life.erased && !net.life.crashed && Q.SendFrom(net.life.q, room).1 != Q.Nothing
    ensures var (q1, s) := Q.SendFrom(net.life.q, room);
            exists size: nat :: DoAskSend(cfg, net, size).life == net.life.(q := q1)
              && |DoAskSend(cfg, net, size).up| == |net.up| + 1
              && (s.Query_? ==> DoAskSend(cfg, net, size).up[|net.up|] == UQuery(s.data, s.last))
  {
    var (q1, s) := Q.SendFrom(net.life.q, room);
    var size := if s.Query_? then |s.data| else 0;
    assert s.Query_? ==> net.life.q.queryBuffer[..size] == s.data;
    assert DoAskSend(cfg, net, size).life == net.life.(q := q1);
  }
}
