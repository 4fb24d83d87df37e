/** Answers do arrive: once the answering user has given every command its final status, one
    message with enough room ends the answer, and the asking side, if it still waits, has it
    completely when it has taken what is on the link. */
module DbDelivery {
  import opened Basics
  import opened DbCommon
  import opened DbRecords
  import opened DbEndToEnd
  import Q = DbQueryList
  import R = DbResponseList
  import L = DbLifecycle

  // ----- the answering side knows when all is prepared -----

  predicate AnswerConsistent<S>(net: Net<S>) {
    net.answer.Some? ==> R.Consistent(net.answer.value)
  }

  lemma NextConsistent<S>(cfg: Config<S>, net: Net<S>, act: Action)
    requires AnswerConsistent(net)
    ensures AnswerConsistent(Next(cfg, net, act))
  {
    hide L.Step, R.Consistent, R.ReceiveQuery, R.SendResponse, R.SendFrom, Accepted, NewlyWritten, AfterMessage;
    match act
    case AnswerReceive(userId) =>
      if net.reachable && net.up != [] && net.up[0].UQuery? {
        var a := if net.answer.Some? then net.answer.value else R.NewAnswer(userId, cfg.id, cfg.serviceId, cfg.service);
        NewConsistent(userId, cfg.id, cfg.serviceId, cfg.service);
        R.ReceiveConsistent(cfg.w, a, net.up[0].data, net.up[0].last);
      } else if net.answer.Some? {
        CancelConsistent(net.answer.value);
      }
    case AnswerRespond(rec) =>
      if net.answer.Some? { R.RespondConsistentIff(net.answer.value, rec); }
    case AnswerSend(room) =>
      if net.answer.Some? { R.SendMeans(cfg.w, net.answer.value, room); }
    case AnswerDisconnect =>
      if net.answer.Some? { CancelConsistent(net.answer.value); }
    case _ =>
  }

  lemma NewConsistent(userId: int, id: int, serviceId: int, service: string)
    ensures R.Consistent(R.NewAnswer(userId, id, serviceId, service))
  {
  }

  lemma CancelConsistent(a: R.Answer)
    ensures R.Consistent(a) ==> forall text :: R.Consistent(R.ReceiveCancel(a, text))
  {
  }

  lemma {:induction false} RunConsistent<S(!new)>(cfg: Config<S>, nets: seq<Net<S>>, k: nat)
    requires IsRun(cfg, nets) && k < |nets|
    ensures AnswerConsistent(nets[k])
  {
    hide Next, AnswerConsistent;
    if k == 0 {
      var timeout, now :| nets[0] == Init(cfg, timeout, now);
      NoAnswerYet(cfg, timeout, now);
    } else {
      RunConsistent(cfg, nets, k - 1);
      assert StepAt(cfg, nets, k) && Follows(cfg, nets[k - 1], nets[k]);
      var act :| nets[k] == Next(cfg, nets[k - 1], act);
      NextConsistent(cfg, nets[k - 1], act);
    }
  }

  lemma NoAnswerYet<S>(cfg: Config<S>, timeout: int, now: int)
    ensures AnswerConsistent(Init(cfg, timeout, now))
  {
  }

  // ----- the asking side takes what is on the link -----

  function TakeAll<S>(cfg: Config<S>, net: Net<S>, n: nat): Net<S>
    decreases n
  {
    if n == 0 then net else TakeAll(cfg, Next(cfg, net, AskReceive), n - 1)
  }

  /** The asking side waits, and the link ends with the last piece of an answer of at most
      2^32 bytes. */
  ghost predicate Arriving<S>(cfg: Config<S>, net: Net<S>) {
    && Inv(cfg, net) && net.linked && Awaiting(net.life) && !net.misread
    && |EncodeAll(cfg.w.enc, net.recs)| <= UINT_SIZE
    && net.down != [] && net.down[|net.down| - 1].DResponse? && net.down[|net.down| - 1].last
  }

  lemma TakesOne<S>(cfg: Config<S>, net: Net<S>)
    requires SelfDelimiting(cfg.p, cfg.w.enc) && Arriving(cfg, net)
    ensures var net1 := Next(cfg, net, AskReceive);
            && net1.down == net.down[1..]
            && (if |net.down| == 1 then net1.life.q.responseStatus == Q.RCompleted else Arriving(cfg, net1))
  {
    hide *;
    ArrivingParts(cfg, net);
    NextKeeps(cfg, net, AskReceive);
    TakesPiece(cfg, net);
    var net1 := DoAskReceive(cfg, net);
    if |net.down| > 1 {
      LastStays(net.down);
      MakeArriving(cfg, net1);
    }
  }

  lemma TakesPiece<S>(cfg: Config<S>, net: Net<S>)
    requires SelfDelimiting(cfg.p, cfg.w.enc) && Inv(cfg, net) && net.linked && Awaiting(net.life)
    requires !net.misread && !net.life.crashed && |EncodeAll(cfg.w.enc, net.recs)| <= UINT_SIZE
    requires net.down != [] && net.down[|net.down| - 1].DResponse? && net.down[|net.down| - 1].last
    ensures var net1 := DoAskReceive(cfg, net);
            && Next(cfg, net, AskReceive) == net1
            && net1.down == net.down[1..] && net1.recs == net.recs && net1.linked && !net1.misread
            && (if |net.down| == 1 then net1.life.q.responseStatus == Q.RCompleted else Awaiting(net1.life))
  {
    hide *;
    PiecesOnly(cfg, net);
    InvFacts(cfg, net);
    LastIsAll(cfg, net);
    NextPiece(cfg, net);
    NotMisread(cfg, net);
    NextReceives(cfg, net);
    var DResponse(data, last) := net.down[0];
    var seen1, parser1, rs := TakePiece(cfg, net, data, last);
    PieceState(cfg, net, seen1, parser1, rs);
    AfterPiece(net, DoAskReceive(cfg, net), last, if net.consumed == [] then |data| - 1 else |data|, parser1, rs);
  }

  lemma MakeArriving<S>(cfg: Config<S>, net: Net<S>)
    requires Inv(cfg, net) && net.linked && Awaiting(net.life) && !net.misread
    requires |EncodeAll(cfg.w.enc, net.recs)| <= UINT_SIZE
    requires net.down != [] && net.down[|net.down| - 1].DResponse? && net.down[|net.down| - 1].last
    ensures Arriving(cfg, net)
  {
    hide Inv, Awaiting;
  }

  lemma ArrivingParts<S>(cfg: Config<S>, net: Net<S>)
    requires Arriving(cfg, net)
    ensures Inv(cfg, net) && net.linked && Awaiting(net.life) && !net.misread && !net.life.crashed
    ensures |EncodeAll(cfg.w.enc, net.recs)| <= UINT_SIZE
    ensures net.down != [] && net.down[|net.down| - 1].DResponse? && net.down[|net.down| - 1].last
  {
    hide Inv;
  }

  lemma NotMisread<S>(cfg: Config<S>, net: Net<S>)
    requires Inv(cfg, net) && net.linked && Awaiting(net.life) && !net.misread && !net.life.crashed
    requires |EncodeAll(cfg.w.enc, net.recs)| <= UINT_SIZE && net.down != [] && net.down[0].DResponse?
    ensures !Misread(net, net.down[0].data)
    ensures !DoAskReceive(cfg, net).misread && !DoAskReceive(cfg, net).life.crashed
  {
    hide *;
    InvFacts(cfg, net);
    PieceKeptWhole(cfg, net);
    NoWrap(cfg, net);
    LastIsAll(cfg, net);
    KeptMeans(net, net.down[0].data);
    KeptIsNotMisread(cfg, net);
  }

  lemma KeptMeans<S>(net: Net<S>, data: seq<Byte>)
    requires data != [] && Q.StripHeader(net.life.q.bytesReceived, data) == Some(if net.consumed == [] then data[1..] else data)
    ensures !Misread(net, data)
  {
  }

  lemma NextReceives<S>(cfg: Config<S>, net: Net<S>)
    requires net.linked && net.down != [] && !net.life.crashed && !DoAskReceive(cfg, net).life.crashed
    ensures Next(cfg, net, AskReceive) == DoAskReceive(cfg, net)
    ensures DoAskReceive(cfg, net).down == net.down[1..]
    ensures DoAskReceive(cfg, net).recs == net.recs && DoAskReceive(cfg, net).linked
  {
    hide L.Step, Misread, ReadCount;
  }

  lemma AfterPiece<S>(net: Net<S>, net1: Net<S>, last: bool, size: nat, parser1: S, rs: seq<Received>)
    requires Awaiting(net.life) && net1.life == net.life.(q := Fed(net.life.q, last, size, parser1, rs))
    ensures if last then net1.life.q.responseStatus == Q.RCompleted else Awaiting(net1.life)
  {
  }

  lemma LastStays(down: seq<Down>)
    requires |down| > 1
    ensures down[1..] != [] && down[1..][|down| - 2] == down[|down| - 1]
  {
  }

  lemma InvFacts<S>(cfg: Config<S>, net: Net<S>)
    requires Inv(cfg, net) && !net.misread && Awaiting(net.life)
    ensures AskInv(cfg, net) && StreamInv(cfg, net) && AnswerInv(cfg, net) && Orderly(net.recs) && |net.consumed| != 1
  {
  }

  /** The last piece is the last message: all before it are pieces, and not the last. */
  lemma PiecesOnly<S>(cfg: Config<S>, net: Net<S>)
    requires Inv(cfg, net) && net.down != [] && net.down[|net.down| - 1].DResponse? && net.down[|net.down| - 1].last
    ensures net.down[0].DResponse? && (net.down[0].last <==> |net.down| == 1)
  {
    assert StreamInv(cfg, net);
  }

  lemma {:induction false} TakesAll<S>(cfg: Config<S>, net: Net<S>)
    requires SelfDelimiting(cfg.p, cfg.w.enc) && Arriving(cfg, net)
    ensures var net1 := TakeAll(cfg, net, |net.down|); net1.life.q.responseStatus == Q.RCompleted && net1.down == []
    decreases |net.down|
  {
    hide SelfDelimiting, Inv, Next, Awaiting;
    TakesOne(cfg, net);
    if |net.down| > 1 { TakesAll(cfg, Next(cfg, net, AskReceive)); }
  }

  // ----- the answer ends -----

  /** All that is still to be sent fits into the next message. */
  predicate Ready(w: R.Wire, a: R.Answer, room: int) {
    && a.queryCompleted && !a.failed && !a.cancelled && AllTerminal(a.responses)
    && a.responses != [] && 0 < |R.Unsent(w, a)| <= room
  }

  /** In every run: when every command has its final status, one message with enough room is
      the last one and drops the query; and if the asking side still waits, it has a complete
      answer when it has taken what is on the link. */
  lemma AnswerCompletes<S(!new)>(cfg: Config<S>, nets: seq<Net<S>>, k: nat, room: int)
    requires SelfDelimiting(cfg.p, cfg.w.enc) && IsRun(cfg, nets) && k < |nets|
    requires nets[k].answer.Some? && Ready(cfg.w, nets[k].answer.value, room)
    ensures var net := Next(cfg, nets[k], AnswerSend(room));
            && net.answer == None && net.down != [] && net.down[|net.down| - 1].DResponse? && net.down[|net.down| - 1].last
            && (nets[k].linked && Awaiting(nets[k].life) && |EncodeAll(cfg.w.enc, net.recs)| <= UINT_SIZE ==>
                  var net1 := TakeAll(cfg, net, |net.down|);
                  net1.life.q.responseStatus == Q.RCompleted && net1.down == [])
  {
    hide *;
    var net := nets[k];
    RunInv(cfg, nets, k);
    RunConsistent(cfg, nets, k);
    LastLeaves(cfg, net, room);
    var net1 := Next(cfg, net, AnswerSend(room));
    if net.linked && Awaiting(net.life) && |EncodeAll(cfg.w.enc, net1.recs)| <= UINT_SIZE {
      NextKeeps(cfg, net, AnswerSend(room));
      NextWrites(cfg, net, AnswerSend(room));
      NeverMisread(cfg, nets, k);
      MakeArriving(cfg, net1);
      TakesAll(cfg, net1);
    }
  }

  lemma LastLeaves<S>(cfg: Config<S>, net: Net<S>, room: int)
    requires AnswerConsistent(net) && net.answer.Some? && Ready(cfg.w, net.answer.value, room)
    ensures var net1 := Next(cfg, net, AnswerSend(room));
            && net1 == net.(answer := None, down := net1.down, recs := net1.recs)
            && net1.down != [] && net1.down[|net1.down| - 1].DResponse? && net1.down[|net1.down| - 1].last
  {
    R.SendMeans(cfg.w, net.answer.value, room);
    hide R.SendFrom, R.Unsent, AllTerminal, NewlyWritten;
  }
}
