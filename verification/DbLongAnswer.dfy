/** Answers of more than 2^32 bytes: the count of received bytes does come round to zero,
    whatever the query and however records are written. */
module DbLongAnswer {
  import opened Basics
  import opened DbCommon
  import opened DbRecords
  import opened DbEndToEnd
  import Q = DbQueryList
  import R = DbResponseList
  import L = DbLifecycle

  const OneRow := Record(0, ROWS, ["row"], "")

  /** The query has a command. */
  predicate Answerable<S>(cfg: Config<S>) {
    cfg.text != [] && cfg.w.parseQuery(cfg.text).Some? && cfg.w.parseQuery(cfg.text).value != []
  }

  /** Command 0 is open for more rows. */
  predicate OpenAnswer(a: R.Answer) {
    && a.queryCompleted && !a.failed && !a.cancelled && !a.allPrepared
    && a.query.Some? && a.responses != [] && a.responses[0].status == ROWS
  }

  /** The asking side waits, has taken `taken` bytes of the records, and there are none on
      the link. */
  predicate Flowing<S>(net: Net<S>, taken: nat) {
    && net.linked && Awaiting(net.life) && !net.misread && net.down == []
    && |net.consumed| == (if taken == 0 then 0 else taken + 1)
    && net.answer.Some? && OpenAnswer(net.answer.value)
  }

  function Last<S>(nets: seq<Net<S>>): Net<S>
    requires nets != []
  {
    nets[|nets| - 1]
  }

  lemma OneStep<S(!new)>(cfg: Config<S>, nets: seq<Net<S>>, act: Action) returns (more: seq<Net<S>>)
    requires IsRun(cfg, nets)
    ensures IsRun(cfg, more) && Last(more) == Next(cfg, Last(nets), act)
  {
    hide Next;
    more := nets + [Next(cfg, Last(nets), act)];
    forall i: nat | 0 < i < |more| ensures StepAt(cfg, more, i) {
      if i < |nets| { assert StepAt(cfg, nets, i); }
    }
  }

  // ----- the query is asked and taken up -----

  lemma Asked<S(!new)>(cfg: Config<S>) returns (nets: seq<Net<S>>)
    requires Answerable(cfg)
    ensures IsRun(cfg, nets) && Flowing(Last(nets), 0)
  {
    nets := [Init(cfg, 0, 0)];
    assert cfg.text[..|cfg.text|] == cfg.text && [] + cfg.text == cfg.text;
    var up := UQuery(cfg.text, true);
    assert ([] + [up])[0] == up;
    nets := OneStep(cfg, nets, AskSend(|cfg.text|));
    assert Last(nets).up == [up];
    nets := OneStep(cfg, nets, AnswerReceive(0));
  }

  // ----- rows are written -----

  lemma RespondsMore<S>(cfg: Config<S>, net: Net<S>)
    requires Flowing(net, 0)
    ensures var net1 := Next(cfg, net, AnswerRespond(OneRow));
            && Flowing(net1, 0) && net1.recs == net.recs && HasNews(net1.answer.value.responses[0])
  {
    var rs := net.answer.value.responses;
    var r1 := AddToOne(rs[0], ROWS, ["row"], "");
    assert r1.rows != [] && !r1.wasRead;
    assert AddToQueryState(rs, OneRow) == rs[0 := r1];
    assert rs[0 := r1][0].status == ROWS;
  }

  lemma SerialisedRecs<S>(cfg: Config<S>, net: Net<S>)
    requires net.answer.Some?
    ensures Serialised(cfg, net).recs == net.recs + NewlyWritten(net.answer.value)
  {
  }

  lemma WritesMore<S>(cfg: Config<S>, net: Net<S>)
    requires Flowing(net, 0) && HasNews(net.answer.value.responses[0])
    ensures var net1 := Next(cfg, net, AnswerSend(0));
            Flowing(net1, 0) && |net1.recs| > |net.recs|
  {
    NewsWritten(net.answer.value);
    StaysOpen(cfg, net, 0);
    SendsAfterSerialising(cfg, net, 0);
    SerialisedRecs(cfg, net);
    hide *;
  }

  lemma NewsWritten(a: R.Answer)
    requires OpenAnswer(a) && HasNews(a.responses[0])
    ensures NewlyWritten(a) != []
  {
    FlushCarries(a.responses, |a.responses|, 0);
    assert Rows([], 0) == [];
    hide R.FlushRecords;
  }

  lemma {:induction false} Written<S(!new)>(cfg: Config<S>, n: nat) returns (nets: seq<Net<S>>)
    requires Answerable(cfg)
    ensures IsRun(cfg, nets) && Flowing(Last(nets), 0) && |Last(nets).recs| >= n
  {
    if n == 0 {
      nets := Asked(cfg);
    } else {
      nets := Written(cfg, n - 1);
      hide *;
      RespondsMore(cfg, Last(nets));
      nets := OneStep(cfg, nets, AnswerRespond(OneRow));
      WritesMore(cfg, Last(nets));
      nets := OneStep(cfg, nets, AnswerSend(0));
    }
  }

  // ----- and taken byte by byte -----

  lemma {:induction false} LongText(enc: Record -> seq<Byte>, recs: seq<Record>)
    requires forall r :: enc(r) != []
    ensures |EncodeAll(enc, recs)| >= |recs|
  {
    if recs != [] {
      assert enc(recs[0]) != [];
      LongText(enc, recs[1..]);
    }
  }

  lemma HasBytes<S>(cfg: Config<S>, net: Net<S>, taken: nat)
    requires SelfDelimiting(cfg.p, cfg.w.enc) && StreamInv(cfg, net) && Flowing(net, taken) && taken < |net.recs|
    ensures net.answer.value.responseBuffer != [] && (net.answer.value.firstSent <==> taken > 0)
  {
    LongText(cfg.w.enc, net.recs);
    hide EncodeAll, SelfDelimiting;
  }

  /** Serialising leaves the command open. */
  lemma StaysOpen<S>(cfg: Config<S>, net: Net<S>, taken: nat)
    requires Flowing(net, taken)
    ensures Flowing(Serialised(cfg, net), taken) && !R.IsLastChunk(Serialised(cfg, net).answer.value)
    ensures |Serialised(cfg, net).recs| >= |net.recs|
  {
    hide EncodeAll, R.FlushRecords;
  }

  lemma ByteLeaves<S>(cfg: Config<S>, net: Net<S>)
    requires net.down == [] && net.answer.Some? && OpenAnswer(net.answer.value)
    requires var b := Serialised(cfg, net).answer.value; b.responseBuffer != [] && !R.IsLastChunk(b)
    ensures var mid := Serialised(cfg, net);
            var b := mid.answer.value;
            Next(cfg, net, AnswerSend(1)) ==
            mid.(down := [DResponse((if b.firstSent then [] else [HEADER_T]) + b.responseBuffer[..1], false)],
                 answer := Some(b.(firstSent := true, responseBuffer := b.responseBuffer[1..])))
  {
    SendsAfterSerialising(cfg, net, 1);
    hide R.IsLastChunk, R.Fill, NewlyWritten, DoAnswerSend;
  }

  /** One byte of the answer is sent; the first time, with the compatibility byte. */
  lemma SendsByte<S>(cfg: Config<S>, net: Net<S>, taken: nat)
    requires SelfDelimiting(cfg.p, cfg.w.enc) && Inv(cfg, net) && Flowing(net, taken) && taken < |net.recs|
    ensures var net1 := Next(cfg, net, AnswerSend(1));
            && net1 == net.(answer := net1.answer, recs := net1.recs, down := net1.down)
            && net1.answer.Some? && OpenAnswer(net1.answer.value) && |net1.recs| >= |net.recs|
            && |net1.down| == 1 && net1.down[0].DResponse? && !net1.down[0].last
            && |net1.down[0].data| == if taken == 0 then 2 else 1
  {
    StaysOpen(cfg, net, taken);
    Serialises(cfg, net);
    var mid := Serialised(cfg, net);
    assert StreamInv(cfg, mid);
    hide Inv, StreamInv, SelfDelimiting, R.IsLastChunk, R.Fill, NewlyWritten, Awaiting, AllDone, Next;
    HasBytes(cfg, mid, taken);
    ByteLeaves(cfg, net);
  }

  /** It is taken while the count has not come round. */
  lemma TakesByte<S>(cfg: Config<S>, net: Net<S>, taken: nat)
    requires SelfDelimiting(cfg.p, cfg.w.enc) && Inv(cfg, net) && taken < UINT_SIZE
    requires net.linked && Awaiting(net.life) && !net.misread && |net.consumed| == (if taken == 0 then 0 else taken + 1)
    requires net.answer.Some? && OpenAnswer(net.answer.value)
    requires |net.down| == 1 && net.down[0].DResponse? && !net.down[0].last
    requires |net.down[0].data| == if taken == 0 then 2 else 1
    ensures var net1 := Next(cfg, net, AskReceive); Flowing(net1, taken + 1) && net1.recs == net.recs
  {
    var data := net.down[0].data;
    KeepsByte(cfg, net, taken);
    InvParts(cfg, net);
    NextPiece(cfg, net);
    hide *;
    var seen1, parser1, rs := TakePiece(cfg, net, data, false);
    LastIsAll(cfg, net);
    PieceState(cfg, net, seen1, parser1, rs);
    ByteTaken(cfg, net, DoAskReceive(cfg, net), taken, parser1, rs);
  }

  lemma KeepsByte<S>(cfg: Config<S>, net: Net<S>, taken: nat)
    requires Inv(cfg, net) && taken < UINT_SIZE && Awaiting(net.life) && !net.misread && net.linked
    requires |net.consumed| == (if taken == 0 then 0 else taken + 1) && net.down != [] && net.down[0].DResponse?
    ensures !Misread(net, net.down[0].data)
    ensures var net1 := Next(cfg, net, AskReceive); !net1.misread && !net1.life.crashed && net1 == DoAskReceive(cfg, net)
  {
    PieceKeptWhole(cfg, net);
    LastIsAll(cfg, net);
    hide Inv;
    KeptIsNotMisread(cfg, net);
    hide DoAskReceive;
  }

  lemma InvParts<S>(cfg: Config<S>, net: Net<S>)
    requires Inv(cfg, net) && !net.misread
    ensures AskInv(cfg, net) && CarryInv(net) && StreamInv(cfg, net) && AnswerInv(cfg, net) && Orderly(net.recs)
  {
  }

  lemma ByteTaken<S>(cfg: Config<S>, net: Net<S>, net1: Net<S>, taken: nat, parser1: S, rs: seq<Received>)
    requires net.linked && Awaiting(net.life) && net.answer.Some? && OpenAnswer(net.answer.value)
    requires |net.consumed| == (if taken == 0 then 0 else taken + 1) && |net.down| == 1 && net.down[0].DResponse?
    requires |net.down[0].data| == (if taken == 0 then 2 else 1) && !net.down[0].last
    requires net1 == net.(life := net1.life, consumed := net.consumed + net.down[0].data, seen := net1.seen, down := net.down[1..],
                          misread := false)
    requires net1.life == net.life.(q := Fed(net.life.q, false, if net.consumed == [] then |net.down[0].data| - 1 else |net.down[0].data|,
                                             parser1, rs))
    ensures Flowing(net1, taken + 1)
  {
    assert net.down[1..] == [];
    hide OpenAnswer;
  }

  lemma FlowsOn<S>(cfg: Config<S>, net: Net<S>, taken: nat)
    requires SelfDelimiting(cfg.p, cfg.w.enc) && Inv(cfg, net) && Flowing(net, taken)
    requires taken < |net.recs| && taken < UINT_SIZE
    ensures var net2 := Next(cfg, Next(cfg, net, AnswerSend(1)), AskReceive);
            Flowing(net2, taken + 1) && |net2.recs| >= |net.recs|
  {
    hide SelfDelimiting, Inv, Next, OpenAnswer, Awaiting;
    SendsByte(cfg, net, taken);
    NextKeeps(cfg, net, AnswerSend(1));
    TakesByte(cfg, Next(cfg, net, AnswerSend(1)), taken);
  }

  lemma {:induction false} Taken<S(!new)>(cfg: Config<S>, taken: nat) returns (nets: seq<Net<S>>)
    requires SelfDelimiting(cfg.p, cfg.w.enc) && Answerable(cfg) && taken <= UINT_SIZE
    ensures IsRun(cfg, nets) && Flowing(Last(nets), taken) && |Last(nets).recs| > UINT_SIZE
  {
    if taken == 0 {
      nets := Written(cfg, UINT_SIZE + 1);
    } else {
      nets := Taken(cfg, taken - 1);
      hide SelfDelimiting, Inv, Next, Flowing, Answerable;
      RunInv(cfg, nets, |nets| - 1);
      FlowsOn(cfg, Last(nets), taken - 1);
      nets := OneStep(cfg, nets, AnswerSend(1));
      nets := OneStep(cfg, nets, AskReceive);
    }
  }

  lemma LosesByte<S>(cfg: Config<S>, net: Net<S>)
    requires Inv(cfg, net) && !net.misread && Awaiting(net.life) && Wraps(net)
    requires net.linked && net.down != [] && net.down[0].DResponse?
    ensures var net1 := Next(cfg, net, AskReceive); net1.misread || net1.life.crashed
  {
    PieceKeptWhole(cfg, net);
    hide Inv, Q.ParseReceived, ReadCount;
  }

  lemma FlowingWraps<S>(net: Net<S>)
    requires Flowing(net, UINT_SIZE)
    ensures Wraps(net) && Awaiting(net.life) && net.linked && !net.misread
  {
  }

  lemma SameWraps<S>(net: Net<S>, net1: Net<S>)
    requires net1.consumed == net.consumed
    ensures Wraps(net1) == Wraps(net)
  {
  }

  /** There is a run that comes to a piece, still waited for, at which the count has come
      round to zero: so one that is misread, or at which the program ends. */
  lemma WrapIsReached<S(!new)>(cfg: Config<S>) returns (nets: seq<Net<S>>)
    requires SelfDelimiting(cfg.p, cfg.w.enc) && Answerable(cfg)
    ensures IsRun(cfg, nets)
    ensures var net := Last(nets);
            && Awaiting(net.life) && !net.misread && net.down != [] && net.down[0].DResponse? && Wraps(net)
            && (var net1 := Next(cfg, net, AskReceive); net1.misread || net1.life.crashed)
  {
    nets := Taken(cfg, UINT_SIZE);
    RunInv(cfg, nets, |nets| - 1);
    var net := Last(nets);
    SendsByte(cfg, net, UINT_SIZE);
    FlowingWraps(net);
    hide SelfDelimiting, Inv, Next, OpenAnswer, Awaiting, Flowing, Wraps;
    NextKeeps(cfg, net, AnswerSend(1));
    assert Wraps(Next(cfg, net, AnswerSend(1))) by { SameWraps(net, Next(cfg, net, AnswerSend(1))); }
    LosesByte(cfg, Next(cfg, net, AnswerSend(1)));
    nets := OneStep(cfg, nets, AnswerSend(1));
    hide *;
  }
}
