/** The life of one query of ours over any run: every command ends once, with one status
    that is handed over once, and the query is not dropped before. */
module DbLifecycle {
  import opened Basics
  import opened DbCommon
  import opened DbQueryList

  /** Everything that can happen to a query. A sweep drops it when it is finished, which
      also happens when another query is cancelled. */
  datatype Event =
    | EvReceive(data: seq<Byte>, kind: Kind)
    | EvCancel(reason: string, callback: bool)
    | EvTimeout(now: int, msg: string)
    | EvDisconnect
    | EvCollect(already: nat, limit: nat)
    | EvSweep
    | EvQuerySent(size: nat)
    | EvCancelSent

  /** A query, all that was handed to the user so far, whether it was dropped, and whether
      an assertion has ended the program. */
  datatype Life<S> = Life(q: Query<S>, log: seq<Delivery>, erased: bool, crashed: bool)

  function Sweep<S>(l: Life<S>): Life<S> {
    l.(erased := CanBeErased(l.q))
  }

  function Step<S>(p: Parser<S>, l: Life<S>, ev: Event): Life<S> {
    if l.erased || l.crashed then l else
      match ev
      case EvReceive(data, kind) =>
        (match ReceiveOne(p, l.q, data, kind)
         case None => l.(crashed := true)
         case Some(q) => l.(q := q))
      case EvCancel(reason, callback) => l.(q := CancelOne(l.q, reason, callback))
      case EvTimeout(now, msg) => l.(q := TimeoutOne(l.q, now, msg))
      case EvDisconnect => l.(q := DisconnectOne(l.q))
      case EvCollect(already, limit) =>
        if l.q.responseStatus == RCancelled then Sweep(l) else
          var (q, ds) := CollectOne(l.q, 0, already, limit);
          Sweep(l.(q := q, log := l.log + ds))
      case EvSweep => Sweep(l)
      case EvQuerySent(size) =>
        if l.q.queryStatus in {QRunning, QPrepared} && size <= |l.q.queryBuffer| then
          l.(q := l.q.(queryBuffer := l.q.queryBuffer[size..]))
        else l
      case EvCancelSent =>
        if l.q.queryStatus == NeedSendCancel then l.(q := l.q.(queryStatus := CancelWasSent)) else l
  }

  function Run<S>(p: Parser<S>, l: Life<S>, events: seq<Event>): Life<S>
    decreases |events|
  {
    if events == [] then l
    else Step(p, Run(p, l, events[..|events| - 1]), events[|events| - 1])
  }

  /** How many final statuses of command `c` the user was given. */
  function Finals(log: seq<Delivery>, c: nat): nat {
    if log == [] then 0 else
      var last := log[|log| - 1];
      Finals(log[..|log| - 1], c) + if last.cmd == c && last.status != ROWS then 1 else 0
  }

  /** The user was given exactly one final status for each of `n` commands. */
  ghost predicate AllEnded(log: seq<Delivery>, n: nat) {
    forall c | 0 <= c < n :: Finals(log, c) == 1
  }

  // ----- the invariant -----

  ghost predicate Answers(rs: seq<Received>, log: seq<Delivery>) {
    && (forall c | 0 <= c < |rs| :: Finals(log, c) == if rs[c].wasRead && rs[c].status != ROWS then 1 else 0)
    && (forall c | 0 <= c < |rs| :: rs[c].wasRead ==> rs[c].rows == [])
    && (forall j | 0 <= j < |log| :: log[j].cmd < |rs| && (log[j].status != ROWS ==> log[j].status == rs[log[j].cmd].status))
    && (forall j | 0 <= j < |log| :: log[j].completed <==> j == |log| - 1 && AllDone(rs))
  }

  ghost predicate Statuses<S>(q: Query<S>) {
    && (q.responseStatus == RRunning ==> q.queryStatus in {QRunning, QPrepared})
    && (q.responseStatus in {RCompleted, RAborted} ==> AllTerminal(q.received))
  }

  ghost predicate Inv<S>(l: Life<S>) {
    && Answers(l.q.received, l.log)
    && Statuses(l.q)
    && (l.erased ==> l.q.responseStatus == RCancelled || AllDone(l.q.received))
  }

  /** Final answers stay as they are, whether or not they were handed over. */
  ghost predicate Settled(rs: seq<Received>, rs': seq<Received>) {
    && |rs'| == |rs|
    && forall c | 0 <= c < |rs| :: if rs[c].status != ROWS then rs'[c] == rs[c] else rs'[c].wasRead ==> rs'[c].status == ROWS && rs'[c].rows == [] && rs[c].wasRead
  }

  lemma SettledAnswers(rs: seq<Received>, rs': seq<Received>, log: seq<Delivery>)
    requires Answers(rs, log) && Settled(rs, rs')
    ensures Answers(rs', log)
  {
    forall c | 0 <= c < |rs|
      ensures rs'[c].wasRead && rs'[c].status != ROWS <==> rs[c].wasRead && rs[c].status != ROWS
    {
    }
    forall j | 0 <= j < |log| && log[j].status != ROWS
      ensures log[j].status == rs'[log[j].cmd].status
    {
    }
    assert AllDone(rs) <==> AllDone(rs') by {
      if AllDone(rs') {
        forall c | 0 <= c < |rs|
          ensures rs[c].wasRead && rs[c].status != ROWS
        {
          assert rs'[c].wasRead && rs'[c].status != ROWS;
        }
      }
    }
  }

  lemma {:induction false} ApplySettles(rs: seq<Received>, items: seq<Item>)
    requires forall c | 0 <= c < |rs| :: rs[c].wasRead ==> rs[c].rows == []
    ensures Settled(rs, ApplyItems(rs, items).0)
    decreases |items|
  {
    if items != [] && !items[0].Bad? {
      var rs1 := AddToQueryState(rs, items[0].rec);
      assert Settled(rs, rs1);
      ApplySettles(rs1, items[1..]);
    }
  }

  lemma ErrorsSettle(rs: seq<Received>, msg: string)
    ensures Settled(rs, SetErrors(rs, msg)) && AllTerminal(SetErrors(rs, msg))
  {
  }

  lemma ParseSettles<S>(p: Parser<S>, q: Query<S>)
    requires forall c | 0 <= c < |q.received| :: q.received[c].wasRead ==> q.received[c].rows == []
    requires q.responseStatus == RCompleted || (q.responseStatus == RRunning && Statuses(q))
    ensures Settled(q.received, ParseReceived(p, q).received) && Statuses(ParseReceived(p, q))
  {
    var (q1, ok) := ProcessResponse(p, q, q.responseStatus == RCompleted);
    match Feed(p, q.parser, q.responseBuffer) {
      case None =>
      case Some((s, items)) => ApplySettles(q.received, items);
    }
    assert Settled(q.received, q1.received);
    ErrorsSettle(q1.received, "Failed to parse");
    ErrorsSettle(q1.received, "Response not received");
  }

  lemma HandKeeps<S>(q: Query<S>, c: nat, log: seq<Delivery>)
    requires c < |q.received| && HasNews(q.received[c]) && Answers(q.received, log) && Statuses(q)
    ensures var (q1, d) := Handed(q, c);
            Answers(q1.received, log + [d]) && Statuses(q1)
  {
    var (q1, d) := Handed(q, c);
    var rs, rs1, log1 := q.received, q1.received, log + [d];
    assert log1[..|log|] == log;
    assert !AllDone(rs) by { assert !rs[c].wasRead; }
    if AllTerminal(rs) {
      forall k | 0 <= k < |rs1| ensures rs1[k].status != ROWS {
        assert rs[k].status != ROWS;
      }
    }
  }

  lemma {:induction false} CollectKeeps<S>(q: Query<S>, c: nat, n: nat, limit: nat, log: seq<Delivery>)
    requires c <= |q.received| && Answers(q.received, log) && Statuses(q)
    ensures var (q1, ds) := CollectOne(q, c, n, limit);
            Answers(q1.received, log + ds) && Statuses(q1)
    decreases |q.received| - c
  {
    assert log + [] == log;
    if c < |q.received| {
      if !HasNews(q.received[c]) {
        CollectKeeps(q, c + 1, n, limit, log);
      } else {
        HandKeeps(q, c, log);
        var (q1, d) := Handed(q, c);
        if !(limit > 0 && n + 1 >= limit) {
          CollectKeeps(q1, c + 1, n + 1, limit, log + [d]);
          var (_, ds) := CollectOne(q1, c + 1, n + 1, limit);
          assert (log + [d]) + ds == log + ([d] + ds);
        }
      }
    }
  }

  lemma StepKeeps<S>(p: Parser<S>, l: Life<S>, ev: Event)
    requires Inv(l)
    ensures Inv(Step(p, l, ev))
  {
    if l.erased || l.crashed { return; }
    var q := l.q;
    match ev
    case EvReceive(data, kind) =>
      if q.responseStatus == RRunning {
        ErrorsSettle(q.received, MessageText(data));
        if kind != KindError && StripHeader(q.bytesReceived, data).Some? {
          ParseSettles(p, WithBody(q, StripHeader(q.bytesReceived, data).value, kind));
        }
        SettledAnswers(q.received, Step(p, l, ev).q.received, l.log);
      }
    case EvCancel(reason, callback) =>
      ErrorsSettle(q.received, reason);
      SettledAnswers(q.received, SetErrors(q.received, reason), l.log);
    case EvTimeout(now, msg) =>
      ErrorsSettle(q.received, msg);
      SettledAnswers(q.received, SetErrors(q.received, msg), l.log);
    case EvDisconnect =>
      ErrorsSettle(q.received, "Disconnected");
      SettledAnswers(q.received, SetErrors(q.received, "Disconnected"), l.log);
    case EvCollect(already, limit) =>
      if q.responseStatus != RCancelled {
        CollectKeeps(q, 0, already, limit, l.log);
        CollectOneKeeps(q, 0, already, limit);
      }
    case EvSweep =>
    case EvQuerySent(_) =>
    case EvCancelSent =>
  }

  // ----- over whole runs -----

  function Start<S>(q: Query<S>): Life<S> { Life(q, [], false, false) }

  lemma {:induction false} RunKeeps<S>(p: Parser<S>, l: Life<S>, events: seq<Event>)
    requires Inv(l)
    ensures Inv(Run(p, l, events))
    decreases |events|
  {
    if events != [] {
      RunKeeps(p, l, events[..|events| - 1]);
      StepKeeps(p, Run(p, l, events[..|events| - 1]), events[|events| - 1]);
    }
  }

  /** In any run of a new query with `n` commands: the user is given at most one final
      status per command, and it is the one on record; only the last item may say that the
      query is completed, and it says so exactly when every command's final status was
      handed over; and unless it was cancelled without a callback, the query is dropped
      only then. */
  lemma Lifecycle<S>(p: Parser<S>, id: int, serviceId: int, service: string, text: seq<Byte>, n: nat,
                     timeout: int, now: int, events: seq<Event>)
    ensures var l := Run(p, Start(NewQuery(p, id, serviceId, service, text, n, timeout, now)), events);
            && |l.q.received| == n
            && (forall c | 0 <= c < n :: Finals(l.log, c) <= 1)
            && (forall j | 0 <= j < |l.log| && l.log[j].status != ROWS ::
                  l.log[j].cmd < n && l.log[j].status == l.q.received[l.log[j].cmd].status)
            && (forall j | 0 <= j < |l.log| ::
                  l.log[j].completed <==> j == |l.log| - 1 && AllEnded(l.log, n))
            && (l.erased && l.q.responseStatus != RCancelled ==> AllEnded(l.log, n))
            && (l.q.responseStatus == RRunning ==> l.q.queryStatus in {QRunning, QPrepared})
            && (l.q.responseStatus in {RCompleted, RAborted} ==> AllTerminal(l.q.received))
  {
    var q := NewQuery(p, id, serviceId, service, text, n, timeout, now);
    RunKeeps(p, Start(q), events);
    RunSettles(p, Start(q), events);
    var l := Run(p, Start(q), events);
    if AllEnded(l.log, n) {
      forall c | 0 <= c < n ensures l.q.received[c].wasRead && l.q.received[c].status != ROWS {
        assert Finals(l.log, c) == 1;
      }
      assert AllDone(l.q.received);
    }
    if AllDone(l.q.received) {
      forall c | 0 <= c < n ensures Finals(l.log, c) == 1 {
        assert l.q.received[c].wasRead && l.q.received[c].status != ROWS;
      }
    }
  }

  /** A final status never changes. */
  lemma {:induction false} RunSettles<S>(p: Parser<S>, l: Life<S>, events: seq<Event>)
    requires Inv(l)
    ensures var l' := Run(p, l, events);
            && |l'.q.received| == |l.q.received|
            && forall c | 0 <= c < |l.q.received| :: l.q.received[c].status != ROWS ==>
                 l'.q.received[c].status == l.q.received[c].status
    decreases |events|
  {
    if events != [] {
      var before := Run(p, l, events[..|events| - 1]);
      RunKeeps(p, l, events[..|events| - 1]);
      RunSettles(p, l, events[..|events| - 1]);
      StepSettles(p, before, events[|events| - 1]);
    }
  }

  lemma StepSettles<S>(p: Parser<S>, l: Life<S>, ev: Event)
    requires Inv(l)
    ensures var l' := Step(p, l, ev);
            && |l'.q.received| == |l.q.received|
            && forall c | 0 <= c < |l.q.received| :: l.q.received[c].status != ROWS ==>
                 l'.q.received[c].status == l.q.received[c].status
  {
    var q := l.q;
    if ev.EvReceive? && ev.kind != KindError && q.responseStatus == RRunning && StripHeader(q.bytesReceived, ev.data).Some? {
      ParseSettles(p, WithBody(q, StripHeader(q.bytesReceived, ev.data).value, ev.kind));
    }
    if ev.EvCollect? {
      CollectStatuses(q, 0, ev.already, ev.limit);
    }
  }

  lemma {:induction false} CollectStatuses<S>(q: Query<S>, c: nat, n: nat, limit: nat)
    requires c <= |q.received|
    ensures var q1 := CollectOne(q, c, n, limit).0;
            && |q1.received| == |q.received|
            && (forall k | 0 <= k < |q.received| :: q1.received[k].status == q.received[k].status)
            && (limit == 0 ==> forall k | c <= k < |q.received| :: !HasNews(q1.received[k]))
            && (forall k | 0 <= k < c :: q1.received[k] == q.received[k])
    decreases |q.received| - c
  {
    if c < |q.received| {
      if !HasNews(q.received[c]) {
        CollectStatuses(q, c + 1, n, limit);
      } else if !(limit > 0 && n + 1 >= limit) {
        CollectStatuses(Handed(q, c).0, c + 1, n + 1, limit);
      }
    }
  }

  /** Every command does end: once the deadline is checked after it has passed, an
      unlimited round of callbacks hands over whatever final status is still owed. */
  lemma EndsAfterDeadline<S>(p: Parser<S>, l: Life<S>, now: int, msg: string, already: nat)
    requires Inv(l) && !l.erased && !l.crashed && l.q.responseStatus != RCancelled && l.q.timeTimeout < now
    ensures var l' := Step(p, Step(p, l, EvTimeout(now, msg)), EvCollect(already, 0));
            AllEnded(l'.log, |l.q.received|)
  {
    var l1 := Step(p, l, EvTimeout(now, msg));
    StepKeeps(p, l, EvTimeout(now, msg));
    ErrorsSettle(l.q.received, msg);
    StepKeeps(p, l1, EvCollect(already, 0));
    CollectStatuses(l1.q, 0, already, 0);
    var rs := Step(p, l1, EvCollect(already, 0)).q.received;
    forall c | 0 <= c < |rs| ensures rs[c].wasRead && rs[c].status != ROWS {
      assert !HasNews(rs[c]);
    }
  }
}
