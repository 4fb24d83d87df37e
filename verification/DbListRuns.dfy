/** Runs of the whole list of queries: each of its queries goes through the steps of
    `DbLifecycle`, so what is proved there of one query holds of every query of a list. */
module DbListRuns {
  import opened Basics
  import opened DbCommon
  import opened DbQueryList
  import opened DbLifecycle

  /** The operations of the list. */
  datatype Op<!S> =
    | Add(id: int, serviceId: int, service: string, text: seq<Byte>, commands: nat, timeout: int, now: int)
    | Receive(id: int, serviceId: int, data: seq<Byte>, kind: Kind)
    | CancelIt(id: int, reason: string, callback: bool)
    | Timeout(now: int, msg: Query<S> -> string)
    | Disconnects
    | Collect(limit: nat)
    | Sends(maxSize: nat, room: nat -> int)

  /** What an operation makes of the list, what it hands to the user, and whether an
      assertion has ended the program. */
  ghost predicate Does<S(!new)>(p: Parser<S>, qs: seq<Query<S>>, op: Op<S>, qs1: seq<Query<S>>, ds: seq<Delivery>, crashed: bool) {
    && (crashed ==> op.Receive? && qs1 == qs)
    && (!op.Collect? ==> ds == [])
    && match op
       case Add(id, serviceId, service, text, commands, timeout, now) =>
         qs1 == if IndexOf(qs, id) >= 0 then qs else qs + [NewQuery(p, id, serviceId, service, text, commands, timeout, now)]
       case Receive(id, serviceId, data, kind) =>
         var i := IndexOf(qs, id);
         if i < 0 || qs[i].serviceId != serviceId || qs[i].responseStatus != RRunning then !crashed && qs1 == qs
         else (match ReceiveOne(p, qs[i], data, kind)
               case None => crashed
               case Some(q) => !crashed && qs1 == qs[i := q])
       case CancelIt(id, reason, callback) =>
         var i := IndexOf(qs, id);
         if i < 0 || qs[i].queryStatus in {NeedSendCancel, CancelWasSent, QAborted} then qs1 == qs
         else qs1 == Remaining(qs[i := CancelOne(qs[i], reason, callback)])
       case Timeout(now, msg) =>
         |qs1| == |qs| && forall i | 0 <= i < |qs| :: qs1[i] == TimeoutOne(qs[i], now, msg(qs[i]))
       case Disconnects =>
         |qs1| == |qs| && forall i | 0 <= i < |qs| :: qs1[i] == DisconnectOne(qs[i])
       case Collect(limit) => (qs1, ds) == (var (qs2, ds2) := CollectAll(qs, limit); (Remaining(qs2), ds2))
       case Sends(_, room) =>
         qs1 == qs || exists i: nat, s :: i < |qs| && FirstSends(qs, room, i, qs1, s)
  }

  /** These are the operations. */
  method Apply<S(!new)>(list: MyQueryList<S>, op: Op<S>) returns (ds: seq<Delivery>, crashed: bool)
    requires list.Valid()
    modifies list
    ensures list.Valid() && Does(list.parser, old(list.queries), op, list.queries, ds, crashed)
  {
    ds, crashed := [], false;
    match op {
      case Add(id, serviceId, service, text, commands, timeout, now) =>
        list.AddNewQuery(id, serviceId, service, text, commands, timeout, now);
      case Receive(id, serviceId, data, kind) =>
        var news := list.ReceiveData(id, serviceId, data, kind);
        crashed := news.None?;
      case CancelIt(id, reason, callback) => list.CancelQuery(id, reason, callback);
      case Timeout(now, msg) => var _ := list.CheckTimeout(now, msg);
      case Disconnects => list.Disconnect();
      case Collect(limit) => ds := list.GetNewResponses(limit);
      case Sends(maxSize, room) => var _ := list.GenerateDataToSend(maxSize, room);
    }
  }

  /** What was handed over of one query. */
  function OfId(ds: seq<Delivery>, id: int): seq<Delivery> {
    if ds == [] then [] else
      OfId(ds[..|ds| - 1], id) + if ds[|ds| - 1].id == id then [ds[|ds| - 1]] else []
  }

  lemma {:induction false} OfIdAppend(a: seq<Delivery>, b: seq<Delivery>, id: int)
    ensures OfId(a + b, id) == OfId(a, id) + OfId(b, id)
  {
    if b == [] {
      assert a + b == a;
    } else {
      assert (a + b)[..|a + b| - 1] == a + b[..|b| - 1];
      OfIdAppend(a, b[..|b| - 1], id);
    }
  }

  predicate AllOf(ds: seq<Delivery>, id: int) {
    forall k | 0 <= k < |ds| :: ds[k].id == id
  }

  lemma AllOfCons(d: Delivery, ds: seq<Delivery>)
    requires AllOf(ds, d.id)
    ensures AllOf([d] + ds, d.id)
  {
  }

  lemma {:induction false} OfIdWhole(ds: seq<Delivery>, own: int, id: int)
    requires AllOf(ds, own)
    ensures OfId(ds, id) == if own == id then ds else []
  {
    if ds != [] {
      OfIdWhole(ds[..|ds| - 1], own, id);
    }
  }

  // ----- one operation, seen by one query -----

  /** The list has the query as `l` says. */
  ghost predicate Holds<S(!new)>(l: Life<S>, qs: seq<Query<S>>) {
    if l.erased then forall q | q in qs :: q.id != l.q.id else l.q in qs
  }

  lemma {:induction false} CollectOneIds<S>(q: Query<S>, c: nat, n: nat, limit: nat)
    requires c <= |q.received|
    ensures AllOf(CollectOne(q, c, n, limit).1, q.id)
    decreases |q.received| - c
  {
    if c < |q.received| {
      if !HasNews(q.received[c]) {
        CollectOneIds(q, c + 1, n, limit);
      } else if !(limit > 0 && n + 1 >= limit) {
        CollectOneIds(Handed(q, c).0, c + 1, n + 1, limit);
        AllOfCons(Handed(q, c).1, CollectOne(Handed(q, c).0, c + 1, n + 1, limit).1);
      }
    }
  }

  /** What the last query adds to a round. */
  lemma CollectLast<S>(qs: seq<Query<S>>, limit: nat)
    requires qs != []
    ensures var last := |qs| - 1;
            var (before, ds) := CollectAll(qs[..last], limit);
            var (q, ds1) := if qs[last].responseStatus == RCancelled then (qs[last], []) else CollectOne(qs[last], 0, |ds|, limit);
            CollectAll(qs, limit) == (before + [q], ds + ds1) && AllOf(ds1, qs[last].id)
  {
    var ds := CollectAll(qs[..|qs| - 1], limit).1;
    assert ds + [] == ds;
    CollectOneIds(qs[|qs| - 1], 0, |ds|, limit);
  }

  /** A round of callbacks is one for each query, with some already handed over before. */
  lemma {:induction false} CollectAllAt<S(!new)>(qs: seq<Query<S>>, limit: nat, i: nat) returns (already: nat)
    requires DistinctIds(qs) && i < |qs|
    ensures var (qs1, ds) := CollectAll(qs, limit);
            && qs1[i] == (if qs[i].responseStatus == RCancelled then qs[i] else CollectOne(qs[i], 0, already, limit).0)
            && OfId(ds, qs[i].id) == (if qs[i].responseStatus == RCancelled then [] else CollectOne(qs[i], 0, already, limit).1)
    decreases |qs|
  {
    var last := |qs| - 1;
    CollectLast(qs, limit);
    var ds := CollectAll(qs[..last], limit).1;
    var ds1 := if qs[last].responseStatus == RCancelled then [] else CollectOne(qs[last], 0, |ds|, limit).1;
    hide CollectAll, CollectOne, OfId;
    OfIdWhole(ds1, qs[last].id, qs[i].id);
    OfIdAppend(ds, ds1, qs[i].id);
    if i < last {
      already := CollectAllAt(qs[..last], limit, i);
    } else {
      already := |ds|;
      OfIdNone(qs[..last], limit, qs[i].id);
    }
  }

  lemma {:induction false} OfIdNone<S>(qs: seq<Query<S>>, limit: nat, id: int)
    requires forall k | 0 <= k < |qs| :: qs[k].id != id
    ensures OfId(CollectAll(qs, limit).1, id) == []
    decreases |qs|
  {
    if qs != [] {
      var last := |qs| - 1;
      OfIdNone(qs[..last], limit, id);
      CollectLast(qs, limit);
      var ds := CollectAll(qs[..last], limit).1;
      var ds1 := if qs[last].responseStatus == RCancelled then [] else CollectOne(qs[last], 0, |ds|, limit).1;
      OfIdWhole(ds1, qs[last].id, id);
      OfIdAppend(ds, ds1, id);
    }
  }

  lemma NoEvent<S>(p: Parser<S>, l: Life<S>)
    ensures Run(p, l, []) == l
  {
  }

  lemma OneEvent<S>(p: Parser<S>, l: Life<S>, ev: Event)
    ensures Run(p, l, [ev]) == Step(p, l, ev)
  {
    assert [ev][..0] == [];
    hide Step;
  }

  lemma TwoEvents<S>(p: Parser<S>, l: Life<S>, ev1: Event, ev2: Event)
    ensures Run(p, l, [ev1, ev2]) == Step(p, Step(p, l, ev1), ev2)
  {
    assert [ev1, ev2][..1] == [ev1];
    OneEvent(p, l, ev1);
    hide Step;
  }

  lemma SweepHolds<S(!new)>(l: Life<S>, qs: seq<Query<S>>)
    requires DistinctIds(qs) && l.q in qs
    ensures Holds(Sweep(l), Remaining(qs))
  {
    RemainingIds(qs);
    forall q | q in Remaining(qs) && CanBeErased(l.q) ensures q.id != l.q.id {
      assert q in qs && q != l.q;
      var j, k :| 0 <= j < |qs| && 0 <= k < |qs| && qs[j] == q && qs[k] == l.q;
    }
  }

  /** Only a cancel without a callback makes a query cancelled. */
  predicate OnlyCancel<S>(op: Op<S>, l: Life<S>, l1: Life<S>) {
    l.q.responseStatus != RCancelled && l1.q.responseStatus == RCancelled ==> Silences(op, l.q.id)
  }

  predicate Silences<S>(op: Op<S>, id: int) {
    op.CancelIt? && op.id == id && !op.callback
  }

  lemma ReceiveSteps<S(!new)>(p: Parser<S>, qs: seq<Query<S>>, op: Op<S>, qs1: seq<Query<S>>, ds: seq<Delivery>, crashed: bool,
                              l: Life<S>) returns (events: seq<Event>)
    requires op.Receive? && DistinctIds(qs) && Does(p, qs, op, qs1, ds, crashed) && l.q in qs && !l.erased && !l.crashed
    ensures var l1 := Run(p, l, events);
            && l1.q in qs1 && !l1.erased && l1.q.id == l.q.id && (l1.crashed ==> crashed) && l1.log == l.log
            && OnlyCancel(op, l, l1)
  {
    var i := IndexOf(qs, op.id);
    var j :| 0 <= j < |qs| && qs[j] == l.q;
    hide ReceiveOne;
    if i == j && qs[i].serviceId == op.serviceId && qs[i].responseStatus == RRunning {
      events := [EvReceive(op.data, op.kind)];
      OneEvent(p, l, EvReceive(op.data, op.kind));
      ReceiveKeepsId(p, l.q, op.data, op.kind);
      ReceiveNotCancels(p, l.q, op.data, op.kind);
      assert qs1[i] == Run(p, l, events).q;
    } else {
      events := [];
      NoEvent(p, l);
      assert j != i ==> qs1[j] == l.q;
    }
  }

  lemma ReceiveNotCancels<S>(p: Parser<S>, q: Query<S>, data: seq<Byte>, kind: Kind)
    ensures var r := ReceiveOne(p, q, data, kind);
            q.responseStatus != RCancelled && r.Some? ==> r.value.responseStatus != RCancelled
  {
  }

  lemma CancelSteps<S(!new)>(p: Parser<S>, qs: seq<Query<S>>, op: Op<S>, qs1: seq<Query<S>>, ds: seq<Delivery>, crashed: bool,
                             l: Life<S>) returns (events: seq<Event>)
    requires op.CancelIt? && DistinctIds(qs) && Does(p, qs, op, qs1, ds, crashed) && l.q in qs && !l.erased && !l.crashed
    ensures var l1 := Run(p, l, events);
            Holds(l1, qs1) && l1.q.id == l.q.id && !l1.crashed && l1.log == l.log && OnlyCancel(op, l, l1)
  {
    var i := IndexOf(qs, op.id);
    var j :| 0 <= j < |qs| && qs[j] == l.q;
    hide CanBeErased, CancelOne;
    if i < 0 || qs[i].queryStatus in {NeedSendCancel, CancelWasSent, QAborted} {
      events := [];
      NoEvent(p, l);
    } else {
      var qs2 := qs[i := CancelOne(qs[i], op.reason, op.callback)];
      CancelKeeps(qs[i], op.reason, op.callback);
      assert DistinctIds(qs2) && qs2[i] == CancelOne(qs[i], op.reason, op.callback);
      if i == j {
        events := [EvCancel(op.reason, op.callback), EvSweep];
        TwoEvents(p, l, EvCancel(op.reason, op.callback), EvSweep);
        SweepHolds(Step(p, l, EvCancel(op.reason, op.callback)), qs2);
      } else {
        events := [EvSweep];
        OneEvent(p, l, EvSweep);
        assert qs2[j] == l.q;
        SweepHolds(l, qs2);
      }
    }
  }

  lemma CancelKeeps<S>(q: Query<S>, reason: string, callback: bool)
    ensures CancelOne(q, reason, callback).id == q.id
    ensures callback && q.responseStatus != RCancelled ==> CancelOne(q, reason, callback).responseStatus != RCancelled
  {
  }

  lemma CollectSteps<S(!new)>(p: Parser<S>, qs: seq<Query<S>>, limit: nat, l: Life<S>) returns (events: seq<Event>)
    requires DistinctIds(qs) && l.q in qs && !l.erased && !l.crashed
    ensures var l1 := Run(p, l, events);
            var (qs2, ds) := CollectAll(qs, limit);
            && Holds(l1, Remaining(qs2)) && l1.q.id == l.q.id && !l1.crashed && l1.log == l.log + OfId(ds, l.q.id)
            && l1.q.responseStatus == l.q.responseStatus
  {
    var j :| 0 <= j < |qs| && qs[j] == l.q;
    var already := CollectAllAt(qs, limit, j);
    CollectedDistinct(qs, limit);
    var (qs2, ds) := CollectAll(qs, limit);
    CollectStep(p, l, already, limit, qs2[j], OfId(ds, l.q.id));
    events := [EvCollect(already, limit)];
    OneEvent(p, l, EvCollect(already, limit));
    hide *;
    SweepHolds(l.(q := qs2[j], log := l.log + OfId(ds, l.q.id)), qs2);
    SweepKeeps(l.(q := qs2[j], log := l.log + OfId(ds, l.q.id)));
  }

  lemma SweepKeeps<S>(l: Life<S>)
    ensures Sweep(l) == l.(erased := Sweep(l).erased)
  {
  }

  lemma CollectedDistinct<S>(qs: seq<Query<S>>, limit: nat)
    requires DistinctIds(qs)
    ensures DistinctIds(CollectAll(qs, limit).0)
  {
    CollectAllIds(qs, limit);
    hide CollectAll;
  }

  lemma CollectStep<S>(p: Parser<S>, l: Life<S>, already: nat, limit: nat, q1: Query<S>, ds: seq<Delivery>)
    requires !l.erased && !l.crashed
    requires q1 == if l.q.responseStatus == RCancelled then l.q else CollectOne(l.q, 0, already, limit).0
    requires ds == if l.q.responseStatus == RCancelled then [] else CollectOne(l.q, 0, already, limit).1
    ensures Step(p, l, EvCollect(already, limit)) == Sweep(l.(q := q1, log := l.log + ds))
    ensures q1.id == l.q.id && q1.responseStatus == l.q.responseStatus
  {
    CollectOneKeeps(l.q, 0, already, limit);
    assert l.log + [] == l.log;
    hide CanBeErased, CollectOne;
  }

  lemma EachSteps<S(!new)>(p: Parser<S>, qs: seq<Query<S>>, op: Op<S>, qs1: seq<Query<S>>, ds: seq<Delivery>, crashed: bool,
                           l: Life<S>) returns (events: seq<Event>)
    requires (op.Timeout? || op.Disconnects? || op.Sends? || op.Add?)
    requires DistinctIds(qs) && Does(p, qs, op, qs1, ds, crashed) && l.q in qs && !l.erased && !l.crashed
    ensures var l1 := Run(p, l, events);
            && l1.q in qs1 && !l1.erased && l1.q.id == l.q.id && !l1.crashed && l1.log == l.log
            && OnlyCancel(op, l, l1)
  {
    var j :| 0 <= j < |qs| && qs[j] == l.q;
    match op
    case Timeout(now, msg) =>
      events := [EvTimeout(now, msg(l.q))];
      OneEvent(p, l, EvTimeout(now, msg(l.q)));
      assert qs1[j] == TimeoutOne(l.q, now, msg(l.q));
    case Disconnects =>
      events := [EvDisconnect];
      OneEvent(p, l, EvDisconnect);
      assert qs1[j] == DisconnectOne(l.q);
    case Sends(_, room) =>
      events := SendSteps(p, qs, room, qs1, j, l);
    case Add(_, _, _, _, _, _, _) =>
      events := [];
      NoEvent(p, l);
      assert qs1[j] == l.q;
  }

  lemma SendSteps<S(!new)>(p: Parser<S>, qs: seq<Query<S>>, room: nat -> int, qs1: seq<Query<S>>, j: nat, l: Life<S>)
    returns (events: seq<Event>)
    requires j < |qs| && qs[j] == l.q && !l.erased && !l.crashed
    requires qs1 == qs || exists i: nat, s :: i < |qs| && FirstSends(qs, room, i, qs1, s)
    ensures var l1 := Run(p, l, events);
            && l1.q in qs1 && !l1.erased && l1.q.id == l.q.id && !l1.crashed && l1.log == l.log
            && l1.q.responseStatus == l.q.responseStatus
  {
    events := [];
    NoEvent(p, l);
    if qs1 != qs {
      var i: nat, s :| i < |qs| && FirstSends(qs, room, i, qs1, s);
      if i == j {
        assert qs1[j] == SendFrom(l.q, room(i)).0;
        var ev := if s.Cancel? then EvCancelSent else EvQuerySent(|s.data|);
        events := [ev];
        OneEvent(p, l, ev);
      } else {
        assert qs1[j] == l.q;
      }
    }
  }

  /** Whatever the list does, each of its queries does some steps, and what is handed over
      with its number is what these steps add to its log. */
  lemma OneOperation<S(!new)>(p: Parser<S>, qs: seq<Query<S>>, op: Op<S>, qs1: seq<Query<S>>, ds: seq<Delivery>,
                              crashed: bool, l: Life<S>) returns (events: seq<Event>)
    requires DistinctIds(qs) && Does(p, qs, op, qs1, ds, crashed)
    requires l.q in qs && !l.erased && !l.crashed
    ensures var l1 := Run(p, l, events);
            && Holds(l1, qs1) && l1.q.id == l.q.id && (l1.crashed ==> crashed)
            && l1.log == l.log + OfId(ds, l.q.id) && OnlyCancel(op, l, l1)
  {
    assert l.log + [] == l.log;
    if op.Receive? {
      events := ReceiveSteps(p, qs, op, qs1, ds, crashed, l);
    } else if op.CancelIt? {
      events := CancelSteps(p, qs, op, qs1, ds, crashed, l);
    } else if op.Collect? {
      events := CollectSteps(p, qs, op.limit, l);
    } else {
      events := EachSteps(p, qs, op, qs1, ds, crashed, l);
    }
    hide Run;
  }

  // ----- the numbers -----

  ghost predicate SameNumbers<S(!new)>(qs: seq<Query<S>>, qs1: seq<Query<S>>) {
    |qs1| == |qs| && forall i | 0 <= i < |qs| :: qs1[i].id == qs[i].id
  }

  /** Before finished queries are dropped or a new one comes in. */
  lemma Numbers<S(!new)>(p: Parser<S>, qs: seq<Query<S>>, op: Op<S>, qs1: seq<Query<S>>, ds: seq<Delivery>, crashed: bool)
    returns (mid: seq<Query<S>>)
    requires Does(p, qs, op, qs1, ds, crashed)
    ensures SameNumbers(qs, mid)
    ensures qs1 == mid || qs1 == Remaining(mid)
            || (op.Add? && (forall k | 0 <= k < |qs| :: qs[k].id != op.id) && |qs1| > 0 && qs1[|qs1| - 1].id == op.id
                && mid == qs1[..|qs1| - 1])
  {
    mid := qs1;
    match op
    case Add(id, _, _, _, _, _, _) =>
      if IndexOf(qs, id) < 0 { mid := qs; }
    case Receive(id, _, data, kind) =>
      if IndexOf(qs, id) >= 0 { ReceiveKeepsId(p, qs[IndexOf(qs, id)], data, kind); }
      hide ReceiveOne;
    case CancelIt(id, reason, callback) =>
      var i := IndexOf(qs, id);
      if i >= 0 && qs[i].queryStatus !in {NeedSendCancel, CancelWasSent, QAborted} {
        mid := qs[i := CancelOne(qs[i], reason, callback)];
      }
    case Collect(limit) =>
      CollectAllIds(qs, limit);
      mid := CollectAll(qs, limit).0;
      hide CollectAll;
    case Timeout(_, _) =>
    case Disconnects =>
    case Sends(_, _) =>
  }

  lemma StaysDistinct<S(!new)>(p: Parser<S>, qs: seq<Query<S>>, op: Op<S>, qs1: seq<Query<S>>, ds: seq<Delivery>, crashed: bool)
    requires DistinctIds(qs) && Does(p, qs, op, qs1, ds, crashed)
    ensures DistinctIds(qs1)
  {
    var mid := Numbers(p, qs, op, qs1, ds, crashed);
    hide Does, Remaining;
    RemainingIds(mid);
  }

  ghost predicate NoneOf<S(!new)>(qs: seq<Query<S>>, id: int) {
    forall q | q in qs :: q.id != id
  }

  lemma StaysAbsent<S(!new)>(p: Parser<S>, qs: seq<Query<S>>, op: Op<S>, qs1: seq<Query<S>>, ds: seq<Delivery>, crashed: bool, id: int)
    requires DistinctIds(qs) && Does(p, qs, op, qs1, ds, crashed) && NoneOf(qs, id) && (op.Add? ==> op.id != id)
    ensures NoneOf(qs1, id) && OfId(ds, id) == []
  {
    var mid := Numbers(p, qs, op, qs1, ds, crashed);
    if op.Collect? { OfIdNone(qs, op.limit, id); }
    hide Does, Remaining;
    RemainingIds(mid);
    forall q | q in mid ensures q.id != id {
      var k :| 0 <= k < |mid| && mid[k] == q;
      assert qs[k] in qs;
    }
    assert op.Add? && qs1 != mid && qs1 != Remaining(mid) ==> qs1 == mid + [qs1[|qs1| - 1]];
  }

  // ----- whole runs -----

  /** The list, all it has handed over, and whether the program has ended. */
  datatype ListState<S> = ListState(qs: seq<Query<S>>, log: seq<Delivery>, crashed: bool)

  ghost predicate Becomes<S(!new)>(p: Parser<S>, st: ListState<S>, op: Op<S>, st1: ListState<S>) {
    !st.crashed && exists ds :: Does(p, st.qs, op, st1.qs, ds, st1.crashed) && st1.log == st.log + ds
  }

  ghost predicate StepAt<S(!new)>(p: Parser<S>, states: seq<ListState<S>>, ops: seq<Op<S>>, i: nat)
    requires i < |ops| && i + 1 < |states|
  {
    Becomes(p, states[i], ops[i], states[i + 1])
  }

  /** A run from the empty list on; no number is used for two queries. */
  ghost predicate IsListRun<S(!new)>(p: Parser<S>, states: seq<ListState<S>>, ops: seq<Op<S>>) {
    && |states| == |ops| + 1 && states[0] == ListState([], [], false)
    && (forall i: nat | i < |ops| :: StepAt(p, states, ops, i))
    && (forall i, j | 0 <= i < j < |ops| && ops[i].Add? && ops[j].Add? :: ops[i].id != ops[j].id)
  }

  lemma {:induction false} AlwaysDistinct<S(!new)>(p: Parser<S>, states: seq<ListState<S>>, ops: seq<Op<S>>, m: nat)
    requires IsListRun(p, states, ops) && m <= |ops|
    ensures DistinctIds(states[m].qs)
  {
    if m > 0 {
      AlwaysDistinct(p, states, ops, m - 1);
      assert StepAt(p, states, ops, m - 1);
      var ds :| Does(p, states[m - 1].qs, ops[m - 1], states[m].qs, ds, states[m].crashed) && states[m].log == states[m - 1].log + ds;
      StaysDistinct(p, states[m - 1].qs, ops[m - 1], states[m].qs, ds, states[m].crashed);
    }
  }

  lemma {:induction false} NotYet<S(!new)>(p: Parser<S>, states: seq<ListState<S>>, ops: seq<Op<S>>, m: nat, id: int)
    requires IsListRun(p, states, ops) && m <= |ops| && forall i | 0 <= i < m :: ops[i].Add? ==> ops[i].id != id
    ensures NoneOf(states[m].qs, id) && OfId(states[m].log, id) == []
  {
    if m > 0 {
      NotYet(p, states, ops, m - 1, id);
      AlwaysDistinct(p, states, ops, m - 1);
      assert StepAt(p, states, ops, m - 1);
      var ds :| Does(p, states[m - 1].qs, ops[m - 1], states[m].qs, ds, states[m].crashed) && states[m].log == states[m - 1].log + ds;
      StaysAbsent(p, states[m - 1].qs, ops[m - 1], states[m].qs, ds, states[m].crashed, id);
      OfIdAppend(states[m - 1].log, ds, id);
    }
  }

  function Asked<S>(p: Parser<S>, op: Op<S>): Life<S>
    requires op.Add?
  {
    Start(NewQuery(p, op.id, op.serviceId, op.service, op.text, op.commands, op.timeout, op.now))
  }

  /** One of the first `m` operations cancels the query without a callback. */
  ghost predicate CancelledSilently<S>(ops: seq<Op<S>>, id: int, m: nat)
    requires m <= |ops|
  {
    exists i | 0 <= i < m :: Silences(ops[i], id)
  }

  /** From when it was asked a query of the list does some steps, and its log is what was
      handed over with its number. */
  lemma {:induction false} EachQueryLives<S(!new)>(p: Parser<S>, states: seq<ListState<S>>, ops: seq<Op<S>>, k: nat, m: nat)
    returns (events: seq<Event>)
    requires IsListRun(p, states, ops) && k < m <= |ops| && ops[k].Add?
    ensures var l := Run(p, Asked(p, ops[k]), events);
            && LivesIn(l, states[m], ops[k].id)
            && (l.q.responseStatus == RCancelled ==> CancelledSilently(ops, ops[k].id, m))
  {
    hide *;
    StepOf(p, states, ops, k, m);
    if m == k + 1 {
      NotBefore(p, states, ops, k);
      events := [];
      NewComes(p, states[k], ops[k], states[m]);
    } else {
      events := EachQueryLives(p, states, ops, k, m - 1);
      SilentLater(ops, ops[k].id, m - 1);
      var more := LivesOn(p, states[m - 1], ops[m - 1], states[m], ops[k].id, Run(p, Asked(p, ops[k]), events));
      RunMore(p, Asked(p, ops[k]), events, more);
      OnlySilent(ops[m - 1], Run(p, Asked(p, ops[k]), events), Run(p, Asked(p, ops[k]), events + more), ops[k].id);
      events := events + more;
    }
  }

  lemma StepOf<S(!new)>(p: Parser<S>, states: seq<ListState<S>>, ops: seq<Op<S>>, k: nat, m: nat)
    requires IsListRun(p, states, ops) && k < m <= |ops| && ops[k].Add?
    ensures |states| == |ops| + 1
    ensures Becomes(p, states[m - 1], ops[m - 1], states[m]) && DistinctIds(states[m - 1].qs)
    ensures k < m - 1 && ops[m - 1].Add? ==> ops[m - 1].id != ops[k].id
  {
    AlwaysDistinct(p, states, ops, m - 1);
    assert StepAt(p, states, ops, m - 1);
    hide Becomes;
  }

  lemma NotBefore<S(!new)>(p: Parser<S>, states: seq<ListState<S>>, ops: seq<Op<S>>, k: nat)
    requires IsListRun(p, states, ops) && k < |ops| && ops[k].Add?
    ensures NoneOf(states[k].qs, ops[k].id) && OfId(states[k].log, ops[k].id) == []
  {
    NotYet(p, states, ops, k, ops[k].id);
  }

  /** `l` is what became of the query of that number. */
  ghost predicate LivesIn<S(!new)>(l: Life<S>, st: ListState<S>, id: int) {
    Holds(l, st.qs) && l.q.id == id && (l.crashed ==> st.crashed) && l.log == OfId(st.log, id)
  }

  lemma OnlySilent<S>(op: Op<S>, l: Life<S>, l1: Life<S>, id: int)
    requires OnlyCancel(op, l, l1) && l.q.id == id
    ensures l1.q.responseStatus == RCancelled ==> l.q.responseStatus == RCancelled || Silences(op, id)
  {
  }

  lemma SilentLater<S>(ops: seq<Op<S>>, id: int, m: nat)
    requires m < |ops|
    ensures CancelledSilently(ops, id, m + 1) <==> CancelledSilently(ops, id, m) || Silences(ops[m], id)
  {
  }

  lemma LivesOn<S(!new)>(p: Parser<S>, st: ListState<S>, op: Op<S>, st1: ListState<S>, id: int, l: Life<S>) returns (events: seq<Event>)
    requires Becomes(p, st, op, st1) && DistinctIds(st.qs) && (op.Add? ==> op.id != id)
    requires LivesIn(l, st, id)
    ensures var l1 := Run(p, l, events); LivesIn(l1, st1, id) && OnlyCancel(op, l, l1) && l.q.id == id
  {
    var ds :| Does(p, st.qs, op, st1.qs, ds, st1.crashed) && st1.log == st.log + ds;
    OfIdAppend(st.log, ds, id);
    hide Does, OfId, DistinctIds;
    if l.erased {
      StaysAbsent(p, st.qs, op, st1.qs, ds, st1.crashed, id);
      events := [];
      NoEvent(p, l);
      assert l.log + [] == l.log;
    } else {
      events := OneOperation(p, st.qs, op, st1.qs, ds, st1.crashed, l);
    }
  }

  lemma NewComes<S(!new)>(p: Parser<S>, st: ListState<S>, op: Op<S>, st1: ListState<S>)
    requires op.Add? && Becomes(p, st, op, st1) && NoneOf(st.qs, op.id) && OfId(st.log, op.id) == []
    ensures Run(p, Asked(p, op), []) == Asked(p, op) && LivesIn(Asked(p, op), st1, op.id)
    ensures Asked(p, op).q.responseStatus == RRunning
  {
    assert forall k | 0 <= k < |st.qs| :: st.qs[k] in st.qs;
    assert st.log + [] == st.log;
  }

  lemma {:induction false} RunMore<S>(p: Parser<S>, l: Life<S>, a: seq<Event>, b: seq<Event>)
    ensures Run(p, l, a + b) == Run(p, Run(p, l, a), b)
  {
    hide Step;
    if b == [] {
      assert a + b == a;
    } else {
      assert (a + b)[..|a + b| - 1] == a + b[..|b| - 1];
      RunMore(p, l, a, b[..|b| - 1]);
    }
  }

  /** In every run of a list, of every query ever asked: at most one final status of each
      command is handed over; only the last item says that the query is completed, and it
      does exactly when every command has ended; and a query that is gone from the list has
      ended unless it was cancelled without a callback. */
  lemma ListLifecycle<S(!new)>(p: Parser<S>, states: seq<ListState<S>>, ops: seq<Op<S>>, k: nat, m: nat)
    requires IsListRun(p, states, ops) && k < m <= |ops| && ops[k].Add?
    ensures var log := OfId(states[m].log, ops[k].id);
            && (forall c | 0 <= c < ops[k].commands :: Finals(log, c) <= 1)
            && (forall j | 0 <= j < |log| :: log[j].completed <==> j == |log| - 1 && AllEnded(log, ops[k].commands))
            && (NoneOf(states[m].qs, ops[k].id) ==> AllEnded(log, ops[k].commands) || CancelledSilently(ops, ops[k].id, m))
  {
    var events := EachQueryLives(p, states, ops, k, m);
    Lifecycle(p, ops[k].id, ops[k].serviceId, ops[k].service, ops[k].text, ops[k].commands, ops[k].timeout, ops[k].now, events);
    hide IsListRun, Run, OfId, AllEnded;
  }
}
