/** What a round of callbacks hands over of each query, how far the limit on it holds, and when
    a query is dropped. */
module DbCollecting {
  import opened Basics
  import opened DbCommon
  import opened DbQueryList
  import opened DbLifecycle

  /** One item as the user sees it. */
  datatype News = News(cmd: nat, status: CmdStatus, rows: seq<Row>, err: string)

  /** The commands from `c` on with a final status or rows the user has not been given. */
  function NewsFrom(rs: seq<Received>, c: nat): seq<News>
    decreases |rs| - c
  {
    if c >= |rs| then []
    else if !rs[c].wasRead && (rs[c].status != ROWS || rs[c].rows != []) then
      [News(c, rs[c].status, rs[c].rows, rs[c].err)] + NewsFrom(rs, c + 1)
    else NewsFrom(rs, c + 1)
  }

  function Shown(ds: seq<Delivery>): seq<News> {
    seq(|ds|, k requires 0 <= k < |ds| => News(ds[k].cmd, ds[k].status, ds[k].rows, ds[k].err))
  }

  /** How many items of so many news, when `n` were handed over before: one at least. */
  function Share(news: nat, n: nat, limit: nat): nat {
    if limit == 0 || (n < limit && news <= limit - n) then news
    else if n >= limit then (if news > 0 then 1 else 0)
    else limit - n
  }

  lemma NewsElsewhere(rs: seq<Received>, c: nat, r: Received)
    requires c < |rs|
    ensures NewsFrom(rs[c := r], c + 1) == NewsFrom(rs, c + 1)
  {
    NewsBehind(rs, rs[c := r], c + 1);
  }

  lemma {:induction false} NewsBehind(a: seq<Received>, b: seq<Received>, c: nat)
    requires |a| == |b| && forall k | c <= k < |a| :: a[k] == b[k]
    ensures NewsFrom(a, c) == NewsFrom(b, c)
    decreases |a| - c
  {
    if c < |a| { NewsBehind(a, b, c + 1); }
  }

  /** Of one query the news are handed over in the order of its commands, each with its rows,
      status and error, up to the limit, but one in any case; what was handed over is read. */
  lemma {:induction false} CollectMeans<S>(q: Query<S>, c: nat, n: nat, limit: nat)
    requires c <= |q.received|
    ensures var (q1, ds) := CollectOne(q, c, n, limit);
            var news := NewsFrom(q.received, c);
            && |ds| == Share(|news|, n, limit) <= |news|
            && Shown(ds) == news[..|ds|]
            && NewsFrom(q1.received, c) == news[|ds|..]
            && forall k | 0 <= k < |ds| :: ds[k].id == q.id && ds[k].service == q.service
    decreases |q.received| - c
  {
    hide Handed, NewsFrom, Shown;
    if c == |q.received| {
      NoNews(q.received);
    } else {
      HandedMeans(q, c);
      NewsUnfold(q.received, c);
      if !HasNews(q.received[c]) {
        CollectMeans(q, c + 1, n, limit);
        CollectStatuses(q, c + 1, n, limit);
        NewsUnfold(CollectOne(q, c + 1, n, limit).0.received, c);
      } else if limit > 0 && n + 1 >= limit {
        NewsElsewhere(q.received, c, Handed(q, c).0.received[c]);
        NewsUnfold(Handed(q, c).0.received, c);
        ShownOne(Handed(q, c).1, []);
      } else {
        var (q1, d) := Handed(q, c);
        NewsElsewhere(q.received, c, q1.received[c]);
        CollectMeans(q1, c + 1, n + 1, limit);
        CollectStatuses(q1, c + 1, n + 1, limit);
        var (q2, ds) := CollectOne(q1, c + 1, n + 1, limit);
        NewsUnfold(q2.received, c);
        ShownOne(d, ds);
      }
    }
  }

  lemma NoNews(rs: seq<Received>)
    ensures NewsFrom(rs, |rs|) == [] && Shown([]) == []
  {
  }

  lemma ShownOne(d: Delivery, ds: seq<Delivery>)
    ensures Shown([d] + ds) == [News(d.cmd, d.status, d.rows, d.err)] + Shown(ds)
    ensures Shown([d]) == [News(d.cmd, d.status, d.rows, d.err)]
  {
  }

  lemma NewsUnfold(rs: seq<Received>, c: nat)
    requires c < |rs|
    ensures NewsFrom(rs, c) ==
            if HasNews(rs[c]) then [News(c, rs[c].status, rs[c].rows, rs[c].err)] + NewsFrom(rs, c + 1) else NewsFrom(rs, c + 1)
  {
  }

  lemma HandedMeans<S>(q: Query<S>, c: nat)
    requires c < |q.received|
    ensures var (q1, d) := Handed(q, c);
            && d.cmd == c && d.status == q.received[c].status && d.rows == q.received[c].rows && d.err == q.received[c].err
            && d.id == q.id && d.service == q.service && q1.id == q.id && q1.service == q.service
            && |q1.received| == |q.received| && q1.received == q.received[c := q1.received[c]] && q1.received[c].wasRead
  {
  }

  // ----- the limit -----

  predicate StillHasNews<S>(q: Query<S>) {
    q.responseStatus != RCancelled && NewsFrom(q.received, 0) != []
  }

  ghost predicate LateNews<S>(qs: seq<Query<S>>, limit: nat, i: nat) {
    i < |qs| && |CollectAll(qs[..i], limit).1| >= limit && StillHasNews(qs[i])
  }

  /** The limit ends only the turn of one query: more than that is handed over exactly if the
      queries before one with news have reached it. */
  lemma {:induction false} LimitExceededIff<S(!new)>(qs: seq<Query<S>>, limit: nat)
    requires limit > 0
    ensures |CollectAll(qs, limit).1| > limit <==> exists i :: LateNews(qs, limit, i)
    decreases |qs|
  {
    if qs != [] {
      var last := |qs| - 1;
      LimitExceededIff(qs[..last], limit);
      assert forall i | 0 <= i <= last :: qs[..last][..i] == qs[..i];
      assert LateNews(qs, limit, last) <==> |CollectAll(qs[..last], limit).1| >= limit && StillHasNews(qs[last]);
      assert forall i: nat | i < last :: LateNews(qs, limit, i) <==> LateNews(qs[..last], limit, i);
      CollectMeans(qs[last], 0, |CollectAll(qs[..last], limit).1|, limit);
      hide CollectOne, LateNews;
    }
  }

  // ----- dropped or kept -----

  /** A query that has ended, with everything handed over, is dropped by the next sweep once
      its cancel, if it has one, is sent; before that no query is. */
  lemma DroppedIff<S>(p: Parser<S>, l: Life<S>)
    requires Inv(l) && !l.erased && !l.crashed
    ensures Step(p, l, EvSweep).erased <==>
            && l.q.queryStatus != NeedSendCancel && l.q.responseStatus != RRunning
            && (l.q.responseStatus == RCancelled || AllEnded(l.log, |l.q.received|))
  {
  }
}
