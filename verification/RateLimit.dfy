/** Keeping to a link's speed: after each message the bytes of a sliding window are added up,
    and sending is blocked for as long as the excess takes. */
module RateLimit {
  import opened Basics

  datatype Entry = Entry(t: real, bytes: nat)

  datatype Link = Link(history: seq<Entry>, blockUntil: real)

  /** The limit: bits a second, and the length of the window. */
  datatype Speed = Speed(max: nat, calcTime: real)

  predicate Limited(s: Speed) { s.max > 0 && s.calcTime > 0.1 }

  /** The bytes allowed in a window. */
  function Allowed(s: Speed): nat
    requires Limited(s)
  {
    var bits := s.max as real * s.calcTime;
    assert bits > 0.0 by { Positive(s.max as real, s.calcTime); }
    (bits / 8.0).Floor
  }

  lemma Positive(a: real, b: real)
    requires a > 0.0 && b > 0.0
    ensures a * b > 0.0
  {
  }

  function Recent(h: seq<Entry>, calcTime: real, now: real): seq<Entry> {
    if h == [] then [] else
      Recent(h[..|h| - 1], calcTime, now) + if h[|h| - 1].t + calcTime < now then [] else [h[|h| - 1]]
  }

  function Sum(h: seq<Entry>): nat {
    if h == [] then 0 else Sum(h[..|h| - 1]) + h[|h| - 1].bytes
  }

  function Wait(s: Speed, excess: nat): real
    requires s.max > 0
  {
    ((excess * 8) % UINT_SIZE) as real / s.max as real
  }

  /** A message of so many bytes has left; sums and the excess in bits have 32 bits. */
  function Logged(s: Speed, l: Link, now: real, bytes: nat): Link {
    if !Limited(s) then l else
      var h := Recent(l.history + [Entry(now, bytes)], s.calcTime, now);
      var sum := Sum(h) % UINT_SIZE;
      if sum > Allowed(s) then Link(h, now + Wait(s, sum - Allowed(s))) else Link(h, l.blockUntil)
  }

  // ----- the bound -----

  /** `last` is when the last message left, no message had more than `most` bytes. */
  ghost predicate Bounded(s: Speed, l: Link, most: nat, last: real) {
    && Limited(s)
    && (forall k | 0 <= k < |l.history| :: l.history[k].t <= last)
    && Sum(l.history) <= 2 * Allowed(s) + most
    && (Sum(l.history) > Allowed(s) ==> l.blockUntil == last + Wait(s, Sum(l.history) - Allowed(s)))
  }

  lemma {:induction false} RecentSum(h: seq<Entry>, calcTime: real, now: real)
    ensures Sum(Recent(h, calcTime, now)) <= Sum(h)
    ensures forall e | e in Recent(h, calcTime, now) :: e in h
  {
    if h != [] {
      var front := h[..|h| - 1];
      RecentSum(front, calcTime, now);
      var r := Recent(front, calcTime, now);
      assert (r + [h[|h| - 1]])[..|r|] == r && r + [] == r;
    }
  }

  lemma RecentAppend(h: seq<Entry>, e: Entry, calcTime: real, now: real)
    ensures Recent(h + [e], calcTime, now) == Recent(h, calcTime, now) + if e.t + calcTime < now then [] else [e]
    ensures Sum(h + [e]) == Sum(h) + e.bytes
  {
    assert (h + [e])[..|h|] == h;
  }

  lemma {:induction false} AllOld(h: seq<Entry>, calcTime: real, now: real)
    requires forall k | 0 <= k < |h| :: h[k].t + calcTime < now
    ensures Recent(h, calcTime, now) == []
  {
    if h != [] {
      AllOld(h[..|h| - 1], calcTime, now);
    }
  }

  /** More than twice what is allowed takes longer than a window to wait for. */
  lemma LongWait(s: Speed, excess: nat)
    requires Limited(s) && excess > Allowed(s) && excess * 8 < UINT_SIZE
    ensures Wait(s, excess) > s.calcTime
  {
    var bits := s.max as real * s.calcTime;
    var max := s.max as real;
    assert (Allowed(s) + 1) as real > bits / 8.0;
    assert (excess * 8) as real > bits;
    Quotient((excess * 8) as real, max, s.calcTime);
  }

  lemma Quotient(x: real, a: real, b: real)
    requires a > 0.0 && x > a * b
    ensures x / a > b
  {
    assert (x / a) * a == x;
  }

  /** A message leaves when it is not blocked. */
  lemma SendKeeps(s: Speed, l: Link, most: nat, last: real, checked: real, now: real, bytes: nat)
    requires Bounded(s, l, most, last) && bytes <= most
    requires (Allowed(s) + most) * 8 < UINT_SIZE
    requires last <= now && l.blockUntil <= checked <= now
    ensures Bounded(s, Logged(s, l, now, bytes), most, now)
  {
    var h := Recent(l.history + [Entry(now, bytes)], s.calcTime, now);
    SendSum(s, l, most, last, now, bytes);
    SendTimes(l.history, s.calcTime, last, now, bytes);
    hide Recent, Sum, Allowed, Wait;
    assert Sum(h) % UINT_SIZE == Sum(h);
  }

  lemma SendTimes(history: seq<Entry>, calcTime: real, last: real, now: real, bytes: nat)
    requires last <= now && forall k | 0 <= k < |history| :: history[k].t <= last
    ensures var h := Recent(history + [Entry(now, bytes)], calcTime, now);
            forall k | 0 <= k < |h| :: h[k].t <= now
  {
    var all := history + [Entry(now, bytes)];
    RecentSum(all, calcTime, now);
    var h := Recent(all, calcTime, now);
    forall k | 0 <= k < |h| ensures h[k].t <= now {
      assert h[k] in h && h[k] in all;
    }
  }

  lemma SendSum(s: Speed, l: Link, most: nat, last: real, now: real, bytes: nat)
    requires Bounded(s, l, most, last) && bytes <= most && (Allowed(s) + most) * 8 < UINT_SIZE
    requires last <= now && l.blockUntil <= now
    ensures Sum(Recent(l.history + [Entry(now, bytes)], s.calcTime, now)) <= 2 * Allowed(s) + most
  {
    var e := Entry(now, bytes);
    RecentAppend(l.history, e, s.calcTime, now);
    RecentSum(l.history, s.calcTime, now);
    RecentAppend(Recent(l.history, s.calcTime, now), e, s.calcTime, now);
    if Sum(l.history) > 2 * Allowed(s) {
      LongWait(s, Sum(l.history) - Allowed(s));
      AllOld(l.history, s.calcTime, now);
    }
    hide Recent, Allowed, Wait;
    assert Sum([]) == 0;
  }

  /** A message: when sending was found not to be blocked, when it left, and its bytes. */
  datatype Send = Send(checked: real, t: real, bytes: nat)

  function Run(s: Speed, sends: seq<Send>): Link {
    if sends == [] then Link([], 0.0) else
      var last := sends[|sends| - 1];
      Logged(s, Run(s, sends[..|sends| - 1]), last.t, last.bytes)
  }

  /** The clock does not run backwards, and nothing is sent while it is blocked. */
  ghost predicate Proper(s: Speed, sends: seq<Send>, most: nat) {
    sends == [] ||
    (var front, last := sends[..|sends| - 1], sends[|sends| - 1];
     && Proper(s, front, most) && 0 < last.bytes <= most
     && Run(s, front).blockUntil <= last.checked <= last.t
     && (front != [] ==> front[|front| - 1].t <= last.t))
  }

  /** The main result: the bytes of a window never exceed twice what is allowed and one
      message. */
  lemma {:induction false} WindowBounded(s: Speed, sends: seq<Send>, most: nat)
    requires Limited(s) && Proper(s, sends, most) && (Allowed(s) + most) * 8 < UINT_SIZE
    ensures sends != [] ==> Bounded(s, Run(s, sends), most, sends[|sends| - 1].t)
    ensures Sum(Run(s, sends).history) <= 2 * Allowed(s) + most
  {
    if sends != [] {
      var front, last := sends[..|sends| - 1], sends[|sends| - 1];
      WindowBounded(s, front, most);
      var before := if front == [] then last.t else front[|front| - 1].t;
      assert Bounded(s, Run(s, front), most, before);
      SendKeeps(s, Run(s, front), most, before, last.checked, last.t, last.bytes);
    }
  }

  /** What is kept is all that was sent in the window. */
  lemma {:induction false} HistoryIsWindow(s: Speed, sends: seq<Send>, most: nat)
    requires Limited(s) && Proper(s, sends, most) && sends != []
    ensures Run(s, sends).history == Recent(All(sends), s.calcTime, sends[|sends| - 1].t)
  {
    var front, last := sends[..|sends| - 1], sends[|sends| - 1];
    var e := Entry(last.t, last.bytes);
    assert All(sends) == All(front) + [e];
    if front == [] {
      assert [] + [e] == [e];
    } else {
      HistoryIsWindow(s, front, most);
      LoggedHistory(s, Run(s, front), last.t, last.bytes);
      hide Recent, Logged, Proper, Limited;
      RecentAppend(Run(s, front).history, e, s.calcTime, last.t);
      RecentAppend(All(front), e, s.calcTime, last.t);
      RecentTwice(All(front), s.calcTime, front[|front| - 1].t, last.t);
    }
  }

  lemma LoggedHistory(s: Speed, l: Link, now: real, bytes: nat)
    requires Limited(s)
    ensures Logged(s, l, now, bytes).history == Recent(l.history + [Entry(now, bytes)], s.calcTime, now)
  {
  }

  predicate InOrder(h: seq<Entry>) {
    forall i, j | 0 <= i <= j < |h| :: h[i].t <= h[j].t
  }

  lemma {:induction false} SentInOrder(s: Speed, sends: seq<Send>, most: nat)
    requires Proper(s, sends, most)
    ensures InOrder(All(sends))
  {
    if sends != [] {
      var front := sends[..|sends| - 1];
      SentInOrder(s, front, most);
      hide Run;
      assert All(sends)[..|front|] == All(front);
      assert front != [] ==> All(front)[|front| - 1].t <= All(sends)[|front|].t;
    }
  }

  /** Exactly the first `k` entries are too old. */
  predicate OldUpTo(h: seq<Entry>, k: nat, calcTime: real, now: real) {
    forall i | 0 <= i < |h| :: i < k <==> h[i].t + calcTime < now
  }

  /** Of entries in order of time the last ones are recent: all from the first that is. */
  lemma {:induction false} RecentIsTail(h: seq<Entry>, calcTime: real, now: real) returns (k: nat)
    requires InOrder(h)
    ensures k <= |h| && Recent(h, calcTime, now) == h[k..] && OldUpTo(h, k, calcTime, now)
  {
    k := |h|;
    if h != [] && !(h[|h| - 1].t + calcTime < now) {
      var front := h[..|h| - 1];
      k := RecentIsTail(front, calcTime, now);
      RecentAppend(front, h[|h| - 1], calcTime, now);
      hide Recent;
      assert h == front + [h[|h| - 1]];
      assert h[k..] == front[k..] + [h[|h| - 1]];
    } else {
      AllOld(h, calcTime, now);
    }
  }

  /** It is the messages from the first one on that left in the window. */
  lemma HistoryIsTail(s: Speed, sends: seq<Send>, most: nat) returns (k: nat)
    requires Limited(s) && Proper(s, sends, most) && sends != []
    ensures k <= |sends| && Run(s, sends).history == All(sends)[k..]
    ensures OldUpTo(All(sends), k, s.calcTime, sends[|sends| - 1].t)
  {
    HistoryIsWindow(s, sends, most);
    SentInOrder(s, sends, most);
    hide *;
    k := RecentIsTail(All(sends), s.calcTime, sends[|sends| - 1].t);
  }

  /** Sending is blocked from now on for the time the link needs for the bits beyond those
      allowed in a window, seen in 32 bits; it is not if there are none. */
  lemma BlockMeans(s: Speed, l: Link, now: real, bytes: nat) returns (sum: nat, allowed: nat)
    requires Limited(s)
    ensures (8 * allowed) as real <= s.max as real * s.calcTime < (8 * (allowed + 1)) as real
    ensures sum == Sum(Logged(s, l, now, bytes).history) % UINT_SIZE
    ensures var l1 := Logged(s, l, now, bytes);
            if sum > allowed then (l1.blockUntil - now) * s.max as real == ((8 * (sum - allowed)) % UINT_SIZE) as real
            else l1.blockUntil == l.blockUntil
  {
    hide Recent, Sum, Wait, Allowed, Block, Logged;
    var h := Recent(l.history + [Entry(now, bytes)], s.calcTime, now);
    LoggedIs(s, l, Entry(now, bytes), h);
    sum, allowed := Sum(h) % UINT_SIZE, Allowed(s);
    BlockIs(s, Sum(h), sum, now, l.blockUntil);
    AllowedMeans(s);
    if sum > allowed {
      WaitMeans(s, sum - allowed);
      var wait := Wait(s, sum - allowed);
      assert now + wait - now == wait;
    }
  }

  lemma WaitMeans(s: Speed, excess: nat)
    requires s.max > 0
    ensures Wait(s, excess) * s.max as real == ((8 * excess) % UINT_SIZE) as real
  {
  }

  lemma AllowedMeans(s: Speed)
    requires Limited(s)
    ensures (8 * Allowed(s)) as real <= s.max as real * s.calcTime < (8 * (Allowed(s) + 1)) as real
  {
    var bits := s.max as real * s.calcTime;
    assert Allowed(s) as real <= bits / 8.0 < (Allowed(s) + 1) as real;
  }

  function All(sends: seq<Send>): seq<Entry> {
    seq(|sends|, k requires 0 <= k < |sends| => Entry(sends[k].t, sends[k].bytes))
  }

  lemma {:induction false} RecentTwice(h: seq<Entry>, calcTime: real, t: real, now: real)
    requires t <= now
    ensures Recent(Recent(h, calcTime, t), calcTime, now) == Recent(h, calcTime, now)
  {
    if h != [] {
      RecentTwice(h[..|h| - 1], calcTime, t, now);
      RecentAppend(Recent(h[..|h| - 1], calcTime, t), h[|h| - 1], calcTime, now);
      assert Recent(h[..|h| - 1], calcTime, t) + [] == Recent(h[..|h| - 1], calcTime, t);
    }
  }

  // ----- when the bound fails -----

  /** The bytes whose number of bits is zero in 32 bits. */
  const WRAP: nat := 0x2000_0000

  /** Where messages may be as long as what is allowed, the bound holds in all runs exactly
      if what is allowed and the longest message together have room in 32 bits, as bits. */
  lemma WindowBoundedIff(s: Speed, most: nat)
    requires Limited(s) && Allowed(s) <= most
    ensures (forall sends | Proper(s, sends, most) :: Sum(Run(s, sends).history) <= 2 * Allowed(s) + most)
            <==> (Allowed(s) + most) * 8 < UINT_SIZE
  {
    hide Proper, Run, Sum, Allowed, Limited;
    if (Allowed(s) + most) * 8 < UINT_SIZE {
      forall sends | Proper(s, sends, most) ensures Sum(Run(s, sends).history) <= 2 * Allowed(s) + most {
        WindowBounded(s, sends, most);
      }
    } else {
      var sends := Exceeds(s, most);
      assert Proper(s, sends, most);
    }
  }

  lemma Exceeds(s: Speed, most: nat) returns (sends: seq<Send>)
    requires Limited(s) && Allowed(s) <= most && (Allowed(s) + most) * 8 >= UINT_SIZE
    ensures Proper(s, sends, most) && Sum(Run(s, sends).history) > 2 * Allowed(s) + most
  {
    hide Proper, Run, Sum, Allowed;
    if most < WRAP {
      sends := WaitOnce(s, most);
    } else {
      var until;
      sends, until := Flood(s, most, Allowed(s) + most + 1);
      WithinIs(s, most, sends, Allowed(s) + (Allowed(s) + most + 1) * WRAP, until, 0.0);
    }
  }

  /** A run within one window, and what it has come to. */
  ghost predicate Within(s: Speed, most: nat, sends: seq<Send>, sum: nat, until: real, now: real) {
    && Proper(s, sends, most) && SentBy(sends, now) && Since(Run(s, sends).history)
    && Sum(Run(s, sends).history) == sum && Run(s, sends).blockUntil == until
  }

  predicate SentBy(sends: seq<Send>, now: real) {
    forall y | y in sends :: y.t <= now
  }

  predicate Since(h: seq<Entry>) {
    forall k | 0 <= k < |h| :: 0.0 <= h[k].t
  }

  lemma NothingSent(s: Speed, most: nat)
    ensures Within(s, most, [], 0, 0.0, 0.0)
  {
  }

  lemma OneMore(s: Speed, most: nat, sends: seq<Send>, sum: nat, until: real, now: real, x: Send) returns (more: seq<Send>)
    requires Limited(s) && Within(s, most, sends, sum, until, now) && 0 < x.bytes <= most
    requires until <= x.checked <= x.t && now <= x.t && 0.0 <= x.t <= s.calcTime
    ensures Within(s, most, more, sum + x.bytes, Block(s, sum + x.bytes, x.t, until), x.t)
  {
    hide Run, Proper, Logged, Sum, Block, Limited, More, Since, SentBy;
    var l, e := Run(s, sends), Entry(x.t, x.bytes);
    OneMoreSent(sends, now, x);
    OneMoreSince(s, l.history, e);
    hide *;
    RunMore(s, sends, x, most);
    LoggedWhole(s, l, e);
    more := sends + [x];
    MoreIs(s, l, e, Run(s, more));
  }

  lemma OneMoreSent(sends: seq<Send>, now: real, x: Send)
    requires SentBy(sends, now) && now <= x.t
    ensures SentBy(sends, x.t) && SentBy(sends + [x], x.t)
  {
  }

  lemma OneMoreSince(s: Speed, h: seq<Entry>, e: Entry)
    requires Since(h) && 0.0 <= e.t <= s.calcTime
    ensures NoneOldAt(s, h, e.t) && Since(h + [e])
  {
  }

  lemma RunMore(s: Speed, sends: seq<Send>, x: Send, most: nat)
    requires Proper(s, sends, most) && 0 < x.bytes <= most
    requires Run(s, sends).blockUntil <= x.checked <= x.t && SentBy(sends, x.t)
    ensures Proper(s, sends + [x], most) && Run(s, sends + [x]) == Logged(s, Run(s, sends), x.t, x.bytes)
  {
    assert (sends + [x])[..|sends|] == sends && (sends + [x])[|sends|] == x;
    assert sends != [] ==> sends[|sends| - 1] in sends;
    hide Logged;
  }

  predicate More(s: Speed, l: Link, e: Entry, l1: Link)
    requires Limited(s)
  {
    var sum := Sum(l.history) + e.bytes;
    && l1.history == l.history + [e] && Sum(l1.history) == sum
    && l1.blockUntil == Block(s, sum, e.t, l.blockUntil)
  }

  lemma MoreIs(s: Speed, l: Link, e: Entry, l1: Link)
    requires Limited(s) && More(s, l, e, l1)
    ensures l1.history == l.history + [e] && Sum(l1.history) == Sum(l.history) + e.bytes
    ensures l1.blockUntil == Block(s, Sum(l.history) + e.bytes, e.t, l.blockUntil)
  {
  }

  predicate NoneOldAt(s: Speed, h: seq<Entry>, now: real) {
    forall k | 0 <= k < |h| :: now <= h[k].t + s.calcTime
  }

  function Block(s: Speed, sum: nat, now: real, until: real): real
    requires Limited(s)
  {
    var low := sum % UINT_SIZE;
    if low > Allowed(s) then now + Wait(s, low - Allowed(s)) else until
  }

  lemma LoggedWhole(s: Speed, l: Link, e: Entry)
    requires Limited(s) && NoneOldAt(s, l.history, e.t)
    ensures More(s, l, e, Logged(s, l, e.t, e.bytes))
  {
    RecentWhole(s, l.history, e);
    hide *;
    LoggedIs(s, l, e, l.history + [e]);
  }

  lemma RecentWhole(s: Speed, h: seq<Entry>, e: Entry)
    requires Limited(s) && NoneOldAt(s, h, e.t)
    ensures Recent(h + [e], s.calcTime, e.t) == h + [e] && Sum(h + [e]) == Sum(h) + e.bytes
  {
    NoneOld(h, s.calcTime, e.t);
    RecentAppend(h, e, s.calcTime, e.t);
  }

  lemma LoggedIs(s: Speed, l: Link, e: Entry, h: seq<Entry>)
    requires Limited(s) && h == Recent(l.history + [e], s.calcTime, e.t)
    ensures Logged(s, l, e.t, e.bytes) == Link(h, Block(s, Sum(h), e.t, l.blockUntil))
  {
    hide Recent, Sum, Wait, Allowed;
  }

  lemma BlockIs(s: Speed, sum: nat, low: nat, now: real, until: real)
    requires Limited(s) && low == sum % UINT_SIZE
    ensures Block(s, sum, now, until) == if low > Allowed(s) then now + Wait(s, low - Allowed(s)) else until
  {
  }

  lemma {:induction false} NoneOld(h: seq<Entry>, calcTime: real, now: real)
    requires forall k | 0 <= k < |h| :: now <= h[k].t + calcTime
    ensures Recent(h, calcTime, now) == h
  {
    if h != [] {
      var last := h[|h| - 1];
      NoneOld(h[..|h| - 1], calcTime, now);
      RecentAppend(h[..|h| - 1], last, calcTime, now);
      assert h == h[..|h| - 1] + [last];
    }
  }

  lemma WrapsToNothing(s: Speed, k: nat, now: real, until: real)
    requires Limited(s) && until <= now
    ensures Block(s, Allowed(s) + k * WRAP, now, until) <= now
  {
    WrapsToZero(Allowed(s), k);
    hide Allowed;
  }

  lemma WrapsToZero(a: nat, k: nat)
    ensures ((a + k * WRAP) % UINT_SIZE - a) * 8 % UINT_SIZE == 0
  {
    var j := k - 8 * ((a + k * WRAP) / UINT_SIZE);
    assert ((a + k * WRAP) % UINT_SIZE - a) * 8 == j * UINT_SIZE && (j * UINT_SIZE) % UINT_SIZE == 0;
  }

  /** Longer messages: what is allowed, and then one message after another of the bytes whose
      excess is never seen. */
  lemma {:induction false} Flood(s: Speed, most: nat, k: nat) returns (sends: seq<Send>, until: real)
    requires Limited(s) && Allowed(s) <= most && WRAP <= most
    ensures Within(s, most, sends, Allowed(s) + k * WRAP, until, 0.0) && until <= 0.0
    decreases k
  {
    hide Within, Allowed, Block;
    var sum, bytes := 0, Allowed(s);
    if k > 0 {
      sends, until := Flood(s, most, k - 1);
      sum, bytes := Allowed(s) + (k - 1) * WRAP, WRAP;
    } else {
      sends, until := [], 0.0;
      NothingSent(s, most);
    }
    if bytes > 0 {
      WrapsToNothing(s, k, 0.0, until);
      sends := OneMore(s, most, sends, sum, until, 0.0, Send(0.0, 0.0, bytes));
      until := Block(s, sum + bytes, 0.0, until);
    }
  }

  /** Shorter ones: after one wait, which is within the window, the excess comes to those
      bytes. */
  lemma WaitOnce(s: Speed, most: nat) returns (sends: seq<Send>)
    requires Limited(s) && Allowed(s) <= most < WRAP <= Allowed(s) + most
    ensures Proper(s, sends, most) && Sum(Run(s, sends).history) > 2 * Allowed(s) + most
  {
    var a, b := Allowed(s), WRAP - most;
    var wait := Wait(s, b);
    ShortWait(s, b);
    ExcessOf(s, b);
    WrapsToNothing(s, 1, wait, wait);
    assert a + b + most == a + 1 * WRAP;
    hide *;
    sends := FourSends(s, most, a, b, wait);
  }

  lemma FourSends(s: Speed, most: nat, a: nat, b: nat, wait: real) returns (sends: seq<Send>)
    requires Limited(s) && 0 < a <= most && 0 < b <= most && 0.0 <= wait <= s.calcTime
    requires Block(s, a, 0.0, 0.0) == 0.0 && Block(s, a + b, 0.0, 0.0) == wait && Block(s, a + b + most, wait, wait) <= wait
    ensures Proper(s, sends, most) && Sum(Run(s, sends).history) == a + b + most + most
  {
    hide *;
    NothingSent(s, most);
    sends := OneMore(s, most, [], 0, 0.0, 0.0, Send(0.0, 0.0, a));
    sends := OneMore(s, most, sends, a, 0.0, 0.0, Send(0.0, 0.0, b));
    sends := OneMore(s, most, sends, a + b, wait, 0.0, Send(wait, wait, most));
    var until := Block(s, a + b + most, wait, wait);
    sends := OneMore(s, most, sends, a + b + most, until, wait, Send(wait, wait, most));
    WithinIs(s, most, sends, a + b + most + most, Block(s, a + b + most + most, wait, until), wait);
  }

  lemma WithinIs(s: Speed, most: nat, sends: seq<Send>, sum: nat, until: real, now: real)
    requires Within(s, most, sends, sum, until, now)
    ensures Proper(s, sends, most) && Sum(Run(s, sends).history) == sum
  {
  }

  lemma ExcessOf(s: Speed, excess: nat)
    requires Limited(s) && excess > 0 && Allowed(s) + excess < UINT_SIZE
    ensures Block(s, Allowed(s), 0.0, 0.0) == 0.0
    ensures Block(s, Allowed(s) + excess, 0.0, 0.0) == Wait(s, excess)
  {
    hide Allowed, Wait;
  }

  lemma ShortWait(s: Speed, excess: nat)
    requires Limited(s) && excess <= Allowed(s) && excess * 8 < UINT_SIZE
    ensures 0.0 <= Wait(s, excess) <= s.calcTime
  {
    var max := s.max as real;
    assert (excess * 8) as real <= max * s.calcTime;
    QuotientAtMost((excess * 8) as real, max, s.calcTime);
  }

  lemma QuotientAtMost(x: real, a: real, b: real)
    requires a > 0.0 && 0.0 <= x <= a * b
    ensures 0.0 <= x / a <= b
  {
    assert (x / a) * a == x;
  }

  // ----- one partner's link -----

  class Partner {
    const speed: Speed
    /** No message is longer. */
    const most: nat
    var history: seq<Entry>
    var sendBlockUntil: real
    var sendIterations: nat
    /** The clock when it was last looked at, and all messages sent. */
    var clock: real
    ghost var sends: seq<Send>

    constructor (speed: Speed, most: nat, clock: real)
      ensures Valid() && this.speed == speed && this.most == most && sends == []
    {
      this.speed, this.most, this.clock := speed, most, clock;
      history, sendBlockUntil, sendIterations, sends := [], 0.0, 0, [];
    }

    function Value(): Link
      reads this
    {
      Link(history, sendBlockUntil)
    }

    ghost predicate Valid()
      reads this
    {
      && Value() == Run(speed, sends) && Proper(speed, sends, most)
      && (sends != [] ==> sends[|sends| - 1].t <= clock)
    }

    method GetActualTime() returns (now: real)
      modifies this`clock
      ensures old(clock) <= now == clock
    {
      now := *;
      if now < clock { now := clock; }
      clock := now;
    }

    /** None of the three kinds had a message in the last three trials. */
    ghost predicate Idle(supply: nat -> nat)
      reads this
    {
      sendIterations >= 3 && forall k: nat | sendIterations - 3 <= k < sendIterations :: supply(k) == 0
    }

    ghost function Sizes(): (r: seq<nat>)
      reads this
      ensures |r| == |sends|
    {
      seq(|sends|, k requires 0 <= k < |sends| reads this => sends[k].bytes)
    }

    /** Sends messages of the three kinds in turn, one at a time, until the link is blocked at
        `actTime` or there is nothing to send. `supply` is how many bytes each trial of a
        kind gives to send. */
    method EvalSendForPartnerWhenInited(actTime: real, supply: nat -> nat, fuel: nat)
      requires Valid() && actTime <= clock && forall k :: supply(k) <= most
      modifies this
      ensures Valid() && old(sends) <= sends
      ensures old(sendBlockUntil) > actTime ==> sends == old(sends)
      ensures sendBlockUntil > actTime || Idle(supply) || |sends| == |old(sends)| + fuel
      ensures old(sendIterations) <= sendIterations
      ensures Sizes() == old(Sizes()) + Given(supply, old(sendIterations), sendIterations)
      ensures forall k | |old(sends)| <= k < |sends| :: sends[k].checked == actTime
    {
      hide Run, Proper, Given;
      NoneGiven(supply, sendIterations);
      assert Sizes() + [] == Sizes();
      var rounds := 0;
      while rounds < fuel
        invariant Valid() && old(sends) <= sends && actTime <= clock && |sends| == |old(sends)| + rounds && rounds <= fuel
        invariant old(sendIterations) <= sendIterations
        invariant Sizes() == old(Sizes()) + Given(supply, old(sendIterations), sendIterations)
        invariant forall k | |old(sends)| <= k < |sends| :: sends[k].checked == actTime
        invariant old(sendBlockUntil) > actTime ==> sends == old(sends) && sendBlockUntil == old(sendBlockUntil)
      {
        if sendBlockUntil > actTime { return; }
        ghost var before := sendIterations;
        var bytes := TrySend(supply);
        GivenMore(supply, old(sendIterations), before, sendIterations);
        OneMoreSize(old(Sizes()), Given(supply, old(sendIterations), before), bytes);
        if bytes == 0 { return; }
        MessageSent(actTime, bytes);
        rounds := rounds + 1;
      }
    }

    /** One message of the first kind, from the next on, that has any. */
    method TrySend(supply: nat -> nat) returns (bytes: nat)
      requires forall k :: supply(k) <= most
      modifies this`sendIterations
      ensures bytes <= most && (bytes == 0 ==> Idle(supply)) && old(sendIterations) <= sendIterations
      ensures Given(supply, old(sendIterations), sendIterations) == if bytes == 0 then [] else [bytes]
    {
      bytes := 0;
      var i := 0;
      while i < 3 && bytes == 0
        invariant i <= 3 && bytes <= most && sendIterations == old(sendIterations) + i
        invariant Given(supply, old(sendIterations), sendIterations) == if bytes == 0 then [] else [bytes]
        invariant bytes == 0 ==> forall k: nat | old(sendIterations) <= k < sendIterations :: supply(k) == 0
      {
        bytes := supply(sendIterations);
        sendIterations := sendIterations + 1;
        i := i + 1;
      }
    }

    method MessageSent(checked: real, bytes: nat)
      requires Valid() && sendBlockUntil <= checked <= clock && 0 < bytes <= most
      modifies this`clock, this`history, this`sendBlockUntil, this`sends
      ensures Valid() && old(clock) <= clock
      ensures sends == old(sends) + [Send(checked, clock, bytes)] && Sizes() == old(Sizes()) + [bytes]
    {
      var now := GetActualTime();
      ghost var send := Send(checked, now, bytes);
      assert (sends + [send])[..|sends|] == sends;
      CalculateSendBlockUntil(now, bytes);
      sends := sends + [send];
    }

    method CalculateSendBlockUntil(now: real, bytes: nat)
      modifies this`history, this`sendBlockUntil
      ensures Value() == Logged(speed, old(Value()), now, bytes)
    {
      if !(speed.max > 0 && speed.calcTime > 0.1) { return; }
      ghost var l := Value();
      history := RemoveOld(history + [Entry(now, bytes)], now);
      var sent := SumBytes(history);
      LoggedIs(speed, l, Entry(now, bytes), history);
      BlockIs(speed, Sum(history), sent, now, l.blockUntil);
      hide Recent, Sum, Wait, Allowed, Block, Logged;
      if sent > 0 {
        var allowed := Allowed(speed);
        if sent > allowed {
          sendBlockUntil := now + Wait(speed, sent - allowed);
        }
      }
    }

    method RemoveOld(h: seq<Entry>, now: real) returns (kept: seq<Entry>)
      ensures kept == Recent(h, speed.calcTime, now)
    {
      kept := [];
      for i := 0 to |h|
        invariant kept == Recent(h[..i], speed.calcTime, now)
      {
        assert h[..i + 1][..i] == h[..i];
        if !(h[i].t + speed.calcTime < now) { kept := kept + [h[i]]; }
      }
      assert h[..|h|] == h;
    }

    method SumBytes(h: seq<Entry>) returns (sent: nat)
      ensures sent == Sum(h) % UINT_SIZE
    {
      sent := 0;
      for i := 0 to |h|
        invariant sent == Sum(h[..i]) % UINT_SIZE
      {
        assert h[..i + 1][..i] == h[..i];
        AddModulo(Sum(h[..i]), h[i].bytes);
        sent := (sent + h[i].bytes) % UINT_SIZE;
      }
      assert h[..|h|] == h;
    }
  }

  /** The messages there were in the trials from `from` up to `end`. */
  function Given(supply: nat -> nat, from: nat, end: nat): seq<nat> {
    if end <= from then [] else Given(supply, from, end - 1) + if supply(end - 1) == 0 then [] else [supply(end - 1)]
  }

  lemma {:induction false} GivenMore(supply: nat -> nat, from: nat, middle: nat, end: nat)
    requires from <= middle <= end
    ensures Given(supply, from, end) == Given(supply, from, middle) + Given(supply, middle, end)
    decreases end
  {
    if middle < end { GivenMore(supply, from, middle, end - 1); }
  }

  lemma NoneGiven(supply: nat -> nat, from: nat)
    ensures Given(supply, from, from) == []
  {
  }

  lemma OneMoreSize(a: seq<nat>, b: seq<nat>, x: nat)
    ensures a + b + [x] == a + (b + [x]) && b + [] == b
  {
  }

  lemma AddModulo(a: nat, b: nat)
    ensures (a % UINT_SIZE + b) % UINT_SIZE == (a + b) % UINT_SIZE
  {
  }
}
