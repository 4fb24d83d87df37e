/** Filling an outgoing message with queued changes of variables. A change is sent whole or,
    if it is too long, in fragments, one variable at a time. What is prepared takes effect
    only when the message could be finished; otherwise it is all tried again. */
module GenerateChanges {
  import opened Basics
  import opened Escape
  import opened Fragments

  /** A queued change and the text it is sent as. */
  datatype Change = Change(name: string, msg: Text, blockUntil: int, priority: nat)

  datatype Fragmenting = Fragmenting(name: string, message: Text, state: FragmentsState)

  /** One entry of the outgoing message. */
  datatype Out = Plain(c: Change) | Piece(name: string, f: Fragment)

  /** What is going to be committed: positions in the two queues, a fragmentation that
      starts now, the state of the fragmentation; and the message so far. */
  datatype Prepared = Prepared(mine: seq<nat>, his: seq<nat>, started: Option<Fragmenting>,
                               state: Option<FragmentsState>, out: seq<Out>)

  datatype Outcome = Sent(out: seq<Out>) | NothingToSend | OutOfFuel

  /** What the output buffer says when asked for room: from which size on to fragment, how
      long a fragment may be, and whether it takes the text then. */
  datatype Space = Space(fragmentMax: nat, optimal: nat, fits: bool)

  /** The buffer in one attempt: for each change, for each fragment, and at the end. */
  datatype Buffer = Buffer(forChange: string -> Space, forPiece: nat -> Space, finishes: bool)

  predicate Ready(c: Change, now: int) { c.blockUntil <= now || c.priority < 2 }

  // ----- positions in a queue -----

  predicate Positions(pos: seq<nat>, n: nat) {
    && (forall i, j | 0 <= i < j < |pos| :: pos[i] < pos[j])
    && (forall i | 0 <= i < |pos| :: pos[i] < n)
  }

  /** The queue without those positions, in its order. */
  function Without(q: seq<Change>, pos: seq<nat>): seq<Change> {
    if q == [] then [] else
      Without(q[..|q| - 1], pos) + if |q| - 1 in pos then [] else [q[|q| - 1]]
  }

  lemma {:induction false} LaterPosition(q: seq<Change>, pos: seq<nat>, k: nat)
    requires |q| <= k
    ensures Without(q, pos + [k]) == Without(q, pos)
  {
    if q != [] {
      LaterPosition(q[..|q| - 1], pos, k);
    }
  }

  function Texts(q: seq<Change>): multiset<Text> {
    if q == [] then multiset{} else Texts(q[..|q| - 1]) + multiset{q[|q| - 1].msg}
  }

  lemma OnePositionMore(pos: seq<nat>, i: nat)
    requires Positions(pos, i)
    ensures Positions(pos, i + 1) && Positions(pos + [i], i + 1) && i !in pos && i in pos + [i]
  {
  }

  lemma WithoutNext(q: seq<Change>, pos: seq<nat>, i: nat)
    requires i < |q|
    ensures Without(q[..i + 1], pos) == if i in pos then Without(q[..i], pos) else Without(q[..i], pos) + [q[i]]
  {
    assert q[..i + 1][..i] == q[..i];
  }

  /** Positions are met in order: between two of them there is none. */
  lemma BetweenPositions(pos: seq<nat>, n: nat, k: nat, i: nat)
    requires Positions(pos, n) && k <= |pos| && (k > 0 ==> pos[k - 1] < i) && (k < |pos| ==> i < pos[k])
    ensures i !in pos
  {
    forall j | 0 <= j < |pos| ensures pos[j] != i {
      if j < k - 1 { assert pos[j] < pos[k - 1]; }
      if k < j { assert pos[k] < pos[j]; }
    }
  }

  /** A queue loses its elements at the given positions, from the front on. */
  method EraseVariables(q: seq<Change>, pos: seq<nat>) returns (rest: seq<Change>)
    requires Positions(pos, |q|)
    ensures rest == Without(q, pos)
  {
    rest := [];
    var i, k := 0, 0;
    assert rest == Without(q[..0], pos);
    hide Without, Positions;
    while k < |pos|
      invariant k <= |pos| && i <= |q| && (k > 0 ==> pos[k - 1] < i) && (k < |pos| ==> i <= pos[k])
      invariant rest == Without(q[..i], pos)
    {
      PositionNext(pos, |q|, k);
      while i < pos[k]
        invariant i <= pos[k] && (k > 0 ==> pos[k - 1] < i) && rest == Without(q[..i], pos)
      {
        rest := KeepOne(q, pos, k, i, rest);
        i := i + 1;
      }
      WithoutNext(q, pos, i);
      k := k + 1;
      i := i + 1;
    }
    while i < |q|
      invariant i <= |q| && (k > 0 ==> pos[k - 1] < i) && rest == Without(q[..i], pos)
    {
      rest := KeepOne(q, pos, k, i, rest);
      i := i + 1;
    }
    assert q[..i] == q;
  }

  method KeepOne(q: seq<Change>, pos: seq<nat>, ghost k: nat, i: nat, rest: seq<Change>) returns (rest1: seq<Change>)
    requires Positions(pos, |q|) && i < |q| && rest == Without(q[..i], pos)
    requires k <= |pos| && (k > 0 ==> pos[k - 1] < i) && (k < |pos| ==> i < pos[k])
    ensures rest1 == Without(q[..i + 1], pos)
  {
    BetweenPositions(pos, |q|, k, i);
    WithoutNext(q, pos, i);
    rest1 := rest + [q[i]];
  }

  lemma PositionNext(pos: seq<nat>, n: nat, k: nat)
    requires Positions(pos, n) && k < |pos|
    ensures pos[k] < n && (k + 1 < |pos| ==> pos[k] < pos[k + 1])
  {
  }

  // ----- what has left, and what the receiver makes of it -----

  function ToItem(o: Out): Item {
    match o
    case Plain(c) => Other(c.msg)
    case Piece(_, f) => Frag(f)
  }

  function Items(out: seq<Out>): seq<Item> {
    seq(|out|, i requires 0 <= i < |out| => ToItem(out[i]))
  }

  function Processed(done: seq<Done>): multiset<Text> {
    if done == [] then multiset{} else Processed(done[..|done| - 1]) + multiset{done[|done| - 1].text}
  }

  function InPieces(cur: Option<Fragmenting>): multiset<Text> {
    if cur.Some? && !cur.value.state.ended then multiset{cur.value.message} else multiset{}
  }

  /** The texts that have begun to leave are those the receiver has processed, and the one
      he has so far received a part of. */
  ghost predicate Balanced(link: seq<Out>, cur: Option<Fragmenting>, sent: seq<Fragment>, begun: multiset<Text>) {
    && begun == Processed(Receive(None, Items(link)).1) + InPieces(cur)
    && (cur.Some? ==> Counted(cur.value.message, sent, cur.value.state) && cur.value.state.inited)
    && Receive(None, Items(link)).0 == (if cur.Some? then Expected(cur.value.message, cur.value.state, None).0 else None)
  }

  lemma ReceiveOne(link: seq<Out>, o: Out)
    ensures var (got, done) := Receive(None, Items(link));
            Receive(None, Items(link + [o])) ==
            match o
            case Plain(c) => (got, done + [Direct(c.msg)])
            case Piece(_, f) => var (r, d) := ProcessFRG(got, Quoted(f.body), f.kind); (r, done + d)
  {
    assert Items(link + [o])[..|link|] == Items(link);
  }

  lemma ProcessedAppend(done: seq<Done>, d: seq<Done>)
    requires |d| <= 1
    ensures Processed(done + d) == Processed(done) + (if d == [] then multiset{} else multiset{d[0].text})
  {
    if d == [] { assert done + d == done; } else { assert (done + d)[..|done|] == done; }
  }

  lemma SendPlain(link: seq<Out>, cur: Option<Fragmenting>, sent: seq<Fragment>, begun: multiset<Text>, c: Change)
    requires Balanced(link, cur, sent, begun)
    ensures Balanced(link + [Plain(c)], cur, sent, begun + multiset{c.msg})
  {
    ReceiveOne(link, Plain(c));
    ProcessedAppend(Receive(None, Items(link)).1, [Direct(c.msg)]);
    hide Receive, Expected, Counted, Items, Processed;
  }

  lemma SendMore(link: seq<Out>, cur: Fragmenting, sent: seq<Fragment>, begun: multiset<Text>, s1: FragmentsState, f: Fragment)
    requires Balanced(link, Some(cur), sent, begun) && GeneratesSome(cur.state, s1, f)
    ensures Balanced(link + [Piece(cur.name, f)], Some(cur.(state := s1)), sent + [f], begun)
  {
    var k := SomeTaken(cur.state, s1, f);
    SendTaken(link, cur, sent, begun, k, s1, f);
  }

  lemma SendTaken(link: seq<Out>, cur: Fragmenting, sent: seq<Fragment>, begun: multiset<Text>, k: nat, s1: FragmentsState, f: Fragment)
    requires Balanced(link, Some(cur), sent, begun) && Takes(cur.state, k, s1, f)
    ensures Balanced(link + [Piece(cur.name, f)], Some(cur.(state := s1)), sent + [f], begun)
  {
    CountedStep(cur.message, sent, cur.state, k, s1, f);
    ExpectedStep(cur.message, sent, cur.state, k, s1, f, None);
    ReceiveOne(link, Piece(cur.name, f));
    ExpectedDone(cur.message, s1);
    ProcessedAppend(Receive(None, Items(link)).1, Expected(cur.message, s1, None).1);
    TakenState(cur.state, k, s1, f);
    var (got, done) := Receive(None, Items(link));
    var (got1, done1) := Receive(None, Items(link + [Piece(cur.name, f)]));
    assert begun == Processed(done) + multiset{cur.message};
    assert got1 == Expected(cur.message, s1, None).0;
    hide *;
    MakeBalanced(link + [Piece(cur.name, f)], cur.(state := s1), sent + [f], begun, done, done1);
  }

  lemma MakeBalanced(link: seq<Out>, cur: Fragmenting, sent: seq<Fragment>, begun: multiset<Text>, done: seq<Done>, done1: seq<Done>)
    requires Counted(cur.message, sent, cur.state) && cur.state.inited
    requires Receive(None, Items(link)) == (Expected(cur.message, cur.state, None).0, done1)
    requires begun == Processed(done) + multiset{cur.message}
    requires Processed(done1) == Processed(done) + (if cur.state.ended then multiset{cur.message} else multiset{})
    ensures Balanced(link, Some(cur), sent, begun)
  {
    hide Receive, Items, Processed, Counted, Expected;
  }

  lemma TakenState(s: FragmentsState, k: nat, s1: FragmentsState, f: Fragment)
    requires Takes(s, k, s1, f)
    ensures s1.inited && !s.ended
  {
  }

  lemma ExpectedDone(message: Text, s: FragmentsState)
    requires |s.remaining| <= |message| && s.inited
    ensures Expected(message, s, None).1 == if s.ended then [Whole(message)] else []
  {
  }

  /** A change begins to leave in fragments. */
  lemma SendFirst(link: seq<Out>, cur: Option<Fragmenting>, sent: seq<Fragment>, begun: multiset<Text>, c: Change,
                  s1: FragmentsState, f: Fragment)
    requires Balanced(link, cur, sent, begun) && (cur.Some? ==> cur.value.state.ended)
    requires GeneratesSome(Fresh(c.msg), s1, f)
    ensures Balanced(link + [Piece(c.name, f)], Some(Fragmenting(c.name, c.msg, s1)), [f], begun + multiset{c.msg})
  {
    FirstExpected(c.msg, s1, f);
    ReceiveOne(link, Piece(c.name, f));
    var (got, done) := Receive(None, Items(link));
    assert done + [] == done;
    assert got == None;
    hide Receive, Counted, Items, Processed, ProcessFRG, Expected, GeneratesSome;
  }

  lemma FirstExpected(message: Text, s1: FragmentsState, f: Fragment)
    requires GeneratesSome(Fresh(message), s1, f)
    ensures Counted(message, [f], s1) && s1.inited && !s1.ended
    ensures ProcessFRG(None, Quoted(f.body), f.kind) == Expected(message, s1, None) == (Expected(message, s1, None).0, [])
  {
    var k := SomeTaken(Fresh(message), s1, f);
    hide *;
    FirstCounted(message, k, s1, f);
    FirstRead(message, k, s1, f);
  }

  lemma SomeTaken(s: FragmentsState, s1: FragmentsState, f: Fragment) returns (k: nat)
    requires GeneratesSome(s, s1, f)
    ensures Takes(s, k, s1, f)
  {
    var maxSize: nat :| Generates(s, maxSize, s1, f);
    hide Takes, FitsMost;
    k :| FitsMost(s.remaining, maxSize - HEADER_SIZE, k) && Takes(s, k, s1, f);
  }

  lemma FirstCounted(message: Text, k: nat, s1: FragmentsState, f: Fragment)
    requires Takes(Fresh(message), k, s1, f)
    ensures Counted(message, [f], s1) && |s1.remaining| <= |message| && s1.inited && !s1.ended
  {
    NothingSent(message);
    CountedStep(message, [], Fresh(message), k, s1, f);
    FirstState(message, k, s1, f);
    assert [] + [f] == [f];
    hide Takes, WellOrdered;
  }

  lemma FirstState(message: Text, k: nat, s1: FragmentsState, f: Fragment)
    requires Takes(Fresh(message), k, s1, f)
    ensures s1.inited && !s1.ended
  {
    hide EscapeAll;
  }

  lemma FirstRead(message: Text, k: nat, s1: FragmentsState, f: Fragment)
    requires Takes(Fresh(message), k, s1, f) && |s1.remaining| <= |message| && s1.inited && !s1.ended
    ensures ProcessFRG(None, Quoted(f.body), f.kind) == Expected(message, s1, None) == (Expected(message, s1, None).0, [])
  {
    NothingSent(message);
    ExpectedStep(message, [], Fresh(message), k, s1, f, None);
    hide Takes, Counted, ProcessFRG;
  }

  // ----- the queues of one partner -----

  predicate Named(q: seq<Change>, name: string) {
    exists k | 0 <= k < |q| :: q[k].name == name
  }

  predicate UniqueNames(q: seq<Change>) {
    forall j, k | 0 <= j < k < |q| :: q[j].name != q[k].name
  }

  const NothingPrepared := Prepared([], [], None, None, [])

  /** The fragmentation with what is prepared taken into account. */
  function Current(fragmenting: Option<Fragmenting>, p: Prepared): Option<Fragmenting> {
    if p.state.None? then fragmenting
    else if p.started.Some? then Some(p.started.value.(state := p.state.value))
    else if fragmenting.Some? then Some(fragmenting.value.(state := p.state.value))
    else None
  }

  predicate HasChanges(p: Prepared) {
    p.mine != [] || p.his != [] || p.started.Some? || p.state.Some?
  }

  /** No variable is sent whole while it is sent in fragments. */
  predicate Apart(fragmenting: Option<Fragmenting>, p: Prepared) {
    && (forall j | 0 <= j < |p.out| && p.out[j].Plain? && fragmenting.Some? :: p.out[j].c.name != fragmenting.value.name)
    && (forall j | 0 <= j < |p.out| && p.out[j].Plain? && p.started.Some? :: p.out[j].c.name != p.started.value.name)
    && (forall j | 0 <= j < |p.out| && p.out[j].Piece? ::
          Current(fragmenting, p).Some? && p.out[j].name == Current(fragmenting, p).value.name)
  }

  /** What is prepared comes from `q`. */
  predicate From(q: seq<Change>, p: Prepared, now: int) {
    && (forall j | 0 <= j < |p.out| && p.out[j].Plain? :: p.out[j].c in q && Ready(p.out[j].c, now))
    && (p.started.Some? ==> Named(q, p.started.value.name))
  }

  ghost predicate PreparedOk(link: seq<Out>, fragmenting: Option<Fragmenting>, p: Prepared, sent: seq<Fragment>, begun: multiset<Text>) {
    && (p.started.Some? ==> p.state.Some? && fragmenting.None?)
    && (p.state.Some? ==> (p.started.Some? || fragmenting.Some?) && p.out != [])
    && Balanced(link + p.out, Current(fragmenting, p), sent, begun)
    && Apart(fragmenting, p)
  }

  lemma FreshName(before: seq<Change>, q: seq<Change>, i: nat, p: Prepared, now: int)
    requires UniqueNames(before + q) && i < |q| && From(before + q[..i], p, now)
    ensures forall j | 0 <= j < |p.out| && p.out[j].Plain? :: p.out[j].c.name != q[i].name
    ensures p.started.Some? ==> p.started.value.name != q[i].name
  {
    var all := before + q;
    assert all[|before| + i] == q[i];
    assert before + q[..i] == all[..|before| + i];
  }

  lemma FromMore(before: seq<Change>, q: seq<Change>, i: nat, p: Prepared, p1: Prepared, now: int)
    requires i < |q| && From(before + q[..i], p, now)
    requires p1.out == p.out || (exists o :: p1.out == p.out + [o] && (o.Plain? ==> o.c == q[i] && Ready(q[i], now)))
    requires p1.started == p.started || (p1.started.Some? && p1.started.value.name == q[i].name)
    ensures From(before + q[..i + 1], p1, now)
  {
    var small, big := before + q[..i], before + q[..i + 1];
    assert big == small + [q[i]];
    if p1.started.Some? {
      if p1.started == p.started {
        var k :| 0 <= k < |small| && small[k].name == p.started.value.name;
        assert big[k] == small[k];
      } else {
        assert big[|small|] == q[i];
      }
    }
  }

  lemma TextsStart(before: seq<Change>, q: seq<Change>)
    ensures Positions([], 0) && Texts(Without(q[..0], [])) == multiset{} == Texts(q[..0])
    ensures before + q[..0] == before && q[..|q|] == q
  {
  }

  /** One element is looked at: taken or not. */
  lemma TextsStep(q: seq<Change>, i: nat, pos: seq<nat>, taken: bool)
    requires i < |q| && Positions(pos, i)
    ensures var pos1 := if taken then pos + [i] else pos;
            && Positions(pos1, i + 1)
            && Texts(Without(q[..i + 1], pos1)) ==
               (if taken then Texts(Without(q[..i], pos)) else Texts(Without(q[..i], pos)) + multiset{q[i].msg})
            && Texts(q[..i + 1]) == Texts(q[..i]) + multiset{q[i].msg}
  {
    OnePositionMore(pos, i);
    assert q[..i + 1] == q[..i] + [q[i]];
    hide *;
    if taken {
      WithoutNext(q, pos + [i], i);
      LaterPosition(q[..i], pos, i);
    } else {
      WithoutNext(q, pos, i);
      OneMoreText(Without(q[..i], pos), q[i]);
    }
    OneMoreText(q[..i], q[i]);
  }

  lemma GeneratedSome(s: FragmentsState, maxSize: nat, s1: FragmentsState, f: Fragment)
    requires Generates(s, maxSize, s1, f)
    ensures GeneratesSome(s, s1, f)
  {
  }

  lemma PreparePlain(link: seq<Out>, fragmenting: Option<Fragmenting>, p: Prepared, sent: seq<Fragment>, begun: multiset<Text>, c: Change)
    requires PreparedOk(link, fragmenting, p, sent, begun)
    requires fragmenting.Some? ==> fragmenting.value.name != c.name
    requires p.started.Some? ==> p.started.value.name != c.name
    ensures PreparedOk(link, fragmenting, p.(out := p.out + [Plain(c)]), sent, begun + multiset{c.msg})
  {
    hide Balanced, Apart;
    assert Current(fragmenting, p.(out := p.out + [Plain(c)])) == Current(fragmenting, p);
    SendPlain(link + p.out, Current(fragmenting, p), sent, begun, c);
    assert link + (p.out + [Plain(c)]) == (link + p.out) + [Plain(c)];
    ApartPlain(fragmenting, p, c);
  }

  lemma ApartPlain(fragmenting: Option<Fragmenting>, p: Prepared, c: Change)
    requires Apart(fragmenting, p)
    requires fragmenting.Some? ==> fragmenting.value.name != c.name
    requires p.started.Some? ==> p.started.value.name != c.name
    ensures Apart(fragmenting, p.(out := p.out + [Plain(c)]))
  {
  }

  lemma PrepareFirst(link: seq<Out>, fragmenting: Option<Fragmenting>, p: Prepared, sent: seq<Fragment>, begun: multiset<Text>,
                     c: Change, s: FragmentsState, f: Fragment)
    requires PreparedOk(link, fragmenting, p, sent, begun) && fragmenting.None? && p.started.None?
    requires forall j | 0 <= j < |p.out| && p.out[j].Plain? :: p.out[j].c.name != c.name
    requires GeneratesSome(Fresh(c.msg), s, f)
    ensures PreparedOk(link, fragmenting, p.(started := Some(Fragmenting(c.name, c.msg, s)), state := Some(s),
                                             out := p.out + [Piece(c.name, f)]), [f], begun + multiset{c.msg})
  {
    hide Balanced, GeneratesSome;
    SendFirst(link + p.out, None, sent, begun, c, s, f);
    assert link + (p.out + [Piece(c.name, f)]) == (link + p.out) + [Piece(c.name, f)];
  }

  lemma PreparePiece(link: seq<Out>, fragmenting: Option<Fragmenting>, p: Prepared, sent: seq<Fragment>, begun: multiset<Text>,
                     s: FragmentsState, f: Fragment, q: seq<Change>, now: int)
    requires PreparedOk(link, fragmenting, p, sent, begun) && From(q, p, now)
    requires Current(fragmenting, p).Some? && GeneratesSome(Current(fragmenting, p).value.state, s, f)
    ensures var cur := Current(fragmenting, p).value;
            var p1 := p.(state := Some(s), out := p.out + [Piece(cur.name, f)]);
            && PreparedOk(link, fragmenting, p1, sent + [f], begun) && From(q, p1, now)
            && Current(fragmenting, p1) == Some(cur.(state := s))
  {
    hide Balanced, GeneratesSome;
    var cur := Current(fragmenting, p).value;
    SendMore(link + p.out, cur, sent, begun, s, f);
    assert link + (p.out + [Piece(cur.name, f)]) == (link + p.out) + [Piece(cur.name, f)];
  }

  /** Of the first `n` changes all those are taken that are due and that the buffer takes
      whole; of the longer ones only such as are due, and none while one is in fragments. */
  predicate Chosen(q: seq<Change>, n: nat, pos: seq<nat>, fragmenting: Option<Fragmenting>, b: Buffer, now: int)
    requires n <= |q|
  {
    forall i | 0 <= i < n :: IsChosen(q[i], i in pos, fragmenting, b.forChange(q[i].name), now)
  }

  predicate IsChosen(c: Change, taken: bool, fragmenting: Option<Fragmenting>, sp: Space, now: int) {
    if |c.msg| <= sp.fragmentMax then taken <==> Due(c, fragmenting, now) && sp.fits
    else taken ==> Due(c, fragmenting, now) && sp.fits && sp.optimal > 0 && fragmenting.None?
  }

  lemma ChooseNext(q: seq<Change>, i: nat, pos: seq<nat>, fragmenting: Option<Fragmenting>, b: Buffer, now: int, taken: bool, busy: bool)
    requires i < |q| && Positions(pos, i) && Chosen(q, i, pos, fragmenting, b, now) && (fragmenting.Some? ==> busy)
    requires taken <==> Due(q[i], fragmenting, now) && !Refused(q[i], busy, b.forChange(q[i].name))
    ensures Chosen(q, i + 1, if taken then pos + [i] else pos, fragmenting, b, now)
  {
    hide Due;
  }

  /** The chosen elements have left the queue; the others are in their old order. */
  ghost predicate Leaves(q: seq<Change>, q1: seq<Change>, fragmenting: Option<Fragmenting>, b: Buffer, now: int) {
    exists pos: seq<nat> :: Positions(pos, |q|) && Chosen(q, |q|, pos, fragmenting, b, now) && q1 == Without(q, pos)
  }

  lemma ItLeaves(q: seq<Change>, pos: seq<nat>, fragmenting: Option<Fragmenting>, b: Buffer, now: int)
    requires Positions(pos, |q|) && Chosen(q, |q|, pos, fragmenting, b, now)
    ensures Leaves(q, Without(q, pos), fragmenting, b, now)
  {
  }

  /** What is sent whole was queued and due, and is not also sent in fragments. */
  predicate OnlyDue(out: seq<Out>, q: seq<Change>, fragmenting: Option<Fragmenting>, now: int) {
    && (forall i | 0 <= i < |out| && out[i].Plain? :: out[i].c in q && (out[i].c.blockUntil <= now || out[i].c.priority < 2))
    && (forall i | 0 <= i < |out| && out[i].Plain? && fragmenting.Some? :: out[i].c.name != fragmenting.value.name)
    && (forall i, j | 0 <= i < |out| && 0 <= j < |out| && out[i].Plain? && out[j].Piece? :: out[i].c.name != out[j].name)
  }

  predicate Due(c: Change, fragmenting: Option<Fragmenting>, now: int) {
    (c.blockUntil <= now || c.priority < 2) && (fragmenting.None? || fragmenting.value.name != c.name)
  }

  /** The buffer has no room for a change; `busy` while another one is sent in fragments. */
  predicate Refused(c: Change, busy: bool, sp: Space) {
    if |c.msg| > sp.fragmentMax then busy || sp.optimal == 0 || !CanGenerate(Fresh(c.msg), sp.optimal) || !sp.fits
    else !sp.fits
  }

  predicate PieceRefused(s: FragmentsState, sp: Space) {
    sp.optimal == 0 || !CanGenerate(s, sp.optimal) || !sp.fits
  }

  /** There was no room for any of the first `n` changes. */
  predicate NoneTaken(q: seq<Change>, n: nat, fragmenting: Option<Fragmenting>, b: Buffer, now: int)
    requires n <= |q|
  {
    forall i | 0 <= i < n && Due(q[i], fragmenting, now) :: Refused(q[i], fragmenting.Some?, b.forChange(q[i].name))
  }

  /** There was no room for anything that is due. */
  predicate NothingFits(his: seq<Change>, mine: seq<Change>, fragmenting: Option<Fragmenting>, b: Buffer, now: int) {
    && NoneTaken(his, |his|, fragmenting, b, now) && NoneTaken(mine, |mine|, fragmenting, b, now)
    && (fragmenting.Some? ==> PieceRefused(fragmenting.value.state, b.forPiece(0)))
  }

  class PartnerQueues {
    var mine: seq<Change>
    var his: seq<Change>
    var fragmenting: Option<Fragmenting>
    /** All that has left, the fragments of the current fragmentation that have, the texts
        that began to leave, and those that were ever queued. */
    ghost var link: seq<Out>
    ghost var sent: seq<Fragment>
    ghost var begun: multiset<Text>
    ghost var queued: multiset<Text>

    constructor ()
      ensures Valid() && mine == [] && his == [] && queued == multiset{}
    {
      mine, his, fragmenting := [], [], None;
      link, sent, begun, queued := [], [], multiset{}, multiset{};
      new;
      assert Items([]) == [];
    }

    /** Every text ever queued is still queued, or has left once: whole, or in fragments. */
    ghost predicate Valid()
      reads this
    {
      && UniqueNames(his + mine)
      && (fragmenting.Some? ==> !fragmenting.value.state.ended)
      && Balanced(link, fragmenting, sent, begun)
      && queued == begun + Texts(his) + Texts(mine)
    }

    method Enqueue(c: Change, isMine: bool)
      requires Valid() && !Named(his + mine, c.name)
      modifies this`his, this`mine, this`queued
      ensures Valid() && queued == old(queued) + multiset{c.msg}
      ensures if isMine then his == old(his) && mine == old(mine) + [c] else his == old(his) + [c] && mine == old(mine)
    {
      hide Balanced, UniqueNames, Named, Texts;
      OneMoreText(mine, c);
      OneMoreText(his, c);
      MoveIn(his, mine, c);
      if isMine {
        mine := mine + [c];
      } else {
        his := his + [c];
      }
      queued := queued + multiset{c.msg};
    }

    /** Puts a change into the message: whole, or its first fragment. */
    method AddMsg(c: Change, p: Prepared, sp: Space, ghost sent0: seq<Fragment>, ghost begun0: multiset<Text>)
      returns (ok: bool, p1: Prepared, ghost sent1: seq<Fragment>)
      requires PreparedOk(link, fragmenting, p, sent0, begun0)
      requires fragmenting.Some? ==> fragmenting.value.name != c.name
      requires p.started.Some? ==> p.started.value.name != c.name
      requires forall j | 0 <= j < |p.out| && p.out[j].Plain? :: p.out[j].c.name != c.name
      ensures ok <==> !Refused(c, fragmenting.Some? || p.started.Some?, sp)
      ensures !ok ==> p1 == p && sent1 == sent0
      ensures ok ==> PreparedOk(link, fragmenting, p1, sent1, begun0 + multiset{c.msg})
      ensures ok ==> exists o :: p1.out == p.out + [o] && (o.Plain? ==> o.c == c) && (o.Piece? <==> |c.msg| > sp.fragmentMax)
      ensures p1.started == p.started || (p1.started.Some? && p1.started.value.name == c.name)
      ensures p1.mine == p.mine && p1.his == p.his
    {
      hide PreparedOk, GeneratesSome, Generates;
      ok, p1, sent1 := false, p, sent0;
      if |c.msg| > sp.fragmentMax {
        if fragmenting.Some? || p.started.Some? { return; }
        if sp.optimal > 0 {
          var s, f := GenerateMessage(Fresh(c.msg), sp.optimal);
          if f.Some? && sp.fits {
            GeneratedSome(Fresh(c.msg), sp.optimal, s, f.value);
            PrepareFirst(link, fragmenting, p, sent0, begun0, c, s, f.value);
            p1 := p.(started := Some(Fragmenting(c.name, c.msg, s)), state := Some(s), out := p.out + [Piece(c.name, f.value)]);
            sent1 := [f.value];
            ok := true;
          }
        }
      } else {
        if sp.fits {
          PreparePlain(link, fragmenting, p, sent0, begun0, c);
          p1 := p.(out := p.out + [Plain(c)]);
          ok := true;
        }
      }
    }

    /** Goes through a queue and prepares what is due and not being sent in fragments. */
    method AddVariablesToSend(q: seq<Change>, now: int, b: Buffer, p: Prepared, ghost sent0: seq<Fragment>, ghost begun0: multiset<Text>,
                              ghost before: seq<Change>)
      returns (pos: seq<nat>, p1: Prepared, ghost sent1: seq<Fragment>, ghost begun1: multiset<Text>)
      requires PreparedOk(link, fragmenting, p, sent0, begun0) && From(before, p, now) && UniqueNames(before + q)
      ensures PreparedOk(link, fragmenting, p1, sent1, begun1) && From(before + q, p1, now)
      ensures Positions(pos, |q|) && begun1 + Texts(Without(q, pos)) == begun0 + Texts(q)
      ensures |p1.out| == |p.out| + |pos| && p1.mine == p.mine && p1.his == p.his
      ensures pos == [] ==> p1 == p && (p.started.None? ==> NoneTaken(q, |q|, fragmenting, b, now))
      ensures Chosen(q, |q|, pos, fragmenting, b, now)
    {
      pos, p1, sent1, begun1 := [], p, sent0, begun0;
      TextsStart(before, q);
      hide PreparedOk, Positions, Without, Texts, From, UniqueNames;
      for i := 0 to |q|
        invariant PreparedOk(link, fragmenting, p1, sent1, begun1) && From(before + q[..i], p1, now)
        invariant Positions(pos, |q[..i]|) && begun1 + Texts(Without(q[..i], pos)) == begun0 + Texts(q[..i])
        invariant |p1.out| == |p.out| + |pos| && p1.mine == p.mine && p1.his == p.his
        invariant pos == [] ==> p1 == p && (p.started.None? ==> NoneTaken(q, i, fragmenting, b, now))
        invariant Chosen(q, i, pos, fragmenting, b, now)
      {
        ghost var busy := fragmenting.Some? || p1.started.Some?;
        var ok;
        ok, p1, sent1 := Consider(q, i, now, b, p1, sent1, begun1, before);
        TextsStep(q, i, pos, ok);
        ChooseNext(q, i, pos, fragmenting, b, now, ok, busy);
        Shift(begun1, Texts(Without(q[..i], pos)), begun0, Texts(q[..i]), q[i].msg);
        if ok {
          pos := pos + [i];
          begun1 := begun1 + multiset{q[i].msg};
        }
      }
    }

    method Consider(q: seq<Change>, i: nat, now: int, b: Buffer, p: Prepared, ghost sent0: seq<Fragment>, ghost begun0: multiset<Text>,
                    ghost before: seq<Change>)
      returns (ok: bool, p1: Prepared, ghost sent1: seq<Fragment>)
      requires PreparedOk(link, fragmenting, p, sent0, begun0) && i < |q| && From(before + q[..i], p, now) && UniqueNames(before + q)
      ensures PreparedOk(link, fragmenting, p1, sent1, if ok then begun0 + multiset{q[i].msg} else begun0)
      ensures From(before + q[..i + 1], p1, now)
      ensures |p1.out| == (if ok then |p.out| + 1 else |p.out|) && p1.mine == p.mine && p1.his == p.his
      ensures ok <==> Due(q[i], fragmenting, now)
                      && !Refused(q[i], fragmenting.Some? || p.started.Some?, b.forChange(q[i].name))
      ensures !ok ==> p1 == p
    {
      hide PreparedOk, From, UniqueNames;
      ok, p1, sent1 := false, p, sent0;
      if Ready(q[i], now) && (fragmenting.None? || fragmenting.value.name != q[i].name) {
        FreshName(before, q, i, p1, now);
        ok, p1, sent1 := AddMsg(q[i], p1, b.forChange(q[i].name), sent1, begun0);
      }
      FromMore(before, q, i, p, p1, now);
    }

    /** Goes on with the fragmentation, by at most two fragments. */
    method GenerateFragments(p: Prepared, b: Buffer, ghost sent0: seq<Fragment>, ghost begun0: multiset<Text>, ghost q: seq<Change>, ghost now: int)
      returns (p1: Prepared, ghost sent1: seq<Fragment>)
      requires PreparedOk(link, fragmenting, p, sent0, begun0) && From(q, p, now)
      ensures PreparedOk(link, fragmenting, p1, sent1, begun0) && From(q, p1, now)
      ensures p1.mine == p.mine && p1.his == p.his && p1.started == p.started
      ensures |p.out| <= |p1.out| <= |p.out| + 2 && (p1.out == p.out ==> p1 == p) && (p1.out != p.out ==> p1.state.Some?)
      ensures Current(fragmenting, p).Some? ==>
                (p1 == p <==> PieceRefused(Current(fragmenting, p).value.state, b.forPiece(0)))
    {
      p1, sent1 := p, sent0;
      var current := Current(fragmenting, p);
      if current.None? { return; }
      var iterations := 0;
      while iterations <= 1
        invariant PreparedOk(link, fragmenting, p1, sent1, begun0) && From(q, p1, now)
        invariant current == Current(fragmenting, p1) && current.Some?
        invariant p1.mine == p.mine && p1.his == p.his && p1.started == p.started
        invariant |p1.out| == |p.out| + iterations && iterations <= 2 && (iterations == 0 ==> p1 == p) && (iterations > 0 ==> p1.state.Some?)
        invariant iterations > 0 ==> !PieceRefused(Current(fragmenting, p).value.state, b.forPiece(0))
      {
        var sp := b.forPiece(iterations);
        if sp.optimal == 0 { break; }
        var s, f := GenerateMessage(current.value.state, sp.optimal);
        if f.None? || !sp.fits { break; }
        p1, sent1 := AddPiece(p1, s, f.value, sent1, begun0, q, now);
        current := Current(fragmenting, p1);
        iterations := iterations + 1;
      }
    }

    /** Drops what was prepared from the queues, and takes over the fragmentation. */
    method CommitChanges(p: Prepared)
      requires Positions(p.mine, |mine|) && Positions(p.his, |his|)
      requires p.started.Some? ==> p.state.Some? && fragmenting.None?
      requires p.state.Some? ==> p.started.Some? || fragmenting.Some?
      modifies this`mine, this`his, this`fragmenting
      ensures mine == Without(old(mine), p.mine) && his == Without(old(his), p.his)
      ensures fragmenting == AfterCommit(old(fragmenting), p)
    {
      mine := EraseVariables(mine, p.mine);
      his := EraseVariables(his, p.his);
      CommitFragments(p);
    }

    method CommitFragments(p: Prepared)
      requires p.started.Some? ==> p.state.Some? && fragmenting.None?
      requires p.state.Some? ==> p.started.Some? || fragmenting.Some?
      modifies this`fragmenting
      ensures fragmenting == AfterCommit(old(fragmenting), p)
    {
      if p.started.Some? {
        assert fragmenting.None?;
        fragmenting := p.started;
      }
      if p.state.Some? {
        fragmenting := Some(fragmenting.value.(state := p.state.value));
        if fragmenting.value.state.ended { fragmenting := None; }
      }
    }

    /** The main operation. Either a message leaves: the changes in it are gone from the
        queues, which otherwise stay in order, and no variable is in it both whole and in
        fragments; or nothing has happened, however often it was tried. */
    method GenerateDataToSend(now: int, buffers: nat -> Buffer, fuel: nat) returns (outcome: Outcome)
      requires Valid()
      modifies this
      ensures Valid() && queued == old(queued)
      ensures !outcome.Sent? ==> mine == old(mine) && his == old(his) && fragmenting == old(fragmenting) && link == old(link)
      ensures outcome.Sent? ==> outcome.out != [] && link == old(link) + outcome.out
      ensures outcome.Sent? ==> exists t: nat :: (t < fuel && buffers(t).finishes
                && Leaves(old(mine), mine, old(fragmenting), buffers(t), now) && Leaves(old(his), his, old(fragmenting), buffers(t), now))
      ensures outcome.Sent? ==> OnlyDue(outcome.out, old(his + mine), old(fragmenting), now)
      ensures outcome.NothingToSend? ==> exists t: nat :: t < fuel && NothingFits(his, mine, fragmenting, buffers(t), now)
      ensures outcome.OutOfFuel? ==> forall t: nat | t < fuel :: !buffers(t).finishes
    {
      hide OnlyDue, Leaves, NothingFits;
      var tries := 0;
      while tries < fuel
        invariant forall t: nat | t < tries :: !buffers(t).finishes
        invariant Valid() && queued == old(queued)
        invariant mine == old(mine) && his == old(his) && fragmenting == old(fragmenting) && link == old(link)
      {
        var again;
        outcome, again := TryOnce(now, buffers(tries));
        if !again { return; }
        tries := tries + 1;
      }
      outcome := OutOfFuel;
    }

    /** One attempt; `again` if there was too much for a message. */
    method TryOnce(now: int, b: Buffer) returns (outcome: Outcome, again: bool)
      requires Valid()
      modifies this
      ensures Valid() && queued == old(queued) && outcome != OutOfFuel
      ensures again ==> !outcome.Sent? && !b.finishes
      ensures outcome.NothingToSend? && !again ==> NothingFits(his, mine, fragmenting, b, now)
      ensures !outcome.Sent? ==> mine == old(mine) && his == old(his) && fragmenting == old(fragmenting) && link == old(link)
      ensures outcome.Sent? ==> outcome.out != [] && link == old(link) + outcome.out
      ensures outcome.Sent? ==> b.finishes && Leaves(old(mine), mine, old(fragmenting), b, now)
      ensures outcome.Sent? ==> Leaves(old(his), his, old(fragmenting), b, now)
      ensures outcome.Sent? ==> OnlyDue(outcome.out, old(his + mine), old(fragmenting), now)
    {
      hide Without, Texts, Positions, Balanced, UniqueNames, PreparedOk, AfterCommit, OnlyDue, Leaves, HasChanges, NothingFits, Chosen;
      var p;
      ghost var sent1, begun1;
      p, sent1, begun1 := Prepare(now, b);
      if !HasChanges(p) { return NothingToSend, false; }
      if !b.finishes { return NothingToSend, true; }
      CommitOk(link, fragmenting, p, sent1, begun1);
      RemainUnique(his, p.his, mine, p.mine);
      ItLeaves(his, p.his, fragmenting, b, now);
      ItLeaves(mine, p.mine, fragmenting, b, now);
      CommitChanges(p);
      link, sent, begun := link + p.out, sent1, begun1;
      outcome, again := Sent(p.out), false;
    }

    /** The queues first, the fragments last. */
    method Prepare(now: int, b: Buffer) returns (p: Prepared, ghost sent1: seq<Fragment>, ghost begun1: multiset<Text>)
      requires Valid()
      ensures PreparedOk(link, fragmenting, p, sent1, begun1)
      ensures Positions(p.mine, |mine|) && Positions(p.his, |his|)
      ensures Chosen(mine, |mine|, p.mine, fragmenting, b, now) && Chosen(his, |his|, p.his, fragmenting, b, now)
      ensures begun1 + Texts(Without(his, p.his)) + Texts(Without(mine, p.mine)) == queued
      ensures HasChanges(p) <==> p.out != []
      ensures OnlyDue(p.out, his + mine, fragmenting, now)
      ensures !HasChanges(p) ==> NothingFits(his, mine, fragmenting, b, now)
    {
      hide PreparedOk, Balanced, Texts, Without, Positions, From, UniqueNames, OnlyDue, NoneTaken, PieceRefused, Chosen;
      var p1;
      ghost var sent2;
      p1, sent2, begun1 := PrepareQueues(now, b);
      p, sent1 := GenerateFragments(p1, b, sent2, begun1, his + mine, now);
      SamePrepared(link, fragmenting, p, p, sent1, begun1, his + mine, now);
    }

    /** His variables first, then mine. */
    method PrepareQueues(now: int, b: Buffer) returns (p: Prepared, ghost sent1: seq<Fragment>, ghost begun1: multiset<Text>)
      requires Valid()
      ensures PreparedOk(link, fragmenting, p, sent1, begun1) && From(his + mine, p, now)
      ensures Positions(p.mine, |mine|) && Positions(p.his, |his|)
      ensures Chosen(mine, |mine|, p.mine, fragmenting, b, now) && Chosen(his, |his|, p.his, fragmenting, b, now)
      ensures begun1 + Texts(Without(his, p.his)) + Texts(Without(mine, p.mine)) == queued
      ensures |p.out| == |p.his| + |p.mine|
      ensures p.his == [] && p.mine == [] ==>
                p == NothingPrepared && NoneTaken(his, |his|, fragmenting, b, now) && NoneTaken(mine, |mine|, fragmenting, b, now)
    {
      NothingPreparedOk(link, fragmenting, sent, begun, now);
      HisUnique(his, mine);
      hide PreparedOk, Balanced, Texts, Without, Positions, From, UniqueNames, NoneTaken, Apart, Current, AfterCommit, Chosen;
      var pos, p1;
      ghost var sent2, begun2;
      pos, p1, sent2, begun2 := AddVariablesToSend(his, now, b, NothingPrepared, sent, begun, []);
      var pos1, p2;
      pos1, p2, sent1, begun1 := AddVariablesToSend(mine, now, b, p1, sent2, begun2, his);
      p := p2.(his := pos, mine := pos1);
      QueuesPrepared(link, fragmenting, p2, p, sent1, begun, begun2, begun1, his, mine, now);
    }

    method AddPiece(p: Prepared, s: FragmentsState, f: Fragment, ghost sent0: seq<Fragment>, ghost begun0: multiset<Text>,
                    ghost q: seq<Change>, ghost now: int)
      returns (p1: Prepared, ghost sent1: seq<Fragment>)
      requires PreparedOk(link, fragmenting, p, sent0, begun0) && From(q, p, now)
      requires Current(fragmenting, p).Some? && GeneratesSome(Current(fragmenting, p).value.state, s, f)
      ensures PreparedOk(link, fragmenting, p1, sent1, begun0) && From(q, p1, now)
      ensures p1.mine == p.mine && p1.his == p.his && p1.started == p.started && p1.state.Some?
      ensures |p1.out| == |p.out| + 1 && Current(fragmenting, p1).Some?
    {
      hide PreparedOk, From, GeneratesSome;
      PreparePiece(link, fragmenting, p, sent0, begun0, s, f, q, now);
      p1 := p.(state := Some(s), out := p.out + [Piece(Current(fragmenting, p).value.name, f)]);
      sent1 := sent0 + [f];
    }
  }

  lemma QueuesPrepared(link: seq<Out>, fragmenting: Option<Fragmenting>, p2: Prepared, p: Prepared, sent1: seq<Fragment>,
                       begun: multiset<Text>, begun2: multiset<Text>, begun1: multiset<Text>, his: seq<Change>, mine: seq<Change>, now: int)
    requires PreparedOk(link, fragmenting, p2, sent1, begun1) && From(his + mine, p2, now) && p == p2.(mine := p.mine, his := p.his)
    requires begun2 + Texts(Without(his, p.his)) == begun + Texts(his)
    requires begun1 + Texts(Without(mine, p.mine)) == begun2 + Texts(mine)
    ensures PreparedOk(link, fragmenting, p, sent1, begun1) && From(his + mine, p, now)
    ensures begun1 + Texts(Without(his, p.his)) + Texts(Without(mine, p.mine)) == begun + Texts(his) + Texts(mine)
  {
    hide *;
    TwoQueues(begun, Texts(his), Texts(mine), begun2, Texts(Without(his, p.his)), begun1, Texts(Without(mine, p.mine)));
    SamePrepared(link, fragmenting, p2, p, sent1, begun1, his + mine, now);
  }

  lemma NothingPreparedOk(link: seq<Out>, fragmenting: Option<Fragmenting>, sent: seq<Fragment>, begun: multiset<Text>, now: int)
    requires Balanced(link, fragmenting, sent, begun)
    ensures PreparedOk(link, fragmenting, NothingPrepared, sent, begun) && From([], NothingPrepared, now)
  {
    assert link + [] == link;
  }

  lemma HisUnique(his: seq<Change>, mine: seq<Change>)
    requires UniqueNames(his + mine)
    ensures UniqueNames([] + his) && [] + his == his
  {
    assert forall k | 0 <= k < |his| :: (his + mine)[k] == ([] + his)[k];
  }

  /** The positions say nothing about the message. */
  lemma SamePrepared(link: seq<Out>, fragmenting: Option<Fragmenting>, p: Prepared, p1: Prepared, sent: seq<Fragment>,
                     begun: multiset<Text>, q: seq<Change>, now: int)
    requires PreparedOk(link, fragmenting, p, sent, begun) && From(q, p, now) && p1 == p.(mine := p1.mine, his := p1.his)
    ensures PreparedOk(link, fragmenting, p1, sent, begun) && From(q, p1, now) && OnlyDue(p1.out, q, fragmenting, now)
    ensures p1.started.Some? || p1.state.Some? ==> p1.out != []
  {
    hide Balanced;
  }

  lemma {:induction false} WithoutUnique(q: seq<Change>, pos: seq<nat>)
    requires UniqueNames(q)
    ensures UniqueNames(Without(q, pos)) && forall c | c in Without(q, pos) :: c in q
  {
    if q != [] {
      var last := |q| - 1;
      WithoutUnique(q[..last], pos);
      var w := Without(q[..last], pos);
      forall k | 0 <= k < |w| ensures w[k].name != q[last].name {
        assert w[k] in w && w[k] in q[..last];
        var j :| 0 <= j < last && q[..last][j] == w[k];
      }
    }
  }

  lemma RemainUnique(his: seq<Change>, hp: seq<nat>, mine: seq<Change>, mp: seq<nat>)
    requires UniqueNames(his + mine)
    ensures UniqueNames(Without(his, hp) + Without(mine, mp))
  {
    var all := his + mine;
    assert forall k | 0 <= k < |his| :: all[k] == his[k];
    assert forall k | 0 <= k < |mine| :: all[|his| + k] == mine[k];
    WithoutUnique(his, hp);
    WithoutUnique(mine, mp);
    var w, v := Without(his, hp), Without(mine, mp);
    hide Without;
    forall j, k | 0 <= j < |w| && 0 <= k < |v| ensures w[j].name != v[k].name {
      assert w[j] in his && v[k] in mine;
      var i :| 0 <= i < |his| && his[i] == w[j];
      var l :| 0 <= l < |mine| && mine[l] == v[k];
      assert all[i] == his[i] && all[|his| + l] == mine[l];
    }
  }

  function AfterCommit(fragmenting: Option<Fragmenting>, p: Prepared): Option<Fragmenting> {
    var cur := Current(fragmenting, p);
    if p.state.Some? && cur.Some? && cur.value.state.ended then None else cur
  }

  lemma CommitOk(link: seq<Out>, fragmenting: Option<Fragmenting>, p: Prepared, sent: seq<Fragment>, begun: multiset<Text>)
    requires PreparedOk(link, fragmenting, p, sent, begun) && (fragmenting.Some? ==> !fragmenting.value.state.ended)
    ensures p.started.Some? ==> p.state.Some? && fragmenting.None?
    ensures p.state.Some? ==> p.started.Some? || fragmenting.Some?
    ensures var cur := AfterCommit(fragmenting, p);
            Balanced(link + p.out, cur, sent, begun) && (cur.Some? ==> !cur.value.state.ended)
  {
    var cur := Current(fragmenting, p);
    if cur.Some? && cur.value.state.ended { DropEnded(link + p.out, cur, sent, begun); }
    hide Balanced;
  }

  lemma DropEnded(link: seq<Out>, cur: Option<Fragmenting>, sent: seq<Fragment>, begun: multiset<Text>)
    requires Balanced(link, cur, sent, begun) && cur.Some? && cur.value.state.ended
    ensures Balanced(link, None, sent, begun)
  {
  }

  lemma TwoQueues(b: multiset<Text>, h: multiset<Text>, m: multiset<Text>, b2: multiset<Text>, h2: multiset<Text>,
                  b3: multiset<Text>, m3: multiset<Text>)
    requires b2 + h2 == b + h && b3 + m3 == b2 + m
    ensures b3 + h2 + m3 == b + h + m
  {
    assert b3 + h2 + m3 == (b3 + m3) + h2 == (b2 + m) + h2 == (b2 + h2) + m;
  }

  lemma Shift(b: multiset<Text>, w: multiset<Text>, b0: multiset<Text>, t: multiset<Text>, m: Text)
    requires b + w == b0 + t
    ensures (b + multiset{m}) + w == b0 + (t + multiset{m})
    ensures b + (w + multiset{m}) == b0 + (t + multiset{m})
  {
    assert (b + multiset{m}) + w == (b + w) + multiset{m};
    assert b + (w + multiset{m}) == (b + w) + multiset{m};
    assert b0 + (t + multiset{m}) == (b0 + t) + multiset{m};
  }

  lemma OneMoreText(q: seq<Change>, c: Change)
    ensures Texts(q + [c]) == Texts(q) + multiset{c.msg}
  {
    assert (q + [c])[..|q|] == q;
  }

  lemma MoveIn(his: seq<Change>, mine: seq<Change>, c: Change)
    requires UniqueNames(his + mine) && !Named(his + mine, c.name)
    ensures UniqueNames((his + [c]) + mine) && UniqueNames(his + (mine + [c]))
  {
    var all, more := his + mine, (his + [c]) + mine;
    forall j, k | 0 <= j < k < |more| ensures more[j].name != more[k].name {
      var j1, k1 := if j > |his| then j - 1 else j, if k > |his| then k - 1 else k;
      assert j != |his| ==> more[j] == all[j1];
      assert k != |his| ==> more[k] == all[k1];
    }
    assert his + (mine + [c]) == all + [c];
  }
}
