/** A message that is too long for the link is sent in fragments. Fragments are generated
    from a copy of the sending state, which is committed only once they have left; the
    receiver puts them together again. */
module Fragments {
  import opened Basics
  import opened Escape

  datatype Kind = NEW | ADD | END

  /** `body` is escaped. */
  datatype Fragment = Fragment(kind: Kind, body: Text)

  const HEADER_SIZE: nat := 10

  function KindText(k: Kind): (t: Text)
    ensures |t| == 7
  {
    [70, 82, 71, 95] +
    match k
    case NEW => [78, 69, 87]
    case ADD => [65, 68, 68]
    case END => [69, 78, 68]
  }

  function Quoted(body: Text): Text { [QUOTE] + body + [QUOTE] }

  function Render(f: Fragment): Text { KindText(f.kind) + [44] + Quoted(f.body) }

  datatype FragmentsState = FragmentsState(remaining: Text, count: nat, inited: bool, ended: bool)

  function Fresh(message: Text): FragmentsState { FragmentsState(message, 0, false, false) }

  /** The state after a fragment with the next `k` units. */
  function Advanced(s: FragmentsState, k: nat): FragmentsState
    requires k <= |s.remaining|
  {
    FragmentsState(s.remaining[k..], s.count + 1, true, s.ended || (s.inited && s.remaining[k..] == []))
  }

  function NextKind(s: FragmentsState, k: nat): Kind
    requires k <= |s.remaining|
  {
    if !s.inited then NEW else if s.remaining[k..] == [] then END else ADD
  }

  /** The fragment takes the next `k` units. */
  predicate Takes(s: FragmentsState, k: nat, s1: FragmentsState, f: Fragment) {
    && k <= |s.remaining| && (k > 0 || s.remaining == []) && !s.ended
    && s1 == Advanced(s, k) && f == Fragment(NextKind(s, k), EscapeAll(s.remaining[..k]))
  }

  /** It takes as many as fit into `maxSize`, and at least one if any is left. */
  ghost predicate Generates(s: FragmentsState, maxSize: nat, s1: FragmentsState, f: Fragment) {
    maxSize > HEADER_SIZE && exists k: nat :: FitsMost(s.remaining, maxSize - HEADER_SIZE, k) && Takes(s, k, s1, f)
  }

  ghost predicate GeneratesSome(s: FragmentsState, s1: FragmentsState, f: Fragment) {
    exists maxSize: nat :: Generates(s, maxSize, s1, f)
  }

  /** A fragment comes out exactly when there is one to come, the header fits, and so does
      the next unit in its escaped form. */
  predicate CanGenerate(s: FragmentsState, maxSize: nat) {
    !s.ended && maxSize > HEADER_SIZE && (s.remaining == [] || Width(s.remaining[0]) < maxSize - HEADER_SIZE)
  }

  method GenerateMessage(s0: FragmentsState, maxSize: nat) returns (s: FragmentsState, f: Option<Fragment>)
    ensures f.Some? ==> Generates(s0, maxSize, s, f.value)
    ensures f.None? ==> s == s0
    ensures f.Some? <==> CanGenerate(s0, maxSize)
  {
    s, f := s0, None;
    if s.ended { return; }
    if maxSize <= HEADER_SIZE { return; }
    var body, rest := EscapeSpecialCharsAndAdvance(s.remaining, maxSize - HEADER_SIZE);
    ghost var k: nat :| FitsMost(s0.remaining, maxSize - HEADER_SIZE, k) && body == EscapeAll(s0.remaining[..k]) && rest == s0.remaining[k..];
    FitsSome(s0.remaining, maxSize - HEADER_SIZE, k);
    hide FitsMost, EscapeAll, Generates;
    if body == [] && s.remaining != [] { return; }
    assert k <= |s0.remaining| && (k > 0 || s0.remaining == []) && CanGenerate(s0, maxSize);
    hide Width, CanGenerate;
    s := s.(remaining := rest);
    var kind := if s.inited then ADD else NEW;
    if s.inited && s.remaining == [] {
      s := s.(ended := true);
      kind := END;
    }
    s := s.(inited := true, count := s.count + 1);
    f := Some(Fragment(kind, body));
    MakeGenerates(s0, maxSize, k, s, f.value);
  }

  lemma MakeGenerates(s: FragmentsState, maxSize: nat, k: nat, s1: FragmentsState, f: Fragment)
    requires maxSize > HEADER_SIZE && FitsMost(s.remaining, maxSize - HEADER_SIZE, k) && Takes(s, k, s1, f)
    ensures Generates(s, maxSize, s1, f)
  {
  }

  lemma FitsSome(s: Text, limit: nat, k: nat)
    requires FitsMost(s, limit, k)
    ensures EscapeAll(s[..k]) == [] <==> k == 0
    ensures s != [] ==> (k > 0 <==> Width(s[0]) < limit)
  {
    EscapeLonger(s, 0, k);
    if k > 0 { FitsFewer(s, limit, 0, k); }
  }

  /** Every fragment is below its limit. */
  lemma FragmentFits(s: FragmentsState, maxSize: nat, s1: FragmentsState, f: Fragment)
    requires Generates(s, maxSize, s1, f)
    ensures |Render(f)| < maxSize
  {
  }

  // ----- the sender -----

  class FragmentsToSend {
    const variableName: string
    const message: Text
    var state: FragmentsState
    /** All fragments committed so far. */
    ghost var sent: seq<Fragment>

    constructor (variableName: string, message: Text)
      ensures Valid() && this.variableName == variableName && this.message == message
      ensures state == Fresh(message) && sent == []
    {
      this.variableName, this.message := variableName, message;
      state := Fresh(message);
      sent := [];
    }

    ghost predicate Valid()
      reads this
    {
      Progress(message, sent, state)
    }

    /** A copy of the state on which fragments were generated takes its place. */
    method Commit(uncommitted: FragmentsState, ghost frags: seq<Fragment>)
      requires Valid() && Progress(message, sent + frags, uncommitted)
      modifies this
      ensures Valid() && state == uncommitted && sent == old(sent) + frags
    {
      state := uncommitted;
      sent := sent + frags;
    }

    method IsCompleted() returns (completed: bool)
      requires Valid()
      ensures completed == state.ended
    {
      completed := state.ended;
    }
  }

  // ----- the receiver -----

  /** What comes over the link: fragments and other commands. */
  datatype Item = Frag(f: Fragment) | Other(text: Text)

  /** A command gets processed: as it came, or put together from fragments. */
  datatype Done = Direct(text: Text) | Whole(text: Text)

  /** One fragment: what is received so far, and the message if it is complete now. */
  function ProcessFRG(received: Option<Text>, item: Text, kind: Kind): (Option<Text>, seq<Done>) {
    var received1 := if kind == NEW then Some([]) else received;
    if received1.None? then (received1, [])
    else
      match InterpretFirstString(item)
      case None => (received1, [])
      case Some((text, _)) =>
        if kind == END then (None, [Whole(received1.value + text)])
        else (Some(received1.value + text), [])
  }

  function Receive(received: Option<Text>, items: seq<Item>): (Option<Text>, seq<Done>)
    decreases |items|
  {
    if items == [] then (received, [])
    else
      var (before, done) := Receive(received, items[..|items| - 1]);
      match items[|items| - 1]
      case Other(text) => (before, done + [Direct(text)])
      case Frag(f) => var (r, d) := ProcessFRG(before, Quoted(f.body), f.kind); (r, done + d)
  }

  function Frags(items: seq<Item>): seq<Fragment> {
    if items == [] then [] else
      Frags(items[..|items| - 1]) + if items[|items| - 1].Frag? then [items[|items| - 1].f] else []
  }

  function Others(items: seq<Item>): seq<Text> {
    if items == [] then [] else
      Others(items[..|items| - 1]) + if items[|items| - 1].Other? then [items[|items| - 1].text] else []
  }

  function Wholes(done: seq<Done>): seq<Text> {
    if done == [] then [] else
      Wholes(done[..|done| - 1]) + if done[|done| - 1].Whole? then [done[|done| - 1].text] else []
  }

  function Directs(done: seq<Done>): seq<Text> {
    if done == [] then [] else
      Directs(done[..|done| - 1]) + if done[|done| - 1].Direct? then [done[|done| - 1].text] else []
  }

  // ----- the message in the making -----

  function Reassembled(received: Option<Text>, frags: seq<Fragment>): (Option<Text>, seq<Done>)
    decreases |frags|
  {
    if frags == [] then (received, []) else
      var (before, done) := Reassembled(received, frags[..|frags| - 1]);
      var last := frags[|frags| - 1];
      var (r, d) := ProcessFRG(before, Quoted(last.body), last.kind);
      (r, done + d)
  }

  predicate WellOrdered(frags: seq<Fragment>, ended: bool) {
    && (forall i | 0 <= i < |frags| :: frags[i].kind == NEW <==> i == 0)
    && (forall i | 0 <= i < |frags| :: frags[i].kind == END <==> ended && i == |frags| - 1)
  }

  /** What was generated is in order, and accounts for what is no longer `remaining`. */
  ghost predicate Counted(message: Text, sent: seq<Fragment>, s: FragmentsState) {
    && |s.remaining| <= |message| && message == message[..|message| - |s.remaining|] + s.remaining
    && (s.inited <==> sent != []) && (!s.inited ==> s.remaining == message)
    && (s.ended ==> s.remaining == [] && |sent| >= 2) && s.count == |sent|
    && WellOrdered(sent, s.ended)
    && |sent| <= |message| - |s.remaining| + (if s.inited then 1 else 0) + (if s.ended then 1 else 0)
  }

  /** What a receiver makes of the fragments sent so far, having received `r` before. */
  function Expected(message: Text, s: FragmentsState, r: Option<Text>): (Option<Text>, seq<Done>)
    requires |s.remaining| <= |message|
  {
    if !s.inited then (r, [])
    else if s.ended then (None, [Whole(message)])
    else (Some(message[..|message| - |s.remaining|]), [])
  }

  /** The fragments `sent` carry exactly what is no longer `remaining`. */
  ghost predicate Progress(message: Text, sent: seq<Fragment>, s: FragmentsState) {
    Counted(message, sent, s) && forall r :: Reassembled(r, sent) == Expected(message, s, r)
  }

  lemma QuotedReads(s: Text)
    ensures InterpretFirstString(Quoted(EscapeAll(s))) == Some((s, []))
  {
    assert Quoted(EscapeAll(s))[1..] == EscapeAll(s) + [QUOTE] + [];
    UnescapeEscaped(s, []);
  }

  lemma CountedStep(message: Text, sent: seq<Fragment>, s: FragmentsState, k: nat, s1: FragmentsState, f: Fragment)
    requires Counted(message, sent, s) && Takes(s, k, s1, f)
    ensures Counted(message, sent + [f], s1)
  {
    hide EscapeAll;
    var done := |message| - |s.remaining|;
    assert message[..done + k] + s.remaining[k..] == message;
  }

  /** A fragment whose text is known. */
  function Put(received: Option<Text>, text: Text, kind: Kind): (Option<Text>, seq<Done>) {
    var received1 := if kind == NEW then Some([]) else received;
    if received1.None? then (received1, [])
    else if kind == END then (None, [Whole(received1.value + text)])
    else (Some(received1.value + text), [])
  }

  lemma ProcessReads(r: Option<Text>, piece: Text, kind: Kind)
    ensures ProcessFRG(r, Quoted(EscapeAll(piece)), kind) == Put(r, piece, kind)
  {
    QuotedReads(piece);
    hide InterpretFirstString, EscapeAll;
  }

  /** The receiver takes one more fragment. */
  lemma ExpectedStep(message: Text, sent: seq<Fragment>, s: FragmentsState, k: nat, s1: FragmentsState, f: Fragment, r: Option<Text>)
    requires Counted(message, sent, s) && Takes(s, k, s1, f)
    ensures Expected(message, s, r).1 == []
    ensures ProcessFRG(Expected(message, s, r).0, Quoted(f.body), f.kind) == Expected(message, s1, r)
  {
    ProcessReads(Expected(message, s, r).0, s.remaining[..k], f.kind);
    TextStep(message, s.remaining, k);
    var text, text1 := message[..|message| - |s.remaining|], message[..|message| - |s1.remaining|];
    var piece := s.remaining[..k];
    assert text + piece == text1;
    assert !s.inited ==> [] + piece == text1;
    assert s1.remaining == [] ==> text1 == message;
    hide *;
    PutStep(message, s, s1, text, piece, text1, NextKind(s, k), r);
  }

  lemma PutStep(message: Text, s: FragmentsState, s1: FragmentsState, text: Text, piece: Text, text1: Text, kind: Kind, r: Option<Text>)
    requires |s.remaining| <= |message| && |s1.remaining| <= |message| && !s.ended
    requires text == message[..|message| - |s.remaining|] && text1 == message[..|message| - |s1.remaining|]
    requires text + piece == text1 && (!s.inited ==> [] + piece == text1) && (s1.remaining == [] ==> text1 == message)
    requires s1.inited && s1.ended == (s.inited && s1.remaining == [])
    requires kind == if !s.inited then NEW else if s1.remaining == [] then END else ADD
    ensures Expected(message, s, r).1 == []
    ensures Put(Expected(message, s, r).0, piece, kind) == Expected(message, s1, r)
  {
  }

  lemma TextStep(message: Text, remaining: Text, k: nat)
    requires |remaining| <= |message| && message == message[..|message| - |remaining|] + remaining && k <= |remaining|
    ensures var text := message[..|message| - |remaining|] + remaining[..k];
            text == message[..|message| - |remaining[k..]|] && (remaining[k..] == [] ==> text == message)
    ensures remaining == message ==> [] + remaining[..k] == message[..|message| - |remaining[k..]|]
  {
  }

  /** One more fragment. */
  lemma ProgressStep(message: Text, sent: seq<Fragment>, s: FragmentsState, s1: FragmentsState, f: Fragment)
    requires Progress(message, sent, s) && GeneratesSome(s, s1, f)
    ensures Progress(message, sent + [f], s1)
  {
    var maxSize: nat :| Generates(s, maxSize, s1, f);
    var k: nat :| FitsMost(s.remaining, maxSize - HEADER_SIZE, k) && Takes(s, k, s1, f);
    CountedStep(message, sent, s, k, s1, f);
    RebuiltStep(message, sent, s, k, s1, f);
  }

  lemma RebuiltStep(message: Text, sent: seq<Fragment>, s: FragmentsState, k: nat, s1: FragmentsState, f: Fragment)
    requires Progress(message, sent, s) && Takes(s, k, s1, f) && |s1.remaining| <= |message|
    ensures forall r :: Reassembled(r, sent + [f]) == Expected(message, s1, r)
  {
    assert (sent + [f])[..|sent|] == sent;
    hide Counted, Expected, ProcessFRG, Takes;
    forall r ensures Reassembled(r, sent + [f]) == Expected(message, s1, r) {
      ExpectedStep(message, sent, s, k, s1, f, r);
      var d := ProcessFRG(Reassembled(r, sent).0, Quoted(f.body), f.kind).1;
      assert [] + d == d;
    }
  }

  // ----- whole runs -----

  /** The committed state, a working copy, the fragments generated on it, and those sent. */
  datatype Sender = Sender(committed: FragmentsState, working: FragmentsState, batch: seq<Fragment>, sent: seq<Fragment>)

  function Begin(message: Text): Sender { Sender(Fresh(message), Fresh(message), [], []) }

  /** A fragment is generated on the working copy. */
  ghost predicate Adds(w: Sender, w1: Sender, f: Fragment) {
    GeneratesSome(w.working, w1.working, f) && w1 == w.(working := w1.working, batch := w.batch + [f])
  }

  /** A batch leaves when it is committed, or it is thrown away. */
  ghost predicate Follows(w: Sender, w1: Sender) {
    || (exists f :: Adds(w, w1, f))
    || w1 == Sender(w.working, w.working, [], w.sent + w.batch)
    || w1 == Sender(w.committed, w.committed, [], w.sent)
  }

  ghost predicate StepAt(ws: seq<Sender>, i: nat)
    requires 0 < i < |ws|
  {
    Follows(ws[i - 1], ws[i])
  }

  ghost predicate IsRun(message: Text, ws: seq<Sender>) {
    && |ws| > 0 && ws[0] == Begin(message)
    && forall i: nat | 0 < i < |ws| :: StepAt(ws, i)
  }

  ghost predicate Sound(message: Text, w: Sender) {
    Progress(message, w.sent, w.committed) && Progress(message, w.sent + w.batch, w.working)
  }

  lemma FollowsSound(message: Text, w: Sender, w1: Sender)
    requires Sound(message, w) && Follows(w, w1)
    ensures Sound(message, w1)
  {
    hide Progress, GeneratesSome;
    assert (w.sent + w.batch) + [] == w.sent + w.batch && w.sent + [] == w.sent;
    if f :| Adds(w, w1, f) {
      ProgressStep(message, w.sent + w.batch, w.working, w1.working, f);
      assert w.sent + (w.batch + [f]) == (w.sent + w.batch) + [f];
    }
  }

  lemma {:induction false} RunSound(message: Text, ws: seq<Sender>, k: nat)
    requires IsRun(message, ws) && k < |ws|
    ensures Sound(message, ws[k])
  {
    hide Progress;
    if k == 0 {
      NothingSent(message);
      assert ws[0].sent + ws[0].batch == [];
    } else {
      RunSound(message, ws, k - 1);
      assert StepAt(ws, k);
      FollowsSound(message, ws[k - 1], ws[k]);
    }
  }

  lemma NothingSent(message: Text)
    ensures Progress(message, [], Fresh(message))
  {
  }

  /** Other commands on the way do not disturb the fragments, nor they them. */
  lemma {:induction false} Interleaved(r: Option<Text>, items: seq<Item>)
    ensures Receive(r, items).0 == Reassembled(r, Frags(items)).0
    ensures Wholes(Receive(r, items).1) == Wholes(Reassembled(r, Frags(items)).1)
    ensures Directs(Receive(r, items).1) == Others(items)
    decreases |items|
  {
    if items != [] {
      hide ProcessFRG, Wholes, Directs;
      var before := items[..|items| - 1];
      Interleaved(r, before);
      var done := Receive(r, before).1;
      match items[|items| - 1]
      case Other(text) =>
        assert Frags(items) == Frags(before);
        AppendDone(done, [Direct(text)]);
        OneDone(Direct(text));
      case Frag(f) =>
        assert Frags(items)[..|Frags(items)| - 1] == Frags(before);
        FragDone(Receive(r, before).0, Quoted(f.body), f.kind);
        var d := ProcessFRG(Receive(r, before).0, Quoted(f.body), f.kind).1;
        AppendDone(done, d);
        AppendDone(Reassembled(r, Frags(before)).1, d);
    } else {
      assert Directs([]) == [];
    }
  }

  lemma FragDone(r: Option<Text>, item: Text, kind: Kind)
    ensures |ProcessFRG(r, item, kind).1| <= 1 && Directs(ProcessFRG(r, item, kind).1) == []
  {
  }

  lemma OneDone(d: Done)
    ensures Wholes([d]) == (if d.Whole? then [d.text] else []) && Directs([d]) == (if d.Direct? then [d.text] else [])
  {
    assert [d][..0] == [];
  }

  lemma AppendDone(done: seq<Done>, d: seq<Done>)
    requires |d| <= 1
    ensures Wholes(done + d) == Wholes(done) + Wholes(d) && Directs(done + d) == Directs(done) + Directs(d)
  {
    if d == [] {
      assert done + d == done;
    } else {
      assert (done + d)[..|done|] == done && d[..0] == [];
    }
  }

  /** The main result. Whatever the limits, whatever batches are thrown away, whatever other
      commands come in between and whatever was left of an earlier message: the receiver
      processes the message exactly once, when it was sent to the end, and not before. The
      fragments are NEW, ADDs and END, at least two, and no more than two above the length. */
  lemma Reassembles(message: Text, ws: seq<Sender>, k: nat, r: Option<Text>, items: seq<Item>)
    requires IsRun(message, ws) && k < |ws| && Frags(items) == ws[k].sent
    ensures var w := ws[k];
            && Wholes(Receive(r, items).1) == (if w.committed.ended then [message] else [])
            && Directs(Receive(r, items).1) == Others(items)
            && WellOrdered(w.sent, w.committed.ended) && |w.sent| <= |message| + 2
            && (w.committed.ended ==> |w.sent| >= 2 && Receive(r, items).0 == None)
  {
    RunSound(message, ws, k);
    Interleaved(r, items);
    hide IsRun, Receive;
    var w := ws[k];
    OneDone(Whole(message));
    assert Reassembled(r, w.sent).1 == if w.committed.ended then [Whole(message)] else [];
  }

  /** How far the sender is from the end. */
  function ToGo(s: FragmentsState): nat {
    |s.remaining| + (if s.inited then 0 else 1) + if s.ended then 0 else 1
  }

  /** Each fragment brings it closer. With five units for the body one always can be made,
      so the end is reached; and this is the least number for which that holds. */
  lemma GeneratingEnds(s: FragmentsState, maxSize: nat, s1: FragmentsState, f: Fragment)
    requires Generates(s, maxSize, s1, f) && (s.inited || !s.ended)
    ensures ToGo(s1) < ToGo(s)
  {
  }

  lemma EnoughRoom(maxSize: nat)
    ensures (forall s: FragmentsState | !s.ended :: CanGenerate(s, maxSize)) <==> maxSize >= HEADER_SIZE + 5
  {
    var s := Fresh([0]);
    assert !s.ended && Width(s.remaining[0]) == 4;
    if forall s: FragmentsState | !s.ended :: CanGenerate(s, maxSize) {
      assert CanGenerate(s, maxSize);
    }
  }
}
