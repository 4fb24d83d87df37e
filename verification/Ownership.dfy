/** Which of several holders of a variable the user sees. What is said here is said of one
    name: no operation on a name touches another, except that a leaving partner takes all
    of his names along. */
module Ownership {
  import opened Basics
  import opened VarChanges

  /** A partner's variable of the name: none, one the user may see, or one that collides. */
  datatype Slot = Absent | Free(v: Var) | Colliding(v: Var)

  /** My variable, those of the partners in their order, and what the user is to be told. */
  datatype Local = Local(mine: Option<Var>, slots: seq<Slot>, entry: Entry)

  predicate NoFree(slots: seq<Slot>) {
    forall k | 0 <= k < |slots| :: !slots[k].Free?
  }

  predicate AllAbsent(slots: seq<Slot>) {
    forall k | 0 <= k < |slots| :: slots[k].Absent?
  }

  predicate OneFreeAtMost(slots: seq<Slot>) {
    forall j, k | 0 <= j < k < |slots| :: !(slots[j].Free? && slots[k].Free?)
  }

  /** Exactly one holder is visible: I if I hold the name, otherwise one of the partners. */
  predicate Good(l: Local) {
    && (l.mine.Some? ==> NoFree(l.slots))
    && OneFreeAtMost(l.slots)
    && (l.mine.None? && !AllAbsent(l.slots) ==> !NoFree(l.slots))
  }

  /** The first free slot, or -1. */
  function FreeSlot(slots: seq<Slot>): (k: int)
    ensures -1 <= k < |slots|
    ensures if k < 0 then NoFree(slots) else slots[k].Free? && forall j | 0 <= j < k :: !slots[j].Free?
  {
    if slots == [] then -1 else
      var j := FreeSlot(slots[..|slots| - 1]);
      if j >= 0 then j else if slots[|slots| - 1].Free? then |slots| - 1 else -1
  }

  /** The last colliding slot, or -1. */
  function LastColliding(slots: seq<Slot>): (k: int)
    ensures -1 <= k < |slots|
    ensures if k < 0 then forall j | 0 <= j < |slots| :: !slots[j].Colliding?
            else slots[k].Colliding? && forall j | k < j < |slots| :: !slots[j].Colliding?
  {
    if slots == [] then -1
    else if slots[|slots| - 1].Colliding? then |slots| - 1
    else LastColliding(slots[..|slots| - 1])
  }

  function Visible(l: Local): Option<Var> {
    if l.mine.Some? then l.mine
    else if FreeSlot(l.slots) >= 0 then Some(l.slots[FreeSlot(l.slots)].v)
    else None
  }

  // ----- the operations -----

  function Marked(s: Slot): Slot {
    if s.Free? then Colliding(s.v) else s
  }

  function MarkAll(slots: seq<Slot>): (r: seq<Slot>)
    ensures |r| == |slots|
  {
    seq(|slots|, k requires 0 <= k < |slots| => Marked(slots[k]))
  }

  /** Nobody visible holds the name any more: the last colliding holder becomes visible. */
  function TryDefine(l: Local): Local {
    if l.mine.Some? || FreeSlot(l.slots) >= 0 || LastColliding(l.slots) < 0 then l
    else
      var k := LastColliding(l.slots);
      l.(slots := l.slots[k := Free(l.slots[k].v)], entry := FoldForeign(l.entry, l.slots[k].v, true))
  }

  /** I set my variable, which may be there already; it is told if `cb`. */
  function ChangeMine(l: Local, v: Var, cb: bool): Local {
    var redefined := l.mine.None? || !SameType(l.mine.value, v);
    Local(Some(if redefined then v else Plain(v)), l.slots,
          if !cb then FoldMine(l.entry, if redefined then Plain(v) else v)
          else FoldForeign(l.entry, if redefined then Plain(v) else v, redefined))
  }

  function DefineMine(l: Local, v: Var, cb: bool): Local {
    ChangeMine(l.(slots := MarkAll(l.slots), entry := if cb then Deleted else Nothing), v, cb)
  }

  function UndefineMine(l: Local, cb: bool): Local {
    if l.mine.None? then l
    else TryDefine(l.(mine := None, entry := if cb then Deleted else Nothing))
  }

  /** Somebody else is visible already. */
  predicate Collides(l: Local, i: nat) {
    l.mine.Some? || exists k | 0 <= k < |l.slots| && k != i :: l.slots[k].Free?
  }

  function Def(l: Local, i: nat, v: Var): Local
    requires i < |l.slots|
  {
    if Collides(l, i) then l.(slots := l.slots[i := Colliding(v)])
    else l.(slots := l.slots[i := if l.slots[i].Colliding? then Colliding(v) else Free(v)],
            entry := FoldForeign(l.entry, v, true))
  }

  function Undef(l: Local, i: nat): Local
    requires i < |l.slots|
  {
    if l.slots[i].Absent? then l
    else TryDefine(l.(slots := l.slots[i := Absent], entry := if l.slots[i].Free? then Deleted else l.entry))
  }

  /** A partner's variable gets a new value, if it is one. */
  function SetValue(l: Local, i: nat, v: Var): Local
    requires i < |l.slots|
  {
    match l.slots[i]
    case Absent => l
    case Free(_) => l.(slots := l.slots[i := Free(v)], entry := FoldForeign(l.entry, v, false))
    case Colliding(_) => l.(slots := l.slots[i := Colliding(v)])
  }

  /** A variable of a partner takes another value of its type, if it is writable. */
  predicate Accepts(his: Var, v: Var) {
    v.flags / 4 % 2 == 1 && SameType(his, v) && his.value != v.value
  }

  predicate TheirsAccept(l: Local, v: Var) {
    FreeSlot(l.slots) >= 0 && Accepts(l.slots[FreeSlot(l.slots)].v, v)
  }

  /** I change the visible partner's variable. */
  function ChangeTheirs(l: Local, v: Var, cb: bool): Local {
    var i := FreeSlot(l.slots);
    if !TheirsAccept(l, v) then l
    else l.(slots := l.slots[i := Free(Plain(v))],
            entry := if cb then FoldForeign(l.entry, v, false) else FoldMine(l.entry, v))
  }

  function Connect(l: Local): Local {
    l.(slots := l.slots + [Absent])
  }

  function Leave(l: Local, i: nat): Local
    requires i < |l.slots|
  {
    var l1 := l.(slots := l.slots[..i] + l.slots[i + 1..], entry := if l.slots[i].Free? then Deleted else l.entry);
    if l.slots[i].Absent? then l1 else TryDefine(l1)
  }

  // ----- what every operation keeps -----

  /** The pending changes turn what the user was shown into what is visible. */
  predicate Told(l: Local, shown: Option<Var>) {
    Same(Take(l.entry, shown), Visible(l))
  }

  lemma FreeIsVisible(l: Local, k: nat)
    requires l.mine.None? && OneFreeAtMost(l.slots) && k < |l.slots| && l.slots[k].Free?
    ensures Visible(l) == Some(l.slots[k].v)
  {
  }

  /** After a holder has gone: if he was visible the user is told that the name is gone. */
  lemma TryDefineKeeps(l: Local, shown: Option<Var>)
    requires OneFreeAtMost(l.slots) && (l.mine.Some? ==> NoFree(l.slots))
    requires Told(l, shown)
    ensures Good(TryDefine(l)) && Told(TryDefine(l), shown)
  {
    if l.mine.None? && FreeSlot(l.slots) < 0 && LastColliding(l.slots) >= 0 {
      FreeIsVisible(TryDefine(l), LastColliding(l.slots));
    }
  }

  lemma ChangeMineKeeps(l: Local, v: Var, cb: bool, shown: Option<Var>)
    requires NoFree(l.slots)
    ensures var l1 := ChangeMine(l, v, cb);
            Good(l1) && Told(l1, if cb then shown else Some(v))
  {
  }

  /** Variables loaded from the configuration are set without marking those of partners:
      there are none yet. */
  lemma LoadConfigKeeps(n: Name, config: VarMap)
    ensures var s := Configured(n, config);
            && Good(s.l) && Told(s.l, s.shown)
            && Visible(s.l) == (if n in config then Some(config[n]) else None)
            && s.shown == None
  {
    if n in config {
      ChangeMineKeeps(Local(None, [], Nothing), config[n], true, None);
    }
  }

  lemma DefineMineKeeps(l: Local, v: Var, cb: bool, shown: Option<Var>)
    requires Good(l)
    ensures Good(DefineMine(l, v, cb)) && Told(DefineMine(l, v, cb), if cb then shown else Some(v))
  {
    ChangeMineKeeps(l.(slots := MarkAll(l.slots), entry := if cb then Deleted else Nothing), v, cb, shown);
  }

  lemma UndefineMineKeeps(l: Local, cb: bool, shown: Option<Var>)
    requires Good(l) && Told(l, shown)
    ensures Good(UndefineMine(l, cb)) && Told(UndefineMine(l, cb), if cb || l.mine.None? then shown else None)
  {
    if l.mine.Some? {
      TryDefineKeeps(l.(mine := None, entry := if cb then Deleted else Nothing), if cb then shown else None);
    }
  }

  lemma DefKeeps(l: Local, i: nat, v: Var, shown: Option<Var>)
    requires i < |l.slots| && Good(l) && Told(l, shown)
    ensures Good(Def(l, i, v)) && Told(Def(l, i, v), shown)
    ensures !Collides(l, i) ==> Visible(Def(l, i, v)) == Some(v)
    ensures Collides(l, i) ==> Visible(Def(l, i, v)) == Visible(l)
  {
    var l1 := Def(l, i, v);
    if Collides(l, i) {
      if l.mine.None? {
        var k :| 0 <= k < |l.slots| && k != i && l.slots[k].Free?;
        assert l1.slots[k] == l.slots[k];
        FreeIsVisible(l, k);
        FreeIsVisible(l1, k);
      }
    } else {
      assert l1.slots[i] == Free(v);
      FreeIsVisible(l1, i);
    }
  }

  lemma UndefKeeps(l: Local, i: nat, shown: Option<Var>)
    requires i < |l.slots| && Good(l) && Told(l, shown)
    ensures Good(Undef(l, i)) && Told(Undef(l, i), shown)
  {
    if !l.slots[i].Absent? {
      var l1 := l.(slots := l.slots[i := Absent], entry := if l.slots[i].Free? then Deleted else l.entry);
      assert Told(l1, shown) by {
        if l.mine.None? && !l.slots[i].Free? {
          var k := FreeSlot(l.slots);
          assert l1.slots[k] == l.slots[k];
          FreeIsVisible(l, k);
          FreeIsVisible(l1, k);
        }
      }
      TryDefineKeeps(l1, shown);
    }
  }

  lemma SetValueKeeps(l: Local, i: nat, v: Var, shown: Option<Var>)
    requires i < |l.slots| && Good(l) && Told(l, shown)
    ensures Good(SetValue(l, i, v)) && Told(SetValue(l, i, v), shown)
    ensures l.slots[i].Colliding? ==> Visible(SetValue(l, i, v)) == Visible(l)
  {
    var l1 := SetValue(l, i, v);
    if l.slots[i].Free? {
      assert l1.slots[i] == Free(v);
      FreeIsVisible(l1, i);
    } else if l.mine.None? && l.slots[i].Colliding? {
      var k := FreeSlot(l.slots);
      assert l1.slots[k] == l.slots[k];
      FreeIsVisible(l1, k);
    }
  }

  lemma ChangeTheirsKeeps(l: Local, v: Var, cb: bool, shown: Option<Var>)
    requires Good(l) && Told(l, shown)
    ensures Good(ChangeTheirs(l, v, cb))
    ensures Told(ChangeTheirs(l, v, cb), if cb || !TheirsAccept(l, v) then shown else Some(v))
  {
    var i := FreeSlot(l.slots);
    if TheirsAccept(l, v) {
      assert ChangeTheirs(l, v, cb).slots[i] == Free(Plain(v));
      FreeIsVisible(ChangeTheirs(l, v, cb), i);
    }
  }

  lemma ConnectKeeps(l: Local, shown: Option<Var>)
    requires Good(l) && Told(l, shown)
    ensures Good(Connect(l)) && Told(Connect(l), shown)
  {
    var l1 := Connect(l);
    assert forall k | 0 <= k < |l.slots| :: l1.slots[k] == l.slots[k];
    if l.mine.None? && FreeSlot(l.slots) >= 0 {
      FreeIsVisible(l1, FreeSlot(l.slots));
    }
  }

  lemma LeaveKeeps(l: Local, i: nat, shown: Option<Var>)
    requires i < |l.slots| && Good(l) && Told(l, shown)
    ensures Good(Leave(l, i)) && Told(Leave(l, i), shown)
  {
    var l1 := l.(slots := l.slots[..i] + l.slots[i + 1..], entry := if l.slots[i].Free? then Deleted else l.entry);
    assert forall k | 0 <= k < |l1.slots| :: l1.slots[k] == l.slots[if k < i then k else k + 1];
    LeaveTold(l, i, l1, shown);
    TryDefineKeeps(l1, shown);
    if l.slots[i].Absent? && l.mine.None? && !AllAbsent(l1.slots) {
      assert !AllAbsent(l.slots);
      var k := FreeSlot(l.slots);
      assert l1.slots[if k < i then k else k - 1].Free?;
    }
  }

  lemma LeaveTold(l: Local, i: nat, l1: Local, shown: Option<Var>)
    requires i < |l.slots| && Good(l) && Told(l, shown)
    requires l1 == Local(l.mine, l1.slots, if l.slots[i].Free? then Deleted else l.entry) && |l1.slots| == |l.slots| - 1
    requires forall k | 0 <= k < |l1.slots| :: l1.slots[k] == l.slots[if k < i then k else k + 1]
    ensures OneFreeAtMost(l1.slots) && Told(l1, shown)
  {
    if l.mine.None? {
      var k := FreeSlot(l.slots);
      if l.slots[i].Free? {
        assert k == i;
      } else if k >= 0 {
        assert l1.slots[if k < i then k else k - 1] == l.slots[k];
        FreeIsVisible(l1, if k < i then k else k - 1);
      }
    }
  }

  // ----- whole runs, seen by one name -----

  /** What can happen; operations on other names do not concern this one. `Deliver` hands
      the pending changes to the user. */
  datatype Action =
    | ADefineMine(n: Name, v: Var, cb: bool)
    | AUndefineMine(n: Name, cb: bool)
    | AChangeMine(n: Name, v: Var, cb: bool)
    | AChangeTheirs(n: Name, v: Var, cb: bool)
    | ADef(n: Name, i: nat, v: Var)
    | AUndef(n: Name, i: nat)
    | ASetValue(n: Name, i: nat, v: Var)
    | AConnect
    | ALeave(i: nat)
    | ADeliver(matches: Name -> bool)

  datatype Seen = Seen(l: Local, shown: Option<Var>)

  function Next(s: Seen, n: Name, act: Action): Seen {
    var l := s.l;
    match act
    case ADefineMine(m, v, cb) =>
      if m != n then s else Seen(DefineMine(l, v, cb), if cb then s.shown else Some(v))
    case AUndefineMine(m, cb) =>
      if m != n || l.mine.None? then s else Seen(UndefineMine(l, cb), if cb then s.shown else None)
    case AChangeMine(m, v, cb) =>
      if m != n || l.mine.None? then s else Seen(ChangeMine(l, v, cb), if cb then s.shown else Some(v))
    case AChangeTheirs(m, v, cb) =>
      if m != n || l.mine.Some? || !TheirsAccept(l, v) then s
      else Seen(ChangeTheirs(l, v, cb), if cb then s.shown else Some(v))
    case ADef(m, i, v) => if m != n || i >= |l.slots| then s else s.(l := Def(l, i, v))
    case AUndef(m, i) => if m != n || i >= |l.slots| then s else s.(l := Undef(l, i))
    case ASetValue(m, i, v) => if m != n || i >= |l.slots| then s else s.(l := SetValue(l, i, v))
    case AConnect => s.(l := Connect(l))
    case ALeave(i) => if i >= |l.slots| then s else s.(l := Leave(l, i))
    case ADeliver(matches) =>
      if matches(n) then Seen(l.(entry := Nothing), Take(l.entry, s.shown)) else s
  }

  /** Before anybody connects I take over what the configuration defines. */
  function Configured(n: Name, config: VarMap): Seen {
    var l := Local(None, [], Nothing);
    Seen(if n in config then ChangeMine(l, config[n], true) else l, None)
  }

  function Run(n: Name, config: VarMap, acts: seq<Action>): Seen {
    if acts == [] then Configured(n, config)
    else Next(Run(n, config, acts[..|acts| - 1]), n, acts[|acts| - 1])
  }

  lemma NextKeeps(s: Seen, n: Name, act: Action)
    requires Good(s.l) && Told(s.l, s.shown)
    ensures var s1 := Next(s, n, act); Good(s1.l) && Told(s1.l, s1.shown)
  {
    hide Good, DefineMine, UndefineMine, ChangeMine, ChangeTheirs, Def, Undef, SetValue, Connect, Leave, Told;
    match act
    case ADefineMine(_, v, cb) => DefineMineKeeps(s.l, v, cb, s.shown);
    case AUndefineMine(_, cb) => UndefineMineKeeps(s.l, cb, s.shown);
    case AChangeMine(_, v, cb) =>
      if s.l.mine.Some? {
        MineAlone(s.l);
        ChangeMineKeeps(s.l, v, cb, s.shown);
      }
    case AChangeTheirs(_, v, cb) => ChangeTheirsKeeps(s.l, v, cb, s.shown);
    case ADef(_, i, v) => if i < |s.l.slots| { DefKeeps(s.l, i, v, s.shown); }
    case AUndef(_, i) => if i < |s.l.slots| { UndefKeeps(s.l, i, s.shown); }
    case ASetValue(_, i, v) => if i < |s.l.slots| { SetValueKeeps(s.l, i, v, s.shown); }
    case AConnect => ConnectKeeps(s.l, s.shown);
    case ALeave(i) => if i < |s.l.slots| { LeaveKeeps(s.l, i, s.shown); }
    case ADeliver(_) => DeliverKeeps(s.l, s.shown);
  }

  lemma MineAlone(l: Local)
    requires Good(l) && l.mine.Some?
    ensures NoFree(l.slots)
  {
  }

  lemma DeliverKeeps(l: Local, shown: Option<Var>)
    requires Good(l) && Told(l, shown)
    ensures Good(l.(entry := Nothing)) && Told(l.(entry := Nothing), Take(l.entry, shown))
  {
  }

  /** The main result, for every name, configuration and run: a name I own is marked colliding at
      every partner holding it; a name I do not own but some partner holds has exactly one
      holder not marked; and what was shown, with the pending change, is what is visible. */
  lemma {:induction false} ExactlyOneVisible(n: Name, config: VarMap, acts: seq<Action>)
    ensures var s := Run(n, config, acts);
            && (s.l.mine.Some? ==> forall k | 0 <= k < |s.l.slots| :: s.l.slots[k].Absent? || s.l.slots[k].Colliding?)
            && (s.l.mine.None? && (exists k | 0 <= k < |s.l.slots| :: !s.l.slots[k].Absent?) ==>
                  exists k | 0 <= k < |s.l.slots| :: s.l.slots[k].Free? && Visible(s.l) == Some(s.l.slots[k].v)
                    && forall j | 0 <= j < |s.l.slots| && j != k :: !s.l.slots[j].Free?)
            && Same(Take(s.l.entry, s.shown), Visible(s.l))
  {
    RunKeeps(n, config, acts);
    var s := Run(n, config, acts);
    if s.l.mine.None? && (exists k | 0 <= k < |s.l.slots| :: !s.l.slots[k].Absent?) {
      var k := FreeSlot(s.l.slots);
      assert !AllAbsent(s.l.slots);
      FreeIsVisible(s.l, k);
      assert s.l.slots[k].Free? && forall j | 0 <= j < |s.l.slots| && j != k :: !s.l.slots[j].Free?;
    }
  }

  lemma {:induction false} RunKeeps(n: Name, config: VarMap, acts: seq<Action>)
    ensures Good(Run(n, config, acts).l) && Told(Run(n, config, acts).l, Run(n, config, acts).shown)
  {
    if acts == [] {
      LoadConfigKeeps(n, config);
    } else {
      RunKeeps(n, config, acts[..|acts| - 1]);
      NextKeeps(Run(n, config, acts[..|acts| - 1]), n, acts[|acts| - 1]);
    }
  }
}
