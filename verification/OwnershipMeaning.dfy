/** What each operation on a name does to its holders, said slot by slot, and what the user
    is told: who becomes visible, with which value, and whether as something new. */
module OwnershipMeaning {
  import opened Basics
  import opened VarChanges
  import opened Ownership

  /** The other partners' slots are as before. */
  predicate OthersSame(a: seq<Slot>, b: seq<Slot>, i: nat)
    requires i < |a|
  {
    |b| == |a| && forall j | 0 <= j < |a| && j != i :: b[j] == a[j]
  }

  /** The same holders with the same values, none of them visible. */
  predicate Hidden(a: seq<Slot>, b: seq<Slot>) {
    && |b| == |a|
    && forall j | 0 <= j < |a| :: !b[j].Free? && (b[j].Absent? <==> a[j].Absent?) && (!a[j].Absent? ==> b[j].v == a[j].v)
  }

  /** If nobody is visible the last holder becomes so, with his value; otherwise nothing
      changes. */
  ghost predicate PassedOn(mine: Option<Var>, a: seq<Slot>, b: seq<Slot>) {
    if mine.None? && (forall j | 0 <= j < |a| :: !a[j].Free?) && exists k | 0 <= k < |a| :: a[k].Colliding? then
      exists k | 0 <= k < |a| :: a[k].Colliding? && (forall j | k < j < |a| :: !a[j].Colliding?) && b == a[k := Free(a[k].v)]
    else b == a
  }

  lemma TryDefineMeans(l: Local)
    ensures TryDefine(l).mine == l.mine && PassedOn(l.mine, l.slots, TryDefine(l).slots)
  {
    if LastColliding(l.slots) >= 0 { assert l.slots[LastColliding(l.slots)].Colliding?; }
    if FreeSlot(l.slots) >= 0 { assert l.slots[FreeSlot(l.slots)].Free?; }
  }

  /** A value that a partner sends for his variable is stored, and it is what is visible if
      the variable was. */
  lemma SetValueMeans(l: Local, i: nat, v: Var)
    requires i < |l.slots| && Good(l)
    ensures var l1 := SetValue(l, i, v);
            && l1.mine == l.mine && OthersSame(l.slots, l1.slots, i)
            && (l.slots[i].Free? ==> l1.slots[i] == Free(v) && Visible(l1) == Some(v))
            && (l.slots[i].Colliding? ==> l1.slots[i] == Colliding(v) && Visible(l1) == Visible(l))
            && (l.slots[i].Absent? ==> l1 == l)
  {
    SetValueKeeps(l.(entry := Nothing), i, v, Visible(l));
    if l.slots[i].Free? {
      assert SetValue(l, i, v).slots[i] == Free(v);
      FreeIsVisible(SetValue(l, i, v), i);
    }
  }

  /** A definition is stored, visible if nobody else is, and hidden otherwise. */
  lemma DefMeans(l: Local, i: nat, v: Var)
    requires i < |l.slots| && Good(l)
    ensures var l1 := Def(l, i, v);
            var hidden := l.mine.Some? || exists j | 0 <= j < |l.slots| && j != i :: l.slots[j].Free?;
            && l1.mine == l.mine && OthersSame(l.slots, l1.slots, i)
            && l1.slots[i] == (if hidden then Colliding(v) else Free(v))
            && Visible(l1) == (if hidden then Visible(l) else Some(v))
  {
    DefKeeps(l.(entry := Nothing), i, v, Visible(l));
    assert Def(l.(entry := Nothing), i, v).slots == Def(l, i, v).slots;
  }

  /** After a partner has dropped his variable he does not hold the name; if he was visible
      the last of the others becomes so. */
  lemma UndefMeans(l: Local, i: nat)
    requires i < |l.slots| && Good(l)
    ensures var l1 := Undef(l, i);
            l1.mine == l.mine && l1.slots[i].Absent? && PassedOn(l.mine, l.slots[i := Absent], l1.slots)
  {
    if l.slots[i].Absent? {
      assert l.slots[i := Absent] == l.slots && Undef(l, i) == l;
      NothingPassedOn(l);
    } else {
      TryDefineMeans(l.(slots := l.slots[i := Absent], entry := if l.slots[i].Free? then Deleted else l.entry));
    }
  }

  lemma NothingPassedOn(l: Local)
    requires Good(l)
    ensures PassedOn(l.mine, l.slots, l.slots)
  {
  }

  /** A partner leaves with his variable, and the name passes on as if he had dropped it. */
  lemma LeaveMeans(l: Local, i: nat)
    requires i < |l.slots| && Good(l)
    ensures var l1 := Leave(l, i);
            l1.mine == l.mine && PassedOn(l.mine, l.slots[..i] + l.slots[i + 1..], l1.slots)
  {
    var rest := l.slots[..i] + l.slots[i + 1..];
    var l1 := l.(slots := rest, entry := if l.slots[i].Free? then Deleted else l.entry);
    if l.slots[i].Absent? {
      LeaveKeeps(l.(entry := Nothing), i, Visible(l));
      NothingPassedOn(Leave(l.(entry := Nothing), i));
    } else {
      TryDefineMeans(l1);
    }
  }

  /** My definition is stored and visible; the partners keep their variables, hidden. */
  lemma DefineMineMeans(l: Local, v: Var, cb: bool)
    ensures var l1 := DefineMine(l, v, cb);
            && l1.mine.Some? && Plain(l1.mine.value) == Plain(v) && Visible(l1) == l1.mine
            && Hidden(l.slots, l1.slots)
            && (cb ==> l1.entry.Created? || l1.entry.Updated?)
            && (!cb ==> l1.entry == Nothing)
  {
  }

  /** After I have dropped mine it is gone, and the last partner who holds the name has it. */
  lemma UndefineMineMeans(l: Local, cb: bool)
    requires l.mine.Some?
    ensures UndefineMine(l, cb).mine == None && PassedOn(None, l.slots, UndefineMine(l, cb).slots)
  {
    TryDefineMeans(l.(mine := None, entry := if cb then Deleted else Nothing));
  }

  /** A change of mine is stored. */
  lemma ChangeMineMeans(l: Local, v: Var, cb: bool)
    ensures var l1 := ChangeMine(l, v, cb);
            && l1.mine.Some? && Plain(l1.mine.value) == Plain(v) && Visible(l1) == l1.mine
            && l1.slots == l.slots
  {
  }

  /** A change of the visible partner's variable is stored there, if he accepts it. */
  lemma ChangeTheirsMeans(l: Local, v: Var, cb: bool, i: nat)
    requires Good(l) && l.mine.None? && i < |l.slots| && l.slots[i].Free?
    ensures var l1 := ChangeTheirs(l, v, cb);
            var his := l.slots[i].v;
            if v.flags / 4 % 2 == 1 && his.kind == v.kind && his.value != v.value then
              l1.mine == l.mine && OthersSame(l.slots, l1.slots, i) && l1.slots[i] == Free(Plain(v)) && Visible(l1) == Some(Plain(v))
            else l1 == l
  {
    assert FreeSlot(l.slots) == i;
    if Accepts(l.slots[i].v, v) {
      assert ChangeTheirs(l, v, cb).slots[i] == Free(Plain(v));
      ChangeTheirsKeeps(l.(entry := Nothing), v, cb, Visible(l));
      FreeIsVisible(ChangeTheirs(l, v, cb), i);
    }
  }

  // ----- created or updated -----

  /** The user is told of an update only of a variable he has. */
  predicate Knows(l: Local, shown: Option<Var>) {
    l.entry.Updated? ==> shown.Some?
  }

  /** I define a variable of mine anew, in the same type, that the user has not been told
      of yet. */
  predicate DefinesAgain(s: Seen, n: Name, act: Action) {
    act.ADefineMine? && act.n == n && act.cb && s.shown.None? && s.l.mine.Some? && s.l.mine.value.kind == act.v.kind
  }

  /** Every operation keeps that, except exactly this one. */
  lemma NextKnowsIff(s: Seen, n: Name, act: Action)
    requires Good(s.l) && Told(s.l, s.shown) && Knows(s.l, s.shown)
    ensures Knows(Next(s, n, act).l, Next(s, n, act).shown) <==> !DefinesAgain(s, n, act)
  {
    match act
    case ADef(_, i, v) =>
    case AUndef(_, i) => if i < |s.l.slots| { UndefKnows(s.l, i, s.shown); }
    case ALeave(i) => if i < |s.l.slots| { LeaveKnows(s.l, i, s.shown); }
    case AUndefineMine(_, cb) => if s.l.mine.Some? { UndefineKnows(s.l, cb, s.shown); }
    case ASetValue(_, i, v) => if i < |s.l.slots| && s.l.slots[i].Free? { assert FreeSlot(s.l.slots) == i; }
    case _ =>
  }

  lemma UndefKnows(l: Local, i: nat, shown: Option<Var>)
    requires i < |l.slots| && Knows(l, shown)
    ensures Knows(Undef(l, i), shown)
  {
  }

  lemma LeaveKnows(l: Local, i: nat, shown: Option<Var>)
    requires i < |l.slots| && Knows(l, shown)
    ensures Knows(Leave(l, i), shown)
  {
  }

  lemma UndefineKnows(l: Local, cb: bool, shown: Option<Var>)
    requires Knows(l, shown) && l.mine.Some?
    ensures Knows(UndefineMine(l, cb), if cb then shown else None)
  {
  }

  /** So in every run in which I do not do that, no update is told of an unknown variable. */
  lemma {:induction false} RunKnows(n: Name, config: VarMap, acts: seq<Action>)
    requires forall i | 0 <= i < |acts| :: !DefinesAgain(Run(n, config, acts[..i]), n, acts[i])
    ensures Knows(Run(n, config, acts).l, Run(n, config, acts).shown)
  {
    if acts != [] {
      var last := |acts| - 1;
      forall i | 0 <= i < last ensures !DefinesAgain(Run(n, config, acts[..last][..i]), n, acts[..last][i]) {
        assert acts[..last][..i] == acts[..i];
      }
      RunKnows(n, config, acts[..last]);
      RunKeeps(n, config, acts[..last]);
      NextKnowsIff(Run(n, config, acts[..last]), n, acts[last]);
      hide Next, Knows, Good, Told, DefinesAgain;
    }
  }

  /** And in this one it is. */
  lemma UnknownUpdated(n: Name, v: Var)
    ensures var s := Run(n, map[], [ADefineMine(n, v, true), ADefineMine(n, v, true)]);
            s.shown == None && s.l.entry.Updated?
  {
    var act := ADefineMine(n, v, true);
    assert [act, act][..1] == [act] && [act][..0] == [];
    assert Run(n, map[], []) == Configured(n, map[]);
    assert Run(n, map[], [act]) == Next(Configured(n, map[]), n, act);
  }
}
