/** The part of the core that keeps my variables and those of the partners, with the
    partner list updated in place. */
module OwnershipCore {
  import opened Basics
  import opened VarChanges
  import opened Ownership
  import opened OwnershipMeaning

  /** `setIds` has an entry for every name the partner ever defined. */
  datatype Partner = Partner(id: nat, his: VarMap, colliding: set<Name>, setIds: map<Name, nat>)

  predicate PartnerOk(p: Partner) {
    p.colliding <= p.his.Keys <= p.setIds.Keys
  }

  function SlotOf(p: Partner, n: Name): Slot {
    if n !in p.his then Absent
    else if n in p.colliding then Colliding(p.his[n])
    else Free(p.his[n])
  }

  function Slots(ps: seq<Partner>, n: Name): (r: seq<Slot>)
    ensures |r| == |ps|
  {
    seq(|ps|, k requires 0 <= k < |ps| => SlotOf(ps[k], n))
  }

  function Ids(ps: seq<Partner>): seq<nat> {
    seq(|ps|, k requires 0 <= k < |ps| => ps[k].id)
  }

  ghost predicate PartnersOk(ps: seq<Partner>) {
    && (forall k | 0 <= k < |ps| :: PartnerOk(ps[k]))
    && (forall j, k | 0 <= j < k < |ps| :: ps[j].id != ps[k].id)
  }

  /** One partner changed, in one name. */
  lemma OneChanged(ps: seq<Partner>, i: nat, p: Partner, n: Name)
    requires i < |ps| && p.id == ps[i].id && forall m | m != n :: SlotOf(p, m) == SlotOf(ps[i], m)
    ensures Slots(ps[i := p], n) == Slots(ps, n)[i := SlotOf(p, n)]
    ensures forall m | m != n :: Slots(ps[i := p], m) == Slots(ps, m)
    ensures Ids(ps[i := p]) == Ids(ps)
    ensures PartnersOk(ps) && PartnerOk(p) ==> PartnersOk(ps[i := p])
  {
  }

  class CmCore {
    var myVariables: VarMap
    var partners: seq<Partner>
    const changes: CmVarChanges
    /** What the user has, from what he was told and what he did himself. */
    ghost var shown: VarMap

    constructor (config: VarMap)
      ensures Valid() && fresh(changes)
      ensures forall n :: LocalOf(n) == Configured(n, config).l
    {
      myVariables, partners, shown := map[], [], map[];
      changes := new CmVarChanges();
      new;
      LoadConfigMyVariables(config);
    }

    /** While there are no partners yet. */
    method LoadConfigMyVariables(loaded: VarMap)
      requires WellFormed() && partners == [] && shown == map[]
      requires forall n :: LocalOf(n) == Local(None, [], Nothing)
      modifies this`myVariables, this`shown, changes
      ensures Valid() && forall n :: LocalOf(n) == Configured(n, loaded).l
    {
      var todo := loaded.Keys;
      hide PartnersOk, Good, Told, Ids, Slots;
      while todo != {}
        invariant todo <= loaded.Keys && WellFormed()
        invariant forall n :: Get(shown, n) == None
        invariant forall n :: LocalOf(n) == if n in todo then Local(None, [], Nothing) else Configured(n, loaded).l
        decreases |todo|
      {
        hide ChangeMine, Get;
        var n :| n in todo;
        InternalChangeMyVariable(n, loaded[n], true);
        todo := todo - {n};
      }
      forall n ensures Good(LocalOf(n)) && Told(LocalOf(n), Get(shown, n)) {
        LoadConfigKeeps(n, loaded);
      }
    }

    ghost function LocalOf(n: Name): Local
      reads this, changes
    {
      Local(Get(myVariables, n), Slots(partners, n), changes.At(n))
    }

    ghost predicate WellFormed()
      reads this, changes
    {
      changes.Valid() && PartnersOk(partners)
    }

    /** Exactly one holder of each name is visible, and the user is, or will be, told. */
    ghost predicate Valid()
      reads this, changes
    {
      WellFormed() && forall n :: Good(LocalOf(n)) && Told(LocalOf(n), Get(shown, n))
    }

    /** Only what concerns `n` has changed. */
    twostate predicate OnlyName(n: Name)
      reads this, changes
    {
      && Ids(partners) == old(Ids(partners))
      && forall m | m != n :: LocalOf(m) == old(LocalOf(m)) && Get(shown, m) == old(Get(shown, m))
    }

    twostate lemma StillValid(n: Name)
      requires old(Valid()) && WellFormed() && OnlyName(n)
      requires Good(LocalOf(n)) && Told(LocalOf(n), Get(shown, n))
      ensures Valid()
    {
      forall m ensures Good(LocalOf(m)) && Told(LocalOf(m), Get(shown, m)) {
        if m != n { assert old(Good(LocalOf(m)) && Told(LocalOf(m), Get(shown, m))); }
      }
    }

    method SetPartner(i: nat, p: Partner, ghost n: Name)
      requires WellFormed() && i < |partners| && p.id == partners[i].id && PartnerOk(p)
      requires forall m | m != n :: SlotOf(p, m) == SlotOf(partners[i], m)
      modifies this`partners
      ensures WellFormed() && partners == old(partners)[i := p]
      ensures LocalOf(n) == old(LocalOf(n)).(slots := old(LocalOf(n)).slots[i := SlotOf(p, n)])
      ensures OnlyName(n)
    {
      OneChanged(partners, i, p, n);
      partners := partners[i := p];
    }

    /** All partners' variables of the name stop being visible. */
    method MarkPartnersCollidingVariables(name: Name)
      requires WellFormed()
      modifies this`partners
      ensures WellFormed() && OnlyName(name)
      ensures LocalOf(name) == old(LocalOf(name)).(slots := MarkAll(old(LocalOf(name)).slots))
    {
      for i := 0 to |partners|
        invariant WellFormed() && OnlyName(name) && |partners| == |old(partners)|
        invariant forall k | 0 <= k < |partners| :: SlotOf(partners[k], name) ==
                    if k < i then Marked(SlotOf(old(partners)[k], name)) else SlotOf(old(partners)[k], name)
      {
        var p := partners[i];
        if name in p.his {
          SetPartner(i, p.(colliding := p.colliding + {name}), name);
        }
      }
    }

    /** Looks for a colliding variable to show when nobody else holds the name visibly. */
    method TryDefineSomeCollidingVariable(name: Name)
      requires WellFormed()
      modifies this`partners, changes
      ensures WellFormed() && OnlyName(name)
      ensures LocalOf(name) == TryDefine(old(LocalOf(name)))
      ensures |partners| == |old(partners)| && forall k | 0 <= k < |partners| :: partners[k].setIds == old(partners)[k].setIds
    {
      if name in myVariables { return; }
      var free, owner := FindColliding(name);
      SlotAtAll(partners, name);
      hide PartnersOk, Slots;
      if !free && owner >= 0 {
        var p := partners[owner];
        assert PartnerOk(p) by { PartnerAt(partners, owner); }
        SetPartner(owner, p.(colliding := p.colliding - {name}), name);
        changes.AddForeignUpdate(name, p.his[name], true);
      }
    }

    /** Whether some partner's variable of the name is visible; if not, the last holder. */
    method FindColliding(name: Name) returns (free: bool, owner: int)
      ensures free <==> FreeSlot(LocalOf(name).slots) >= 0
      ensures !free ==> owner == LastColliding(LocalOf(name).slots)
    {
      free, owner := false, -1;
      ghost var slots := LocalOf(name).slots;
      for i := 0 to |partners|
        invariant -1 <= owner < i
        invariant forall k | 0 <= k < i :: !slots[k].Free?
        invariant owner >= 0 ==> slots[owner].Colliding?
        invariant forall k | owner < k < i :: !slots[k].Colliding?
      {
        SlotAt(partners, i, name);
        if name in partners[i].his {
          if name !in partners[i].colliding { return true, -1; }
          owner := i;
        }
      }
      LastIs(slots, owner);
    }

    method DoesPartnerVariableCollide(name: Name, i: nat) returns (collides: bool)
      requires i < |partners|
      ensures collides == Collides(LocalOf(name), i)
    {
      if name in myVariables { return true; }
      for k := 0 to |partners|
        invariant forall j | 0 <= j < k && j != i :: !SlotOf(partners[j], name).Free?
      {
        if k != i && name in partners[k].his && name !in partners[k].colliding {
          assert LocalOf(name).slots[k].Free?;
          return true;
        }
      }
      collides := false;
    }

    /** Sets my variable, which is an update when its type stays the same. */
    method InternalChangeMyVariable(name: Name, v: Var, cb: bool)
      requires WellFormed()
      modifies this`myVariables, this`shown, changes
      ensures WellFormed() && OnlyName(name)
      ensures LocalOf(name) == ChangeMine(old(LocalOf(name)), v, cb)
      ensures Get(shown, name) == if cb then old(Get(shown, name)) else Some(v)
    {
      if name in myVariables && SameType(myVariables[name], v) {
        myVariables := myVariables[name := Plain(v)];
        if cb { changes.AddForeignUpdate(name, v, false); } else { changes.AddMyUpdate(name, v); }
      } else {
        myVariables := myVariables[name := v];
        if cb { changes.AddForeignUpdate(name, Plain(v), true); } else { changes.AddMyUpdate(name, Plain(v)); }
      }
      if !cb { shown := shown[name := v]; }
    }

    method DefineMyVariable(name: Name, v: Var, cb: bool)
      requires Valid()
      modifies this, changes
      ensures Valid() && OnlyName(name)
      ensures LocalOf(name) == DefineMine(old(LocalOf(name)), v, cb)
      ensures Get(shown, name) == if cb then old(Get(shown, name)) else Some(v)
    {
      DefineMineKeeps(LocalOf(name), v, cb, Get(shown, name));
      MarkPartnersCollidingVariables(name);
      if cb { changes.AddForeignDeletes({name}); } else { changes.AddMyDelete(name); }
      InternalChangeMyVariable(name, v, cb);
      StillValid(name);
    }

    method ChangeMyVariable(name: Name, v: Var, cb: bool) returns (found: bool)
      requires Valid()
      modifies this`myVariables, this`shown, changes
      ensures Valid() && OnlyName(name) && found == (name in old(myVariables))
      ensures LocalOf(name) == if found then ChangeMine(old(LocalOf(name)), v, cb) else old(LocalOf(name))
    {
      found := name in myVariables;
      if found {
        MineAlone(LocalOf(name));
        ChangeMineKeeps(LocalOf(name), v, cb, Get(shown, name));
        InternalChangeMyVariable(name, v, cb);
        StillValid(name);
      }
    }

    method UndefineVariable(name: Name, cb: bool) returns (found: bool)
      requires Valid()
      modifies this, changes
      ensures Valid() && OnlyName(name) && found == (name in old(myVariables))
      ensures LocalOf(name) == UndefineMine(old(LocalOf(name)), cb)
      ensures Get(shown, name) == if cb || !found then old(Get(shown, name)) else None
    {
      if name !in myVariables { return false; }
      UndefineMineKeeps(LocalOf(name), cb, Get(shown, name));
      hide Good, Told, PartnersOk, Slots, TryDefine;
      myVariables := myVariables - {name};
      if cb { changes.AddForeignDeletes({name}); } else { changes.AddMyDelete(name); shown := shown - {name}; }
      TryDefineSomeCollidingVariable(name);
      StillValid(name);
      found := true;
    }

    /** A partner defines a variable, or defines it anew. */
    method ProcessDEF(i: nat, name: Name, v: Var, setId: nat)
      requires Valid() && i < |partners|
      modifies this`partners, changes
      ensures Valid() && OnlyName(name)
      ensures LocalOf(name) == Def(old(LocalOf(name)), i, v)
      ensures name in partners[i].setIds && partners[i].setIds[name] == setId
      ensures var l, l1 := old(LocalOf(name)), LocalOf(name);
              var hidden := l.mine.Some? || exists j | 0 <= j < |l.slots| && j != i :: l.slots[j].Free?;
              && l1.mine == l.mine && OthersSame(l.slots, l1.slots, i)
              && l1.slots[i] == (if hidden then Colliding(v) else Free(v))
              && Visible(l1) == (if hidden then Visible(l) else Some(v))
    {
      DefMeans(LocalOf(name), i, v);
      DefKeeps(LocalOf(name), i, v, Get(shown, name));
      assert PartnerOk(partners[i]);
      hide Good, Told, PartnersOk;
      var collides := DoesPartnerVariableCollide(name, i);
      var p := partners[i];
      if collides {
        p := p.(colliding := p.colliding + {name});
      } else {
        changes.AddForeignUpdate(name, v, true);
      }
      SetPartner(i, p.(his := p.his[name := v], setIds := p.setIds[name := setId]), name);
      StillValid(name);
    }

    /** A partner drops a variable; the name must have been defined by him some time. */
    method ProcessUNDEF(i: nat, name: Name, setId: nat)
      requires Valid() && i < |partners| && name in partners[i].setIds
      modifies this`partners, changes
      ensures Valid() && OnlyName(name)
      ensures LocalOf(name) == Undef(old(LocalOf(name)), i)
      ensures name in partners[i].setIds && partners[i].setIds[name] == setId
      ensures var l, l1 := old(LocalOf(name)), LocalOf(name);
              l1.mine == l.mine && l1.slots[i].Absent? && PassedOn(l.mine, l.slots[i := Absent], l1.slots)
    {
      UndefMeans(LocalOf(name), i);
      UndefKeeps(LocalOf(name), i, Get(shown, name));
      hide Good, Told, PartnersOk, Slots, TryDefine;
      RenewId(i, name, setId);
      SlotAt(partners, i, name);
      if name in partners[i].his { DropAndDefine(i, name); }
      StillValid(name);
    }

    method DropAndDefine(i: nat, name: Name)
      requires WellFormed() && i < |partners| && name in partners[i].his
      modifies this`partners, changes
      ensures WellFormed() && OnlyName(name) && |partners| == |old(partners)|
      ensures partners[i].setIds == old(partners[i].setIds)
      ensures LocalOf(name) == Undef(old(LocalOf(name)), i)
    {
      SlotAt(partners, i, name);
      hide PartnersOk, Slots, TryDefine;
      DropHis(i, name);
      TryDefineSomeCollidingVariable(name);
    }

    /** The set number alone. */
    method RenewId(i: nat, name: Name, setId: nat)
      requires WellFormed() && i < |partners|
      modifies this`partners
      ensures WellFormed() && Ids(partners) == old(Ids(partners)) && |partners| == |old(partners)|
      ensures forall n :: LocalOf(n) == old(LocalOf(n))
      ensures partners[i] == old(partners[i]).(setIds := old(partners[i].setIds)[name := setId])
    {
      var p := partners[i];
      assert PartnerOk(p);
      hide PartnersOk;
      SetPartner(i, p.(setIds := p.setIds[name := setId]), name);
      SlotAt(old(partners), i, name);
      assert LocalOf(name).slots == old(LocalOf(name)).slots;
    }

    method DropHis(i: nat, name: Name)
      requires WellFormed() && i < |partners| && name in partners[i].his
      modifies this`partners, changes
      ensures WellFormed() && OnlyName(name) && |partners| == |old(partners)|
      ensures partners[i].setIds == old(partners[i].setIds)
      ensures var l := old(LocalOf(name));
              LocalOf(name) == l.(slots := l.slots[i := Absent], entry := if l.slots[i].Free? then Deleted else l.entry)
    {
      var p := partners[i];
      if name !in p.colliding { changes.AddForeignDeletes({name}); }
      SetPartner(i, p.(colliding := p.colliding - {name}, his := p.his - {name}), name);
    }

    /** A partner sends a value of his variable; `v` is `None` when nothing changed by it. */
    method ProcessSET(i: nat, name: Name, v: Option<Var>, setId: nat)
      requires Valid() && i < |partners|
      modifies this`partners, changes
      ensures Valid() && OnlyName(name)
      ensures LocalOf(name) == if v.None? then old(LocalOf(name)) else SetValue(old(LocalOf(name)), i, v.value)
      ensures partners[i].setIds == if name in old(partners[i].his) then old(partners[i].setIds)[name := setId]
                                    else old(partners[i].setIds)
      ensures v.Some? ==>
                var l, l1 := old(LocalOf(name)), LocalOf(name);
                && l1.mine == l.mine && OthersSame(l.slots, l1.slots, i)
                && (l.slots[i].Free? ==> l1.slots[i] == Free(v.value) && Visible(l1) == Some(v.value))
                && (l.slots[i].Colliding? ==> l1.slots[i] == Colliding(v.value) && Visible(l1) == Visible(l))
                && (l.slots[i].Absent? ==> l1 == l)
    {
      if v.Some? { SetValueMeans(LocalOf(name), i, v.value); }
      if name !in partners[i].his { return; }
      if v.Some? { SetValueKeeps(LocalOf(name), i, v.value, Get(shown, name)); }
      hide Good, Told, PartnersOk;
      StoreSET(i, name, v, setId);
      StillValid(name);
    }

    method StoreSET(i: nat, name: Name, v: Option<Var>, setId: nat)
      requires WellFormed() && i < |partners| && name in partners[i].his
      modifies this`partners, changes
      ensures WellFormed() && OnlyName(name) && shown == old(shown)
      ensures LocalOf(name) == if v.None? then old(LocalOf(name)) else SetValue(old(LocalOf(name)), i, v.value)
      ensures Ids(partners) == old(Ids(partners)) && partners[i].setIds == old(partners[i].setIds)[name := setId]
    {
      var p := partners[i];
      assert PartnerOk(p);
      if v.Some? {
        if name !in p.colliding { changes.AddForeignUpdate(name, v.value, false); }
        p := p.(his := p.his[name := v.value]);
      }
      hide PartnersOk;
      SetPartner(i, p.(setIds := p.setIds[name := setId]), name);
      assert v.None? ==> LocalOf(name).slots == old(LocalOf(name)).slots;
    }

    /** I change a partner's variable. Its visible holder is the only one not colliding, and
        if the name has holders, there is such a holder. */
    method ChangePartnerVariable(name: Name, v: Var, cb: bool) returns (found: bool)
      requires Valid() && name !in myVariables
      modifies this`partners, this`shown, changes
      ensures Valid() && OnlyName(name)
      ensures LocalOf(name) == ChangeTheirs(old(LocalOf(name)), v, cb)
      ensures found <==> old(Visible(LocalOf(name)).Some?)
      ensures Get(shown, name) == if cb || !old(TheirsAccept(LocalOf(name), v)) then old(Get(shown, name)) else Some(v)
      ensures forall i | 0 <= i < |old(partners)| && old(LocalOf(name)).slots[i].Free? ::
                var l, l1 := old(LocalOf(name)), LocalOf(name);
                var his := l.slots[i].v;
                if v.flags / 4 % 2 == 1 && his.kind == v.kind && his.value != v.value then
                  l1.mine == l.mine && OthersSame(l.slots, l1.slots, i) && l1.slots[i] == Free(Plain(v)) && Visible(l1) == Some(Plain(v))
                else l1 == l
    {
      forall i | 0 <= i < |partners| && LocalOf(name).slots[i].Free?
        ensures var l, l1 := LocalOf(name), ChangeTheirs(LocalOf(name), v, cb);
                var his := l.slots[i].v;
                if v.flags / 4 % 2 == 1 && his.kind == v.kind && his.value != v.value then
                  l1.mine == l.mine && OthersSame(l.slots, l1.slots, i) && l1.slots[i] == Free(Plain(v)) && Visible(l1) == Some(Plain(v))
                else l1 == l
      {
        ChangeTheirsMeans(LocalOf(name), v, cb, i);
      }
      hide OthersSame, Accepts, ChangeTheirs;
      ChangeTheirsKeeps(LocalOf(name), v, cb, Get(shown, name));
      AllSearched(LocalOf(name), v, cb);
      found := SearchAndChange(name, v, cb);
      StillValid(name);
    }

    method SearchAndChange(name: Name, v: Var, cb: bool) returns (found: bool)
      requires WellFormed() && Good(LocalOf(name)) && name !in myVariables
      modifies this`partners, this`shown, changes
      ensures WellFormed() && OnlyName(name)
      ensures LocalOf(name) == ChangeTheirs(old(LocalOf(name)), v, cb)
      ensures found <==> old(Visible(LocalOf(name)).Some?)
      ensures Get(shown, name) == if cb || !old(TheirsAccept(LocalOf(name), v)) then old(Get(shown, name)) else Some(v)
    {
      ghost var l := LocalOf(name);
      hide Good, Told, ChangeTheirs, TheirsAccept, Accepts, Visible, Slots, PartnersOk;
      found := false;
      var foundName := false;
      for i := 0 to |partners|
        invariant WellFormed() && OnlyName(name) && |partners| == |old(partners)|
        invariant found <==> 0 <= FreeSlot(l.slots) < i
        invariant foundName <==> !AllAbsent(l.slots[..i])
        invariant LocalOf(name) == if found then ChangeTheirs(l, v, cb) else l
        invariant Get(shown, name) == if cb || !found || !TheirsAccept(l, v) then old(Get(shown, name)) else Some(v)
      {
        SameElsewhere(l, v, cb, i);
        SlotAt(partners, i, name);
        if name in partners[i].his {
          foundName := true;
          if name !in partners[i].colliding {
            assert !found;
            found := true;
            ChangeHis(i, name, v, cb);
          }
        }
      }
      AllSearched(l, v, cb);
      assert !found ==> !foundName;
    }

    method ChangeHis(i: nat, name: Name, v: Var, cb: bool)
      requires WellFormed() && i < |partners| && SlotOf(partners[i], name).Free?
      modifies this`partners, this`shown, changes
      ensures WellFormed() && OnlyName(name)
      ensures LocalOf(name) == Changed(old(LocalOf(name)), i, v, cb)
      ensures Get(shown, name) == if cb || !Accepts(old(partners[i].his[name]), v) then old(Get(shown, name)) else Some(v)
    {
      var p := partners[i];
      if !Accepts(p.his[name], v) { return; }
      SetPartner(i, p.(his := p.his[name := Plain(v)]), name);
      if cb {
        changes.AddForeignUpdate(name, v, false);
      } else {
        changes.AddMyUpdate(name, v);
        shown := shown[name := v];
      }
    }

    /** A partner connects; an older connection with the same number ends first. */
    method NowConnected(id: nat)
      requires Valid()
      modifies this`partners, changes
      ensures Valid() && |partners| > 0 && partners[|partners| - 1] == Partner(id, map[], {}, map[])
      ensures Ids(partners) == WithoutId(old(Ids(partners)), id) + [id]
      ensures forall n :: LocalOf(n) == Connect(LeaveId(old(LocalOf(n)), old(Ids(partners)), id))
    {
      hide Good, Told, PartnersOk, Slots, Leave, LeaveId, WithoutId;
      ErasePartnerByConnectionId(id);
      AddEmpty(id);
    }

    method AddEmpty(id: nat)
      requires Valid() && id !in Ids(partners)
      modifies this`partners
      ensures Valid() && partners == old(partners) + [Partner(id, map[], {}, map[])]
      ensures Ids(partners) == old(Ids(partners)) + [id]
      ensures forall n :: LocalOf(n) == Connect(old(LocalOf(n)))
    {
      Added(partners, id);
      hide Good, Told, PartnersOk, Slots, Ids;
      partners := partners + [Partner(id, map[], {}, map[])];
      forall n ensures Good(LocalOf(n)) && Told(LocalOf(n), Get(shown, n)) {
        hide Connect;
        assert old(Good(LocalOf(n)) && Told(LocalOf(n), Get(shown, n)));
        ConnectKeeps(old(LocalOf(n)), Get(shown, n));
      }
    }

    method ErasePartnerByConnectionId(id: nat)
      requires Valid()
      modifies this`partners, changes
      ensures Valid() && Ids(partners) == WithoutId(old(Ids(partners)), id) && id !in Ids(partners)
      ensures forall n :: LocalOf(n) == LeaveId(old(LocalOf(n)), old(Ids(partners)), id)
    {
      var i := 0;
      ghost var ids, erased := Ids(partners), false;
      while i < |partners|
        invariant i <= |partners| && Valid()
        invariant !erased ==> partners == old(partners) && id !in ids[..i] && forall n :: LocalOf(n) == old(LocalOf(n))
        invariant erased ==> id !in Ids(partners) && Ids(partners) == WithoutId(ids, id)
        invariant erased ==> forall n :: LocalOf(n) == LeaveId(old(LocalOf(n)), ids, id)
        decreases |partners| - i
      {
        hide Good, Told, Slots, Leave;
        assert Ids(partners)[i] == partners[i].id;
        if partners[i].id == id {
          DistinctIds(partners);
          OnlyIdAt(ids, i, id);
          ErasePartner(i);
          erased := true;
        } else {
          assert !erased ==> ids[..i + 1] == ids[..i] + [ids[i]];
          i := i + 1;
        }
      }
      assert !erased ==> ids[..i] == ids;
    }

    /** A partner goes, and with him all his variables, one after another. */
    method ErasePartner(i: nat)
      requires Valid() && i < |partners|
      modifies this`partners, changes
      ensures Valid()
      ensures Ids(partners) == old(Ids(partners))[..i] + old(Ids(partners))[i + 1..]
      ensures forall n :: LocalOf(n) == Leave(old(LocalOf(n)), i)
    {
      var gone := partners[i];
      ghost var before := partners;
      partners := partners[..i] + partners[i + 1..];
      Removed(before, i);
      hide TryDefine, Without, Good, Told, PartnersOk, Slots;
      EraseNames(gone);
      forall n ensures LocalOf(n) == Leave(old(LocalOf(n)), i) {
        SlotAt(before, i, n);
        LeaveIs(old(LocalOf(n)), i, gone, n);
      }
      AllLeft(i);
    }

    method EraseNames(gone: Partner)
      requires WellFormed()
      modifies this`partners, changes
      ensures WellFormed() && Ids(partners) == old(Ids(partners))
      ensures forall n :: LocalOf(n) == if n in gone.his then Freed(old(LocalOf(n)), SlotOf(gone, n)) else old(LocalOf(n))
    {
      var todo := gone.his.Keys;
      while todo != {}
        invariant todo <= gone.his.Keys && WellFormed() && Ids(partners) == old(Ids(partners))
        invariant forall n :: LocalOf(n) == if n in gone.his && n !in todo then Freed(old(LocalOf(n)), SlotOf(gone, n))
                                            else old(LocalOf(n))
        decreases |todo|
      {
        hide Freed, PartnersOk, Slots;
        var n :| n in todo;
        EraseOne(n, gone);
        todo := todo - {n};
      }
    }

    twostate lemma AllLeft(i: nat)
      requires old(Valid()) && i < |old(partners)| && WellFormed() && shown == old(shown)
      requires forall n :: LocalOf(n) == Leave(old(LocalOf(n)), i)
      ensures Valid()
    {
      forall n ensures Good(LocalOf(n)) && Told(LocalOf(n), Get(shown, n)) {
        assert old(Good(LocalOf(n)) && Told(LocalOf(n), Get(shown, n)));
        LeaveKeeps(old(LocalOf(n)), i, old(Get(shown, n)));
      }
    }

    method EraseOne(n: Name, gone: Partner)
      requires WellFormed() && n in gone.his
      modifies this`partners, changes
      ensures WellFormed() && OnlyName(n)
      ensures LocalOf(n) == Freed(old(LocalOf(n)), SlotOf(gone, n))
    {
      if n !in gone.colliding {
        changes.AddForeignDeletes({n});
      }
      TryDefineSomeCollidingVariable(n);
    }

    method GetVariable(name: Name) returns (v: Option<Var>)
      requires Valid()
      ensures v == Visible(LocalOf(name))
    {
      if name in myVariables { return Some(myVariables[name]); }
      for i := 0 to |partners|
        invariant forall k | 0 <= k < i :: !SlotOf(partners[k], name).Free?
      {
        var p := partners[i];
        if name !in p.colliding && name in p.his {
          assert LocalOf(name).slots[i].Free?;
          FreeIsVisible(LocalOf(name), i);
          return Some(p.his[name]);
        }
      }
      v := None;
    }

    /** All variables, or those that `keep` tells by their flags: each as it is visible,
        whatever the order of the partners. */
    method GetAllVariables(keep: nat -> bool) returns (ret: VarMap)
      requires Valid()
      ensures forall n :: n in ret <==> Visible(LocalOf(n)).Some? && keep(Visible(LocalOf(n)).value.flags)
      ensures forall n | n in ret :: ret[n] == Visible(LocalOf(n)).value
    {
      ret := map n | n in myVariables && keep(myVariables[n].flags) :: myVariables[n];
      for i := 0 to |partners|
        invariant forall n :: Collected(Get(ret, n), Get(myVariables, n), Slots(partners, n), i, keep)
      {
        var p := partners[i];
        ghost var before := ret;
        ret := ret + map n | n in p.his && n !in p.colliding && keep(p.his[n].flags) :: p.his[n];
        forall n ensures Collected(Get(ret, n), Get(myVariables, n), Slots(partners, n), i + 1, keep) {
          assert Collected(Get(before, n), Get(myVariables, n), Slots(partners, n), i, keep);
          assert Good(LocalOf(n));
          var s := Slots(partners, n)[i];
          assert Get(ret, n) == if s.Free? && keep(s.v.flags) then Some(s.v) else Get(before, n);
          hide *;
          CollectMore(LocalOf(n), Get(before, n), Get(ret, n), i, keep);
        }
      }
      forall n ensures Get(ret, n) == if Visible(LocalOf(n)).Some? && keep(Visible(LocalOf(n)).value.flags)
                                      then Visible(LocalOf(n)) else None {
        assert Good(LocalOf(n)) && Collected(Get(ret, n), Get(myVariables, n), Slots(partners, n), |partners|, keep);
      }
    }

    /** The user takes the changes of the names that match. */
    method GetSomeChanges(matches: Name -> bool) returns (ch: Changes)
      requires Valid()
      modifies this`shown, changes
      ensures Valid() && ch.Valid()
      ensures forall n :: Get(shown, n) == Take(ch.At(n), old(Get(shown, n)))
      ensures forall n | matches(n) :: Same(Get(shown, n), Visible(LocalOf(n)))
    {
      hide Good, Told, Visible, PartnersOk, Slots, Same, Take;
      ch := changes.MoveSomeChanges(matches);
      shown := TakeAll(shown, ch);
      forall n
        ensures Good(LocalOf(n)) && Told(LocalOf(n), Get(shown, n))
        ensures matches(n) ==> Same(Get(shown, n), Visible(LocalOf(n)))
      {
        assert old(Good(LocalOf(n)) && Told(LocalOf(n), Get(shown, n)));
        TakesOne(old(LocalOf(n)), ch.At(n), changes.At(n), old(Get(shown, n)), matches(n));
      }
    }
  }

  /** Where the number is, or -1. */
  function IdAt(ids: seq<nat>, id: nat): (k: int)
    ensures -1 <= k < |ids| && if k < 0 then id !in ids else ids[k] == id
  {
    if ids == [] then -1
    else if ids[|ids| - 1] == id then |ids| - 1
    else IdAt(ids[..|ids| - 1], id)
  }

  function WithoutId(ids: seq<nat>, id: nat): seq<nat> {
    var k := IdAt(ids, id);
    if k < 0 then ids else ids[..k] + ids[k + 1..]
  }

  /** The partner of that number leaves, if there is one. */
  function LeaveId(l: Local, ids: seq<nat>, id: nat): Local
    requires |l.slots| == |ids|
  {
    var k := IdAt(ids, id);
    if k < 0 then l else Leave(l, k)
  }

  /** The partner of that number, if there is one, is gone, and the others stay in order. */
  lemma LeaveIdMeans(l: Local, ids: seq<nat>, id: nat, i: nat)
    requires |l.slots| == |ids| && forall j, k | 0 <= j < k < |ids| :: ids[j] != ids[k]
    ensures id !in ids ==> WithoutId(ids, id) == ids && LeaveId(l, ids, id) == l
    ensures i < |ids| && ids[i] == id ==> WithoutId(ids, id) == ids[..i] + ids[i + 1..] && LeaveId(l, ids, id) == Leave(l, i)
  {
    hide Leave;
    if i < |ids| && ids[i] == id { OnlyIdAt(ids, i, id); }
  }

  lemma OnlyIdAt(ids: seq<nat>, i: nat, id: nat)
    requires i < |ids| && ids[i] == id && forall j, k | 0 <= j < k < |ids| :: ids[j] != ids[k]
    ensures IdAt(ids, id) == i && id !in ids[..i] + ids[i + 1..]
  {
  }

  lemma DistinctIds(ps: seq<Partner>)
    requires PartnersOk(ps)
    ensures forall j, k | 0 <= j < k < |ps| :: Ids(ps)[j] != Ids(ps)[k]
  {
  }

  lemma Added(ps: seq<Partner>, id: nat)
    requires PartnersOk(ps) && id !in Ids(ps)
    ensures var more := ps + [Partner(id, map[], {}, map[])];
            && PartnersOk(more) && Ids(more) == Ids(ps) + [id]
            && forall n :: Slots(more, n) == Slots(ps, n) + [Absent]
  {
    assert forall k | 0 <= k < |ps| :: Ids(ps)[k] == ps[k].id;
  }

  lemma TakesOne(l: Local, taken: Entry, left: Entry, shown: Option<Var>, matches: bool)
    requires Good(l) && Told(l, shown)
    requires taken == (if matches then l.entry else Nothing) && left == if matches then Nothing else l.entry
    ensures Good(l.(entry := left)) && Told(l.(entry := left), Take(taken, shown))
    ensures matches ==> Same(Take(taken, shown), Visible(l.(entry := left)))
  {
  }

  function Kept(v: Option<Var>, keep: nat -> bool): Option<Var> {
    if v.Some? && keep(v.value.flags) then v else None
  }

  /** What was collected of one name from me and the first `n` partners. */
  predicate Collected(got: Option<Var>, mine: Option<Var>, slots: seq<Slot>, n: nat, keep: nat -> bool)
    requires n <= |slots|
  {
    got == if mine.Some? then Kept(mine, keep)
           else if 0 <= FreeSlot(slots) < n then Kept(Some(slots[FreeSlot(slots)].v), keep)
           else None
  }

  lemma CollectMore(l: Local, got: Option<Var>, got1: Option<Var>, i: nat, keep: nat -> bool)
    requires Good(l) && i < |l.slots| && Collected(got, l.mine, l.slots, i, keep)
    requires got1 == if l.slots[i].Free? && keep(l.slots[i].v.flags) then Some(l.slots[i].v) else got
    ensures Collected(got1, l.mine, l.slots, i + 1, keep)
  {
  }

  function Changed(l: Local, i: nat, v: Var, cb: bool): Local
    requires i < |l.slots| && l.slots[i].Free?
  {
    if !Accepts(l.slots[i].v, v) then l
    else l.(slots := l.slots[i := Free(Plain(v))],
            entry := if cb then FoldForeign(l.entry, v, false) else FoldMine(l.entry, v))
  }

  /** The search for the visible holder, step by step. */
  lemma SameElsewhere(l: Local, v: Var, cb: bool, i: nat)
    requires Good(l) && l.mine.None? && i < |l.slots|
    ensures FreeSlot(l.slots) != i ==> !l.slots[i].Free?
    ensures FreeSlot(l.slots) >= 0 && FreeSlot(l.slots) != i ==> ChangeTheirs(l, v, cb).slots[i] == l.slots[i]
    ensures FreeSlot(l.slots) == i ==> l.slots[i].Free?
    ensures FreeSlot(l.slots) == i ==> ChangeTheirs(l, v, cb) == Changed(l, i, v, cb)
    ensures FreeSlot(l.slots) == i ==> TheirsAccept(l, v) == Accepts(l.slots[i].v, v)
    ensures AllAbsent(l.slots[..i + 1]) <==> AllAbsent(l.slots[..i]) && l.slots[i].Absent?
  {
    assert l.slots[..i + 1] == l.slots[..i] + [l.slots[i]];
    if AllAbsent(l.slots[..i + 1]) {
      assert forall k | 0 <= k < i :: l.slots[..i][k] == l.slots[..i + 1][k];
      assert l.slots[..i + 1][i].Absent?;
    }
  }

  lemma AllSearched(l: Local, v: Var, cb: bool)
    requires Good(l) && l.mine.None?
    ensures l.slots[..|l.slots|] == l.slots
    ensures Visible(l).Some? <==> FreeSlot(l.slots) >= 0
    ensures FreeSlot(l.slots) < 0 ==> AllAbsent(l.slots) && ChangeTheirs(l, v, cb) == l && !TheirsAccept(l, v)
  {
  }

  lemma LastIs(slots: seq<Slot>, k: int)
    requires -1 <= k < |slots| && (k >= 0 ==> slots[k].Colliding?)
    requires forall j | k < j < |slots| :: !slots[j].Colliding?
    ensures LastColliding(slots) == k
  {
  }

  function Without(slots: seq<Slot>, i: nat): seq<Slot>
    requires i < |slots|
  {
    slots[..i] + slots[i + 1..]
  }

  lemma SlotAt(ps: seq<Partner>, i: nat, n: Name)
    requires i < |ps|
    ensures |Slots(ps, n)| == |ps| && Slots(ps, n)[i] == SlotOf(ps[i], n)
  {
  }

  lemma SlotAtAll(ps: seq<Partner>, n: Name)
    ensures |Slots(ps, n)| == |ps| && forall i | 0 <= i < |ps| :: Slots(ps, n)[i] == SlotOf(ps[i], n)
  {
  }

  lemma PartnerAt(ps: seq<Partner>, i: nat)
    requires PartnersOk(ps) && i < |ps|
    ensures PartnerOk(ps[i])
  {
  }

  /** A name after its holder, who had it as `was`, is gone. */
  function Freed(l: Local, was: Slot): Local {
    TryDefine(l.(entry := if was.Free? then Deleted else l.entry))
  }

  lemma LeaveIs(l: Local, i: nat, gone: Partner, n: Name)
    requires i < |l.slots| && l.slots[i] == SlotOf(gone, n)
    ensures var rest := l.(slots := Without(l.slots, i));
            Leave(l, i) == if n in gone.his then Freed(rest, SlotOf(gone, n)) else rest
  {
  }

  lemma Removed(ps: seq<Partner>, i: nat)
    requires i < |ps|
    ensures var rest := ps[..i] + ps[i + 1..];
            && (forall n :: Slots(rest, n) == Without(Slots(ps, n), i))
            && Ids(rest) == Ids(ps)[..i] + Ids(ps)[i + 1..]
            && (PartnersOk(ps) ==> PartnersOk(rest))
  {
  }

  /** The user's copy after taking changes. */
  ghost function TakeAll(vars: VarMap, ch: Changes): (out: VarMap)
    ensures forall n :: Get(out, n) == Take(ch.At(n), Get(vars, n))
  {
    map n | n in vars.Keys + ch.created.Keys + ch.updated.Keys && Take(ch.At(n), Get(vars, n)).Some? ::
      Take(ch.At(n), Get(vars, n)).value
  }
}
