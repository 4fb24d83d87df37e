/** Changes of variables on their way to the user: what was created, updated and deleted
    since he last asked. Later changes are folded into earlier ones name by name. */
module VarChanges {
  import opened Basics

  type Name = string

  /** `fields` are the indexes an update says have changed; empty means all. */
  datatype Var = Var(kind: int, limits: int, flags: nat, value: int, fields: set<nat>)

  type VarMap = map<Name, Var>

  function Plain(v: Var): Var { v.(fields := {}) }

  predicate SameType(v: Var, w: Var) { v.kind == w.kind }

  predicate SameTypeAndLimits(v: Var, w: Var) { v.kind == w.kind && v.limits == w.limits }

  function Get(m: VarMap, n: Name): Option<Var> { if n in m then Some(m[n]) else None }

  // ----- one name -----

  /** What is pending for one name. */
  datatype Entry = Nothing | Created(v: Var) | Updated(v: Var) | Deleted

  /** What the user has of the name once he takes the change. */
  function Take(e: Entry, shown: Option<Var>): Option<Var> {
    match e
    case Nothing => shown
    case Created(v) => Some(v)
    case Updated(v) => Some(v)
    case Deleted => None
  }

  /** A change made by somebody else. */
  function FoldForeign(e: Entry, v: Var, wasCreated: bool): Entry {
    match e
    case Created(_) => Created(Plain(v))
    case Updated(u) => if SameTypeAndLimits(u, v) then Updated(Plain(v)) else Created(Plain(v))
    case _ => if wasCreated then Created(Plain(v)) else Updated(v)
  }

  /** A change made by the user, who need not be told of it. */
  function FoldMine(e: Entry, v: Var): Entry {
    match e
    case Created(_) => Created(Plain(v))
    case Updated(u) => if SameTypeAndLimits(u, v) then Updated(Plain(v)) else Created(Plain(v))
    case _ => Nothing
  }

  /** A later change on top of an earlier one. */
  function Compose(a: Entry, b: Entry): Entry {
    match b
    case Nothing => a
    case Created(v) => FoldForeign(a, v, true)
    case Updated(v) => FoldForeign(a, v, false)
    case Deleted => Deleted
  }

  predicate Same(a: Option<Var>, b: Option<Var>) {
    (a.None? <==> b.None?) && (a.Some? ==> Plain(a.value) == Plain(b.value))
  }

  // ----- all names -----

  /** The three sets; a name is in one at most. */
  datatype Changes = Changes(created: VarMap, updated: VarMap, deleted: set<Name>)
  {
    ghost predicate Valid() {
      && created.Keys !! updated.Keys && created.Keys !! deleted && updated.Keys !! deleted
      && forall n | n in created :: created[n].fields == {}
    }

    function At(n: Name): Entry {
      if n in created then Created(created[n])
      else if n in updated then Updated(updated[n])
      else if n in deleted then Deleted
      else Nothing
    }
  }

  /** Puts the variables of `src` in place of those of the same name. */
  method Overwrite(vars: VarMap, src: VarMap) returns (out: VarMap)
    ensures forall n :: Get(out, n) == if n in src then Some(src[n]) else Get(vars, n)
  {
    out := vars;
    var todo := src.Keys;
    while todo != {}
      invariant todo <= src.Keys
      invariant forall n :: Get(out, n) == if n in src && n !in todo then Some(src[n]) else Get(vars, n)
      decreases |todo|
    {
      var n :| n in todo;
      out := out - {n};
      out := out[n := src[n]];
      todo := todo - {n};
    }
  }

  /** The user takes changes: deletions first, then the rest. */
  method ApplyVarChanges(vars: VarMap, ch: Changes) returns (out: VarMap)
    requires ch.Valid()
    ensures forall n :: Get(out, n) == Take(ch.At(n), Get(vars, n))
  {
    out := vars - ch.deleted;
    out := Overwrite(out, ch.created);
    out := Overwrite(out, ch.updated);
  }

  class CmVarChanges {
    var created: VarMap
    var updated: VarMap
    var deleted: set<Name>

    constructor ()
      ensures Valid() && forall n :: At(n) == Nothing
    {
      created, updated, deleted := map[], map[], {};
    }

    ghost function Value(): Changes
      reads this
    {
      Changes(created, updated, deleted)
    }

    ghost predicate Valid()
      reads this
    {
      Value().Valid()
    }

    ghost function At(n: Name): Entry
      reads this
    {
      Value().At(n)
    }

    /** One variable changed by somebody else; `wasCreated` tells a new one from an update. */
    method AddForeignUpdate(n: Name, v: Var, wasCreated: bool)
      requires Valid()
      modifies this
      ensures Valid() && At(n) == FoldForeign(old(At(n)), v, wasCreated)
      ensures forall m | m != n :: At(m) == old(At(m))
    {
      deleted := deleted - {n};
      if n in created {
        created := created[n := Plain(v)];
      } else if n in updated {
        if SameTypeAndLimits(updated[n], v) {
          updated := updated[n := Plain(v)];
        } else {
          updated := updated - {n};
          created := created[n := Plain(v)];
        }
      } else if wasCreated {
        created := created[n := Plain(v)];
      } else {
        updated := updated[n := v];
      }
    }

    method AddForeignUpdates(src: VarMap, wasCreated: bool)
      requires Valid()
      modifies this
      ensures Valid()
      ensures forall n :: At(n) == if n in src then FoldForeign(old(At(n)), src[n], wasCreated) else old(At(n))
    {
      var todo := src.Keys;
      while todo != {}
        invariant todo <= src.Keys && Valid()
        invariant forall n :: At(n) == if n in src && n !in todo then FoldForeign(old(At(n)), src[n], wasCreated)
                                       else old(At(n))
        decreases |todo|
      {
        var n :| n in todo;
        AddForeignUpdate(n, src[n], wasCreated);
        todo := todo - {n};
      }
    }

    method AddForeignDeletes(names: set<Name>)
      requires Valid()
      modifies this
      ensures Valid() && forall n :: At(n) == if n in names then Deleted else old(At(n))
    {
      created := created - names;
      updated := updated - names;
      deleted := deleted + names;
    }

    /** The changes of somebody else, on top of these. */
    method AddForeignChanges(ch: Changes)
      requires Valid() && ch.Valid()
      modifies this
      ensures Valid()
      ensures forall n :: At(n) == Compose(old(At(n)), ch.At(n))
    {
      AddForeignDeletes(ch.deleted);
      AddForeignUpdates(ch.created, true);
      AddForeignUpdates(ch.updated, false);
    }

    method AddMyUpdate(n: Name, v: Var)
      requires Valid()
      modifies this
      ensures Valid() && At(n) == FoldMine(old(At(n)), v)
      ensures forall m | m != n :: At(m) == old(At(m))
    {
      deleted := deleted - {n};
      if n in created {
        created := created[n := Plain(v)];
      } else if n in updated {
        if SameTypeAndLimits(updated[n], v) {
          updated := updated[n := Plain(v)];
        } else {
          updated := updated - {n};
          created := created[n := Plain(v)];
        }
      }
    }

    method AddMyDelete(n: Name)
      requires Valid()
      modifies this
      ensures Valid() && At(n) == Nothing
      ensures forall m | m != n :: At(m) == old(At(m))
    {
      created := created - {n};
      updated := updated - {n};
      deleted := deleted - {n};
    }

    /** Hands over the changes of the names that match; the others stay. */
    method MoveSomeChanges(matches: Name -> bool) returns (ch: Changes)
      requires Valid()
      modifies this
      ensures Valid() && ch.Valid()
      ensures forall n :: ch.At(n) == if matches(n) then old(At(n)) else Nothing
      ensures forall n :: At(n) == if matches(n) then Nothing else old(At(n))
    {
      ch := Changes(map n | n in created && matches(n) :: created[n],
                    map n | n in updated && matches(n) :: updated[n],
                    set n | n in deleted && matches(n));
      created := created - ch.created.Keys;
      updated := updated - ch.updated.Keys;
      deleted := deleted - ch.deleted;
    }

    method MoveAllChanges() returns (ch: Changes)
      requires Valid()
      modifies this
      ensures ch == old(Value()) && Valid() && forall n :: At(n) == Nothing
    {
      ch := Changes(created, updated, deleted);
      created, updated, deleted := map[], map[], {};
    }
  }

  // ----- created or updated -----

  /** A change by somebody else is told as an update exactly if an update of the same type
      and limits is pending, or nothing is and it is one; indexes are told only by the first
      update. */
  lemma FoldMeans(e: Entry, v: Var, wasCreated: bool)
    ensures var f := FoldForeign(e, v, wasCreated);
            && (f.Created? || f.Updated?) && Plain(f.v) == Plain(v)
            && (f.Updated? <==> match e
                                case Created(_) => false
                                case Updated(u) => u.kind == v.kind && u.limits == v.limits
                                case _ => !wasCreated)
            && f.v.fields == if f.Updated? && !e.Updated? then v.fields else {}
  {
  }

  /** A change by the user goes into what is pending, as one by somebody else would, and adds
      nothing to it. */
  lemma FoldMineMeans(e: Entry, v: Var)
    ensures var f := FoldMine(e, v);
            if e.Created? || e.Updated? then
              (f.Created? || f.Updated?) && f.v == Plain(v)
              && (f.Updated? <==> e.Updated? && e.v.kind == v.kind && e.v.limits == v.limits)
            else f == Nothing
  {
  }

  /** What is composed with nothing pending stays what it is. */
  lemma ComposeKinds(b: Entry)
    ensures Compose(Nothing, b) == if b.Created? then Created(Plain(b.v)) else b
    ensures b.Deleted? ==> forall a :: Compose(a, b) == b
    ensures b.Nothing? ==> forall a :: Compose(a, b) == a
    ensures b.Created? ==> Compose(Deleted, b).Created?
  {
  }

  // ----- the laws -----

  /** The law the folding is documented to obey: taking `a` and then `b` gives what taking
      both folded together gives, but for the changed indexes noted with the value. */
  lemma ComposeTakes(a: Entry, b: Entry, shown: Option<Var>)
    ensures Same(Take(Compose(a, b), shown), Take(b, Take(a, shown)))
  {
  }

  /** Including those indexes it holds exactly unless `b` notes some in an update of a name
      that `a` has created or updated. */
  lemma ComposeExactly(a: Changes, b: Changes, ab: Changes)
    requires a.Valid() && b.Valid() && forall n :: ab.At(n) == Compose(a.At(n), b.At(n))
    ensures (forall n, shown :: Take(ab.At(n), shown) == Take(b.At(n), Take(a.At(n), shown)))
            <==> (forall n | n in b.updated && (n in a.created || n in a.updated) :: b.updated[n].fields == {})
  {
    if forall n, shown :: Take(ab.At(n), shown) == Take(b.At(n), Take(a.At(n), shown)) {
      forall n | n in b.updated && (n in a.created || n in a.updated)
        ensures b.updated[n].fields == {}
      {
        assert Take(ab.At(n), None) == Take(b.At(n), Take(a.At(n), None));
        assert b.At(n) == Updated(b.updated[n]);
      }
    }
  }

  /** The documented law without that exception fails. */
  lemma ComposeDropsFields()
    ensures exists a: Entry, b: Entry, shown: Option<Var> :: Take(Compose(a, b), shown) != Take(b, Take(a, shown))
  {
    var a := Updated(Var(0, 0, 0, 1, {}));
    var b := Updated(Var(0, 0, 0, 2, {3}));
    assert Take(Compose(a, b), None).value.fields != Take(b, Take(a, None)).value.fields;
  }

  /** The user's own change: made on his copy at once, and folded in silently, it comes out
      as if he had taken what was pending first and then made it. */
  lemma MineCommutes(e: Entry, v: Var, shown: Option<Var>)
    ensures Same(Take(FoldMine(e, v), Some(v)), Some(v))
  {
  }
}
