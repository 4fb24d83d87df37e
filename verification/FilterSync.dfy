/** Bringing the filters a partner knows of in line with ours, one kind of message at a
    time. Sets are looked at as maps from names to indexes. */
module FilterSync {
  import opened FiltersSet

  type FMap<Idx> = map<string, Idx>

  datatype Kind = FILT_DEF | FILT_UNDEF | FILT_CHG

  datatype Msg<+Idx> = Msg(kind: Kind, name: string, idx: Idx)

  // ----- sets as maps -----

  function Flat<Idx>(s: Sets<Idx>): FMap<Idx> {
    map n | n in s.onlyStars.Keys + s.patterns.Keys + s.exact.Keys ::
      if n in s.onlyStars then s.onlyStars[n].idx else if n in s.patterns then s.patterns[n].idx else s.exact[n].idx
  }

  /** Erasing works on the map as on the set: the empty name stays. */
  function EraseFlat<Idx>(m: FMap<Idx>, name: string): FMap<Idx> {
    if name == "" then m else m - {name}
  }

  lemma FlatErase<Idx>(s: Sets<Idx>, name: string)
    requires Sorted(s)
    ensures Flat(Erase(s, name)) == EraseFlat(Flat(s), name)
  {
    var a, b := Flat(Erase(s, name)), EraseFlat(Flat(s), name);
    forall n ensures n in a <==> n in b
             ensures n in a ==> a[n] == b[n]
    {
      FlatEraseAt(s, name, n);
    }
  }

  function At<Idx>(m: FMap<Idx>, n: string): (bool, seq<Idx>) {
    if n in m then (true, [m[n]]) else (false, [])
  }

  lemma FlatEraseAt<Idx>(s: Sets<Idx>, name: string, n: string)
    requires Sorted(s)
    ensures At(Flat(Erase(s, name)), n) == At(EraseFlat(Flat(s), name), n)
  {
    if name != "" && AllStars(name) { StarsAreSpecial(name); }
  }

  /** A new filter is put in; one that is there is merged, or replaced when it changes. */
  lemma FlatAdd<Idx>(s: Sets<Idx>, f: Filter<Idx>, replace: bool, merge: Merge<Idx>)
    requires Sorted(s) && f.name != "" && !f.bare
    ensures Flat(Add(s, f, false, replace, merge).0) ==
            Flat(s)[f.name := if f.name in Flat(s) && !replace then merge(Flat(s)[f.name], f.idx).0 else f.idx]
  {
    var a := Flat(Add(s, f, false, replace, merge).0);
    var b := Flat(s)[f.name := if f.name in Flat(s) && !replace then merge(Flat(s)[f.name], f.idx).0 else f.idx];
    forall n ensures n in a <==> n in b
             ensures n in a ==> a[n] == b[n]
    {
      FlatAddAt(s, f, replace, merge, n);
    }
  }

  lemma FlatAddAt<Idx>(s: Sets<Idx>, f: Filter<Idx>, replace: bool, merge: Merge<Idx>, n: string)
    requires Sorted(s) && f.name != "" && !f.bare
    ensures At(Flat(Add(s, f, false, replace, merge).0), n) ==
            At(Flat(s)[f.name := if f.name in Flat(s) && !replace then merge(Flat(s)[f.name], f.idx).0 else f.idx], n)
  {
    if AllStars(f.name) { StarsAreSpecial(f.name); }
    hide AllStars, HasSpecial;
    NameInPart(s, f);
    PartOnly(s, f, replace, merge, n);
    hide ClassOf, Sorted;
  }

  lemma NameInPart<Idx>(s: Sets<Idx>, f: Filter<Idx>)
    requires Sorted(s) && f.name != "" && !f.bare
    ensures f.name in Flat(s) <==> f.name in Part(s, ClassOf(f))
    ensures f.name in Flat(s) ==> Flat(s)[f.name] == Part(s, ClassOf(f))[f.name].idx
  {
    if AllStars(f.name) { StarsAreSpecial(f.name); }
    hide AllStars, HasSpecial;
  }

  /** Adding touches no other name, and that one in its part. */
  lemma PartOnly<Idx>(s: Sets<Idx>, f: Filter<Idx>, replace: bool, merge: Merge<Idx>, n: string)
    requires Sorted(s) && f.name != "" && !f.bare
    ensures var s1 := Add(s, f, false, replace, merge).0;
            if n != f.name then At(Flat(s1), n) == At(Flat(s), n)
            else n in Flat(s1) && Flat(s1)[n] == Part(s1, ClassOf(f))[n].idx
  {
    if AllStars(f.name) { StarsAreSpecial(f.name); }
    hide AllStars, HasSpecial;
  }

  // ----- the differences -----

  function Created<Idx>(src: FMap<Idx>, dst: FMap<Idx>): FMap<Idx> { map n | n in src && n !in dst :: src[n] }

  function Deleted<Idx>(src: FMap<Idx>, dst: FMap<Idx>): FMap<Idx> { map n | n in dst && n !in src :: dst[n] }

  function Changed<Idx(==)>(src: FMap<Idx>, dst: FMap<Idx>): FMap<Idx> {
    map n | n in src && n in dst && src[n] != dst[n] :: src[n]
  }

  function Difference<Idx(==)>(src: FMap<Idx>, dst: FMap<Idx>, k: Kind): FMap<Idx> {
    match k
    case FILT_DEF => Created(src, dst)
    case FILT_UNDEF => Deleted(src, dst)
    case FILT_CHG => Changed(src, dst)
  }

  /** Which filters the partner needs to know of. */
  type Need<!Idx> = (string, Idx) -> bool

  function Sendable<Idx>(m: FMap<Idx>, need: Need<Idx>): set<string> { set n | n in m && need(n, m[n]) }

  /** All differences that are to be sent. */
  function ToSend<Idx(==)>(src: FMap<Idx>, dst: FMap<Idx>, need: Need<Idx>): set<string> {
    Sendable(Created(src, dst), need) + Sendable(Deleted(src, dst), need) + Sendable(Changed(src, dst), need)
  }

  /** Nothing is left to send exactly if the partner's set agrees with ours but for filters
      he need not know of: those he lacks or has otherwise as we have them, those he has too
      many as he has them. */
  lemma NothingLeftIff<Idx>(src: FMap<Idx>, dst: FMap<Idx>, need: Need<Idx>)
    ensures ToSend(src, dst, need) == {} <==>
            && (forall n | n in src && (n !in dst || dst[n] != src[n]) :: !need(n, src[n]))
            && (forall n | n in dst && n !in src :: !need(n, dst[n]))
  {
    if ToSend(src, dst, need) == {} {
      forall n | n in src && (n !in dst || dst[n] != src[n]) ensures !need(n, src[n]) {
        assert n in (if n in dst then Changed(src, dst) else Created(src, dst));
        assert n !in ToSend(src, dst, need);
      }
      forall n | n in dst && n !in src ensures !need(n, dst[n]) {
        assert n in Deleted(src, dst);
        assert n !in ToSend(src, dst, need);
      }
    }
  }

  /** A partner who needs everything then has our set. */
  lemma InStepIff<Idx>(src: FMap<Idx>, dst: FMap<Idx>, need: Need<Idx>)
    requires forall n, idx :: need(n, idx)
    ensures ToSend(src, dst, need) == {} <==> dst == src
  {
    NothingLeftIff(src, dst, need);
    hide ToSend;
  }

  // ----- what one message does -----

  /** The partner handles a message. */
  function Apply<Idx>(m: FMap<Idx>, msg: Msg<Idx>, merge: Merge<Idx>): FMap<Idx> {
    match msg.kind
    case FILT_DEF => m[msg.name := if msg.name in m then merge(m[msg.name], msg.idx).0 else msg.idx]
    case FILT_UNDEF => EraseFlat(m, msg.name)
    case FILT_CHG => m[msg.name := msg.idx]
  }

  function ApplyAll<Idx>(m: FMap<Idx>, msgs: seq<Msg<Idx>>, merge: Merge<Idx>): FMap<Idx> {
    if msgs == [] then m else Apply(ApplyAll(m, msgs[..|msgs| - 1], merge), msgs[|msgs| - 1], merge)
  }

  /** What committing the chosen filters of one kind makes of the partner's set. */
  function Commit<Idx(==)>(src: FMap<Idx>, dst: FMap<Idx>, k: Kind, chosen: set<string>): FMap<Idx>
    requires chosen <= Difference(src, dst, k).Keys
  {
    match k
    case FILT_UNDEF => dst - (chosen - {""})
    case _ => dst + map n | n in chosen :: src[n]
  }

  /** The chosen that are really gone from the differences. */
  function Settled(k: Kind, chosen: set<string>): set<string> {
    if k == FILT_UNDEF then chosen - {""} else chosen
  }

  /** Committing one of the three sets takes the chosen out of it and leaves the other two
      as they are. */
  lemma CommitSettles<Idx>(src: FMap<Idx>, dst: FMap<Idx>, k: Kind, chosen: set<string>, j: Kind)
    requires chosen <= Difference(src, dst, k).Keys
    ensures Difference(src, Commit(src, dst, k, chosen), j) ==
            if j == k then Difference(src, dst, j) - Settled(k, chosen) else Difference(src, dst, j)
  {
    var dst1 := Commit(src, dst, k, chosen);
    assert dst1.Keys == if k == FILT_UNDEF then dst.Keys - (chosen - {""}) else dst.Keys + chosen;
    var a, b := Difference(src, dst1, j), Difference(src, dst, j);
    forall n ensures n in a <==> n in b && !(j == k && n in Settled(k, chosen)) {
      if n in chosen { assert n in Difference(src, dst, k); }
    }
    assert forall n | n in a :: a[n] == b[n];
  }

  /** The partner's set becomes ours at the chosen names, but for an empty name to be
      deleted, and stays as it is at all others. */
  lemma CommitMeans<Idx>(src: FMap<Idx>, dst: FMap<Idx>, k: Kind, chosen: set<string>, n: string)
    requires chosen <= Difference(src, dst, k).Keys
    ensures At(Commit(src, dst, k, chosen), n) ==
            if n in chosen && !(n == "" && n !in src) then At(src, n) else At(dst, n)
  {
    if n in chosen { assert n in Difference(src, dst, k); }
  }

  /** Every commit leaves exactly that many differences fewer to send. */
  lemma CommitProgress<Idx>(src: FMap<Idx>, dst: FMap<Idx>, need: Need<Idx>, k: Kind, chosen: set<string>)
    requires chosen <= Sendable(Difference(src, dst, k), need)
    ensures chosen <= Difference(src, dst, k).Keys
    ensures ToSend(src, Commit(src, dst, k, chosen), need) == ToSend(src, dst, need) - Settled(k, chosen)
    ensures Settled(k, chosen) <= ToSend(src, dst, need)
    ensures |ToSend(src, Commit(src, dst, k, chosen), need)| == |ToSend(src, dst, need)| - |Settled(k, chosen)|
  {
    assert chosen <= Difference(src, dst, k).Keys;
    var a, b := ToSend(src, Commit(src, dst, k, chosen), need), ToSend(src, dst, need);
    forall n
      ensures n in a <==> n in b && n !in Settled(k, chosen)
      ensures n in chosen ==> n in b
    {
      ProgressAt(src, dst, need, k, chosen, n);
    }
    var gone := Settled(k, chosen);
    assert gone <= chosen <= b;
    hide *;
    FewerBy(a, b, gone);
  }

  lemma FewerBy(a: set<string>, b: set<string>, gone: set<string>)
    requires gone <= b && forall n :: n in a <==> n in b && n !in gone
    ensures a == b - gone && |a| == |b| - |gone|
  {
    assert b == a + gone;
  }

  lemma ProgressAt<Idx>(src: FMap<Idx>, dst: FMap<Idx>, need: Need<Idx>, k: Kind, chosen: set<string>, n: string)
    requires chosen <= Sendable(Difference(src, dst, k), need) && chosen <= Difference(src, dst, k).Keys
    ensures n in ToSend(src, Commit(src, dst, k, chosen), need) <==> n in ToSend(src, dst, need) && n !in Settled(k, chosen)
    ensures n in chosen ==> n in ToSend(src, dst, need)
  {
    CommitSettles(src, dst, k, chosen, FILT_DEF);
    CommitSettles(src, dst, k, chosen, FILT_UNDEF);
    CommitSettles(src, dst, k, chosen, FILT_CHG);
    hide Commit;
    if n in chosen { assert n in Difference(src, dst, k); }
  }

  /** A deleted filter with the empty name stays a difference for ever. */
  lemma EmptyNameStays<Idx>(src: FMap<Idx>, dst: FMap<Idx>, need: Need<Idx>, k: Kind, chosen: set<string>)
    requires chosen <= Sendable(Difference(src, dst, k), need)
    ensures chosen <= Difference(src, dst, k).Keys
    ensures "" in Sendable(Deleted(src, dst), need) <==> "" in Sendable(Deleted(src, Commit(src, dst, k, chosen)), need)
  {
    assert chosen <= Difference(src, dst, k).Keys;
    CommitSettles(src, dst, k, chosen, FILT_UNDEF);
  }

  // ----- the sender -----

  datatype Status = Full | Partial | CannotFit | TooLong

  /** The output buffer in one attempt: which filters it takes, and whether it could be
      finished. */
  datatype Buffer = Buffer(fits: string -> bool, finishes: bool)

  /** Some messages more, all of one kind. */
  predicate OneKind<Idx(==)>(before: seq<Msg<Idx>>, after: seq<Msg<Idx>>, k: Kind) {
    before < after && forall i | |before| <= i < |after| :: after[i].kind == k
  }

  predicate SomeRefused(names: set<string>, b: Buffer) {
    exists n | n in names :: !b.fits(n)
  }

  class FilterSender<Idx(==, !new)> {
    const need: Need<Idx>
    const merge: Merge<Idx>
    /** What the partner has been told, where it began, and the messages in between. */
    var dst: FMap<Idx>
    ghost const start: FMap<Idx>
    ghost var sent: seq<Msg<Idx>>

    constructor (need: Need<Idx>, merge: Merge<Idx>, dst: FMap<Idx>)
      ensures Valid() && this.need == need && this.merge == merge && this.dst == dst == start && sent == []
    {
      this.need, this.merge, this.dst := need, merge, dst;
      start, sent := dst, [];
    }

    /** A partner who handles the messages in order has what is kept here of him. */
    ghost predicate Valid()
      reads this
    {
      ApplyAll(start, sent, merge) == dst
    }

    /** Tries to send filters of one kind: as many as fit, in some order, up to the first
        that does not. `count` of them are to be sent. */
    method TryAddChanges(src: FMap<Idx>, k: Kind, count: nat, b: Buffer) returns (status: Status, chosen: set<string>)
      requires Valid() && count == |Sendable(Difference(src, dst, k), need)|
      modifies this`dst, this`sent
      ensures Valid()
      ensures status in {CannotFit, TooLong} ==> dst == old(dst) && sent == old(sent)
      ensures status in {CannotFit, Partial} && count > 0 ==> SomeRefused(Sendable(Difference(src, old(dst), k), need), b)
      ensures status != CannotFit ==> (status == TooLong <==> !b.finishes) && forall n | n in chosen :: b.fits(n)
      ensures status in {Full, Partial} ==> chosen != {} && chosen <= Sendable(Difference(src, old(dst), k), need)
      ensures status in {Full, Partial} ==> (status == Full <==> chosen == Sendable(Difference(src, old(dst), k), need))
      ensures status in {Full, Partial} ==> chosen <= Difference(src, old(dst), k).Keys && dst == Commit(src, old(dst), k, chosen)
      ensures status in {Full, Partial} ==> OneKind(old(sent), sent, k)
    {
      var all := Difference(src, dst, k);
      chosen := {};
      var todo := all.Keys;
      while todo != {}
        invariant todo <= all.Keys && chosen <= Sendable(all, need) && forall n | n in chosen :: b.fits(n)
        invariant SomeRefused(Sendable(all, need), b) || Sendable(all, need) <= chosen + todo
        decreases |todo|
      {
        var n :| n in todo;
        todo := todo - {n};
        if need(n, all[n]) {
          if !b.fits(n) {
            assert n in Sendable(all, need);
            break;
          }
          chosen := chosen + {n};
        }
      }
      assert SomeRefused(Sendable(all, need), b) || chosen == Sendable(all, need);
      if chosen == {} { return CannotFit, chosen; }
      if !b.finishes { return TooLong, chosen; }
      assert chosen <= all.Keys;
      CommitAll(src, k, chosen);
      SubsetSize(chosen, Sendable(all, need));
      status := if |chosen| < count then Partial else Full;
    }

    /** The chosen filters, one after another, here and at the partner. */
    method CommitAll(src: FMap<Idx>, k: Kind, chosen: set<string>)
      requires Valid() && chosen <= Difference(src, dst, k).Keys
      modifies this`dst, this`sent
      ensures Valid() && dst == Commit(src, old(dst), k, chosen)
      ensures chosen != {} ==> OneKind(old(sent), sent, k)
    {
      var all := Difference(src, dst, k);
      var todo := chosen;
      CommitNothing(src, dst, k);
      hide *;
      while todo != {}
        invariant todo <= chosen && Valid()
        invariant if todo == chosen then sent == old(sent) && dst == old(dst)
                  else OneKind(old(sent), sent, k) && dst == Commit(src, old(dst), k, chosen - todo)
        decreases |todo|
      {
        var n :| n in todo;
        OneMoreOfIt(old(sent), sent, Msg(k, n, all[n]));
        OneDone(chosen, todo, n);
        CommitNext(src, old(dst), k, chosen - todo, n, all);
        todo := todo - {n};
      }
      assert chosen - todo == chosen;
    }

    method CommitNext(src: FMap<Idx>, ghost before: FMap<Idx>, k: Kind, ghost done: set<string>, n: string, all: FMap<Idx>)
      requires Valid() && all == Difference(src, before, k) && done + {n} <= all.Keys && n !in done
      requires dst == Commit(src, before, k, done)
      modifies this`dst, this`sent
      ensures Valid() && dst == Commit(src, before, k, done + {n}) && sent == old(sent) + [Msg(k, n, all[n])]
    {
      hide *;
      CommitOne(src, before, k, done, n, merge);
      CommitName(k, n, all[n]);
    }

    method CommitName(k: Kind, n: string, idx: Idx)
      requires Valid()
      modifies this`dst, this`sent
      ensures Valid() && dst == Apply(old(dst), Msg(k, n, idx), merge) && sent == old(sent) + [Msg(k, n, idx)]
    {
      match k {
        case FILT_DEF => dst := dst[n := if n in dst then merge(dst[n], idx).0 else idx];
        case FILT_UNDEF => dst := EraseFlat(dst, n);
        case FILT_CHG => dst := dst[n := idx];
      }
      assert (sent + [Msg(k, n, idx)])[..|sent|] == sent;
      sent := sent + [Msg(k, n, idx)];
    }

    /** One call sends some differences of the first kind that has any. `more` is false
        exactly when no difference is left to send, unless a filter with the empty name is
        to be deleted: then one is always left. */
    method CompareFiltersAndGenerateChangeMessage(src: FMap<Idx>, buffers: nat -> Buffer, fuel: nat) returns (more: bool, didSend: bool, gaveUp: bool)
      requires Valid()
      modifies this`dst, this`sent
      ensures Valid()
      ensures !didSend ==> dst == old(dst) && sent == old(sent)
      ensures didSend ==> OneKind(old(sent), sent, if Sendable(Created(src, old(dst)), need) != {} then FILT_DEF
                                                   else if Sendable(Deleted(src, old(dst)), need) != {} then FILT_UNDEF else FILT_CHG)
      ensures didSend && "" !in Sendable(Deleted(src, old(dst)), need) ==>
                |ToSend(src, dst, need)| < |ToSend(src, old(dst), need)|
      ensures ToSend(src, dst, need) <= ToSend(src, old(dst), need)
      ensures "" !in Sendable(Deleted(src, old(dst)), need) && !gaveUp ==> (more <==> ToSend(src, dst, need) != {})
      ensures "" in Sendable(Deleted(src, old(dst)), need) ==> "" in ToSend(src, dst, need)
      ensures !didSend && more ==> exists t: nat :: t < fuel && SomeRefused(ToSend(src, dst, need), buffers(t))
      ensures gaveUp ==> forall t: nat | t < fuel :: !buffers(t).finishes
    {
      var nDef, nUndef, nChg := |Sendable(Created(src, dst), need)|, |Sendable(Deleted(src, dst), need)|, |Sendable(Changed(src, dst), need)|;
      TotalIs(src, dst, need);
      more, didSend, gaveUp := false, false, false;
      if nDef + nUndef + nChg == 0 { return; }
      var k, count := FILT_CHG, nChg;
      if nUndef > 0 { k, count := FILT_UNDEF, nUndef; }
      if nDef > 0 { k, count := FILT_DEF, nDef; }
      assert count == |Sendable(Difference(src, dst, k), need)|;
      NotEmpty(src, dst, need);
      more, didSend, gaveUp := SendSome(src, k, count, nDef + nUndef + nChg, buffers, fuel);
    }

    method SendSome(src: FMap<Idx>, k: Kind, count: nat, total: nat, buffers: nat -> Buffer, fuel: nat) returns (more: bool, didSend: bool, gaveUp: bool)
      requires Valid() && 0 < count == |Sendable(Difference(src, dst, k), need)| && total == |ToSend(src, dst, need)|
      modifies this`dst, this`sent
      ensures Valid() && (!didSend ==> dst == old(dst) && sent == old(sent) && (more || gaveUp))
      ensures didSend ==> Sends(src, old(dst), dst, need, more) && OneKind(old(sent), sent, k)
      ensures !didSend && more ==> exists t: nat :: t < fuel && SomeRefused(ToSend(src, dst, need), buffers(t))
      ensures gaveUp ==> !didSend && !more && forall t: nat | t < fuel :: !buffers(t).finishes
    {
      DifferenceToSend(src, dst, need, k);
      hide ApplyAll, ToSend, Sends, Sendable, Difference, OneKind;
      more, didSend, gaveUp := false, false, false;
      var tries := 0;
      while tries < fuel
        invariant forall t: nat | t < tries :: !buffers(t).finishes
        invariant Valid() && dst == old(dst) && sent == old(sent)
      {
        var status, chosen := TryAddChanges(src, k, count, buffers(tries));
        if status == Full || status == Partial {
          SendsSome(src, old(dst), need, k, chosen);
          return status == Partial || count < total, true, false;
        }
        if status == CannotFit { return true, false, false; }
        tries := tries + 1;
      }
      gaveUp := true;
    }
  }

  lemma OneDone(chosen: set<string>, todo: set<string>, n: string)
    requires todo <= chosen && n in todo
    ensures chosen - (todo - {n}) == (chosen - todo) + {n} <= chosen && n !in chosen - todo
    ensures todo == chosen ==> chosen - todo == {}
  {
  }

  lemma OneMoreOfIt<Idx>(before: seq<Msg<Idx>>, after: seq<Msg<Idx>>, m: Msg<Idx>)
    requires after == before || OneKind(before, after, m.kind)
    ensures OneKind(before, after + [m], m.kind)
  {
  }

  /** What sending has changed, and whether it is to go on. */
  ghost predicate Sends<Idx>(src: FMap<Idx>, dst: FMap<Idx>, dst1: FMap<Idx>, need: Need<Idx>, more: bool) {
    && ToSend(src, dst1, need) <= ToSend(src, dst, need)
    && ("" in Sendable(Deleted(src, dst), need) ==> "" in ToSend(src, dst1, need))
    && ("" !in Sendable(Deleted(src, dst), need) ==>
          |ToSend(src, dst1, need)| < |ToSend(src, dst, need)| && (more <==> ToSend(src, dst1, need) != {}))
  }

  lemma SendsSome<Idx>(src: FMap<Idx>, dst: FMap<Idx>, need: Need<Idx>, k: Kind, chosen: set<string>)
    requires chosen != {} && chosen <= Sendable(Difference(src, dst, k), need)
    ensures chosen <= Difference(src, dst, k).Keys
    ensures Sends(src, dst, Commit(src, dst, k, chosen), need,
                  chosen != Sendable(Difference(src, dst, k), need) ||
                  |Sendable(Difference(src, dst, k), need)| < |ToSend(src, dst, need)|)
  {
    CommitProgress(src, dst, need, k, chosen);
    EmptyNameStays(src, dst, need, k, chosen);
    SettledNames(src, dst, need, k, chosen);
    DeletedToSend(src, Commit(src, dst, k, chosen), need);
    DifferenceToSend(src, dst, need, k);
    var a, b, part := ToSend(src, Commit(src, dst, k, chosen), need), ToSend(src, dst, need), Sendable(Difference(src, dst, k), need);
    SubsetSize(chosen, part);
    SubsetSize(part, b);
    hide ToSend, Commit, Difference, Sendable, Deleted, Settled;
    assert Settled(k, chosen) == chosen ==> (a == {} <==> |b| == |chosen|);
  }

  lemma DeletedToSend<Idx>(src: FMap<Idx>, dst: FMap<Idx>, need: Need<Idx>)
    ensures Sendable(Deleted(src, dst), need) <= ToSend(src, dst, need)
  {
  }

  lemma DifferenceToSend<Idx>(src: FMap<Idx>, dst: FMap<Idx>, need: Need<Idx>, k: Kind)
    ensures Sendable(Difference(src, dst, k), need) <= ToSend(src, dst, need)
  {
  }

  lemma NotEmpty<Idx>(src: FMap<Idx>, dst: FMap<Idx>, need: Need<Idx>)
    ensures |ToSend(src, dst, need)| == 0 <==> ToSend(src, dst, need) == {}
    ensures "" in Sendable(Deleted(src, dst), need) ==> "" in ToSend(src, dst, need)
  {
  }

  lemma SubsetSize(a: set<string>, b: set<string>)
    requires a <= b
    ensures |a| <= |b| && (|a| == |b| ==> a == b)
  {
    assert b == a + (b - a);
  }

  lemma CommitNothing<Idx>(src: FMap<Idx>, dst: FMap<Idx>, k: Kind)
    ensures Commit(src, dst, k, {}) == dst
  {
  }

  lemma CommitOne<Idx>(src: FMap<Idx>, dst: FMap<Idx>, k: Kind, done: set<string>, n: string, merge: Merge<Idx>)
    requires done + {n} <= Difference(src, dst, k).Keys && n !in done
    ensures Commit(src, dst, k, done + {n}) == Apply(Commit(src, dst, k, done), Msg(k, n, Difference(src, dst, k)[n]), merge)
  {
    assert n in Difference(src, dst, k);
    var a, b := Commit(src, dst, k, done + {n}), Apply(Commit(src, dst, k, done), Msg(k, n, Difference(src, dst, k)[n]), merge);
    assert a.Keys == b.Keys;
    assert forall j | j in a :: a[j] == b[j];
  }

  lemma TotalIs<Idx>(src: FMap<Idx>, dst: FMap<Idx>, need: Need<Idx>)
    ensures |ToSend(src, dst, need)| ==
            |Sendable(Created(src, dst), need)| + |Sendable(Deleted(src, dst), need)| + |Sendable(Changed(src, dst), need)|
  {
    var a, b, c := Sendable(Created(src, dst), need), Sendable(Deleted(src, dst), need), Sendable(Changed(src, dst), need);
    assert a !! b && a !! c && b !! c;
  }

  lemma SettledNames<Idx>(src: FMap<Idx>, dst: FMap<Idx>, need: Need<Idx>, k: Kind, chosen: set<string>)
    requires chosen <= Sendable(Difference(src, dst, k), need)
    ensures "" !in Sendable(Deleted(src, dst), need) ==> Settled(k, chosen) == chosen
  {
  }
}
