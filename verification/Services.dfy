/** The table of services a node offers to a partner, and the partner's copy of it. */
module Services {
  import opened Basics

  /** Service names and the short numbers that stand for them. */
  type Table = map<string, nat>

  datatype Msg = Accept(id: nat, name: string) | Reject(id: nat)

  const MAX_SERVICES: nat := 256
  const INT16_MAX: nat := 32767

  predicate HasId(t: Table, id: nat) { exists n | n in t :: t[n] == id }

  predicate Injective(t: Table) { forall m, n | m in t && n in t && m != n :: t[m] != t[n] }

  predicate ProperTable(t: Table) {
    Injective(t) && forall n | n in t :: n != "" && t[n] < 2 * MAX_SERVICES
  }

  // ----- the partner's copy -----

  /** A message that does not make sense changes nothing. Without a name it is too short. */
  function Receive(t: Table, m: Msg): Table {
    match m
    case Accept(id, name) =>
      if name == "" || id > INT16_MAX || name in t || HasId(t, id) then t else t[name := id]
    case Reject(id) =>
      if id > INT16_MAX then t else map n | n in t && t[n] != id :: t[n]
  }

  function ReceiveAll(t: Table, ms: seq<Msg>): Table {
    if ms == [] then t else Receive(ReceiveAll(t, ms[..|ms| - 1]), ms[|ms| - 1])
  }

  lemma ReceiveInjective(t: Table, m: Msg)
    requires Injective(t)
    ensures Injective(Receive(t, m))
  {
  }

  method FindValue(t: Table, id: nat) returns (name: Option<string>)
    ensures name.Some? ==> name.value in t && t[name.value] == id
    ensures name.None? ==> !HasId(t, id)
  {
    var todo := t.Keys;
    while todo != {}
      invariant todo <= t.Keys && forall n | n in t && n !in todo :: t[n] != id
      decreases |todo|
    {
      var n :| n in todo;
      if t[n] == id { return Some(n); }
      todo := todo - {n};
    }
    name := None;
  }

  class PartnersServices {
    var accepted: Table

    constructor ()
      ensures accepted == map[]
    {
      accepted := map[];
    }

    method ReceiveMsgAccept(id: nat, name: string) returns (ok: bool)
      requires Injective(accepted)
      modifies this
      ensures Injective(accepted) && accepted == Receive(old(accepted), Accept(id, name))
      ensures ok <==> name != "" && id <= INT16_MAX && name !in old(accepted) && !HasId(old(accepted), id)
      ensures accepted == if ok then old(accepted)[name := id] else old(accepted)
    {
      ReceiveInjective(accepted, Accept(id, name));
      if |name| == 0 { return false; }
      if id > INT16_MAX { return false; }
      if name in accepted { return false; }
      var other := FindValue(accepted, id);
      if other.Some? { return false; }
      accepted := accepted[name := id];
      ok := true;
    }

    method ReceiveMsgReject(id: nat) returns (ok: bool)
      requires Injective(accepted)
      modifies this
      ensures Injective(accepted) && accepted == Receive(old(accepted), Reject(id))
      ensures ok <==> id <= INT16_MAX && HasId(old(accepted), id)
      ensures ok ==> exists n | n in old(accepted) :: old(accepted)[n] == id && accepted == old(accepted) - {n}
      ensures !ok ==> accepted == old(accepted)
    {
      ReceiveInjective(accepted, Reject(id));
      if id > INT16_MAX { return false; }
      var name := FindValue(accepted, id);
      if name.None? {
        assert Receive(accepted, Reject(id)) == accepted;
        return false;
      }
      RejectOne(accepted, name.value);
      accepted := accepted - {name.value};
      assert name.value in old(accepted) && old(accepted)[name.value] == id;
      ok := true;
    }
  }

  lemma RejectOne(t: Table, name: string)
    requires Injective(t) && name in t && t[name] <= INT16_MAX
    ensures Receive(t, Reject(t[name])) == t - {name}
  {
  }

  // ----- the table itself -----

  lemma {:induction false} ValuesAtMost(t: Table)
    ensures |t.Values| <= |t|
    decreases |t|
  {
    if t != map[] {
      var n :| n in t;
      var rest := t - {n};
      ValuesAtMost(rest);
      assert t.Values <= rest.Values + {t[n]} by {
        forall v | v in t.Values ensures v in rest.Values + {t[n]} {
          var m :| m in t && t[m] == v;
          if m != n { assert m in rest && rest[m] == v; }
        }
      }
      SizeOf(t.Values, rest.Values + {t[n]});
    }
  }

  lemma SizeOf(a: set<nat>, b: set<nat>)
    requires a <= b
    ensures |a| <= |b|
  {
    assert b == a + (b - a);
  }

  /** `n` numbers in a row. */
  function Numbers(from: nat, n: nat): (r: set<nat>)
    ensures |r| == n
    ensures forall x | x in r :: from <= x < from + n
  {
    if n == 0 then {} else Numbers(from, n - 1) + {from + n - 1}
  }

  /** As many numbers in a row are used as there are services, at most. */
  lemma UsedInARow(t: Table, from: nat, to: nat)
    requires from <= to && forall x: nat | from <= x < to :: HasId(t, x)
    ensures to - from <= |t|
  {
    var row := Numbers(from, to - from);
    forall x | x in row ensures x in t.Values {
      assert HasId(t, x);
    }
    SizeOf(row, t.Values);
    ValuesAtMost(t);
  }

  /** Probing for a number from a random start: it ends with a free one below 512 exactly
      if there are fewer than 256 services; otherwise none is looked for. */
  method GetFreshServiceId(t: Table, random: nat) returns (id: Option<nat>)
    ensures id.Some? <==> |t| < MAX_SERVICES
    ensures id.Some? ==> !HasId(t, id.value) && id.value < 2 * MAX_SERVICES
  {
    if |t| >= MAX_SERVICES { return None; }
    var start := random % MAX_SERVICES;
    var probe := start;
    UsedInARow(t, start, probe);
    while true
      invariant start <= probe && (forall x: nat | start <= x < probe :: HasId(t, x))
      invariant probe - start <= |t|
      decreases |t| - (probe - start)
    {
      var used := FindValue(t, probe);
      if used.None? { return Some(probe); }
      assert HasId(t, probe);
      UsedInARow(t, start, probe + 1);
      probe := probe + 1;
    }
  }

  /** The services a partner is to know: all for ourselves, else those for others. */
  function Wanted(mine: map<string, bool>, toOthers: bool): set<string> {
    set n | n in mine && (toOthers ==> mine[n])
  }

  /** What is still to be told. */
  function Untold(t: Table, mine: map<string, bool>, toOthers: bool): set<string> {
    Pending(Wanted(mine, toOthers), t.Keys, mine.Keys)
  }

  function Pending(wanted: set<string>, told: set<string>, offered: set<string>): set<string> {
    (wanted - told) + (told - offered)
  }

  /** A service the partner may use and was not told of. */
  predicate IsNews(n: string, t: Table, mine: map<string, bool>, toOthers: bool) {
    n in mine && (toOthers ==> mine[n]) && n !in t
  }

  ghost predicate NoNews(t: Table, mine: map<string, bool>, toOthers: bool, fits: string -> bool) {
    forall n | IsNews(n, t, mine, toOthers) :: !fits(n)
  }

  /** `id` stood for a service that is no longer offered, and for that one only. */
  ghost predicate TakenBack(id: nat, t: Table, u: Table, mine: map<string, bool>, fits: string -> bool) {
    exists n | n in t && n !in mine && fits(n) :: t[n] == id && u == t - {n}
  }

  lemma NewsWanted(n: string, t: Table, mine: map<string, bool>, toOthers: bool)
    requires IsNews(n, t, mine, toOthers)
    ensures n in Wanted(mine, toOthers) && n !in t
  {
  }

  lemma TakesBack(n: string, t: Table, mine: map<string, bool>, fits: string -> bool)
    requires n in t && n !in mine && fits(n)
    ensures TakenBack(t[n], t, t - {n}, mine, fits)
  {
  }

  lemma NothingToTell(t: Table, mine: map<string, bool>, toOthers: bool, fits: string -> bool)
    requires NoNews(t, mine, toOthers, fits) && forall n | n in t && n !in mine :: !fits(n)
    ensures forall n | n in Untold(t, mine, toOthers) :: !fits(n)
    ensures Untold(t, mine, toOthers) == {} ==> Wanted(mine, toOthers) <= t.Keys <= mine.Keys
  {
    forall n | n in Untold(t, mine, toOthers) ensures !fits(n) {
      assert IsNews(n, t, mine, toOthers) || n !in mine;
    }
  }

  class MyServices {
    const toOthers: bool
    var accepted: Table
    ghost var sent: seq<Msg>

    constructor (toOthers: bool)
      ensures Valid() && accepted == map[] && sent == [] && this.toOthers == toOthers
    {
      this.toOthers := toOthers;
      accepted, sent := map[], [];
    }

    /** A partner who has handled all messages in order has the same table. */
    ghost predicate Valid()
      reads this
    {
      ProperTable(accepted) && ReceiveAll(map[], sent) == accepted
    }

    /** At most one message: a service that is not known yet, or else one that is no longer
        offered. `fits` tells whether the buffer has room for the message about a service. */
    method GenerateAcceptedServicesToSend(mine: map<string, bool>, random: nat, fits: string -> bool) returns (msg: Option<Msg>)
      requires Valid() && (forall n | n in mine :: n != "")
      requires |accepted.Keys + Wanted(mine, toOthers)| <= MAX_SERVICES
      modifies this
      ensures Valid() && sent == old(sent) + (if msg.Some? then [msg.value] else [])
      ensures msg.None? ==> accepted == old(accepted)
      ensures msg.None? ==> forall n | n in Untold(accepted, mine, toOthers) :: !fits(n)
      ensures msg.None? && Untold(accepted, mine, toOthers) == {} ==> Wanted(mine, toOthers) <= accepted.Keys <= mine.Keys
      ensures msg.Some? ==> |Untold(accepted, mine, toOthers)| == |Untold(old(accepted), mine, toOthers)| - 1
      ensures match msg
        case Some(Accept(id, n)) => IsNews(n, old(accepted), mine, toOthers) && fits(n) && accepted == old(accepted)[n := id]
        case Some(Reject(id)) => NoNews(old(accepted), mine, toOthers, fits) && TakenBack(id, old(accepted), accepted, mine, fits)
        case None => NoNews(accepted, mine, toOthers, fits) && forall n | n in accepted && n !in mine :: !fits(n)
    {
      var news := FindNews(mine, random, fits);
      hide ProperTable, Untold, Pending, HasId, Wanted, ReceiveAll, IsNews, NoNews, TakenBack;
      if news.Some? {
        var (n, id) := news.value;
        NewsWanted(n, accepted, mine, toOthers);
        Tell(n, id, mine);
        return Some(Accept(id, n));
      }
      var gone := FindGone(mine, fits);
      if gone.Some? {
        var out := accepted[gone.value];
        TakesBack(gone.value, accepted, mine, fits);
        Withdraw(gone.value, mine);
        return Some(Reject(out));
      }
      msg := None;
      NothingToTell(accepted, mine, toOthers, fits);
      assert sent + [] == sent;
    }

    method FindNews(mine: map<string, bool>, random: nat, fits: string -> bool) returns (news: Option<(string, nat)>)
      requires Valid() && |accepted.Keys + Wanted(mine, toOthers)| <= MAX_SERVICES
      ensures match news
        case Some((n, id)) => IsNews(n, accepted, mine, toOthers) && fits(n) && !HasId(accepted, id) && id < 2 * MAX_SERVICES
        case None => NoNews(accepted, mine, toOthers, fits)
    {
      var todo := mine.Keys;
      while todo != {}
        invariant todo <= mine.Keys && forall n | IsNews(n, accepted, mine, toOthers) && n !in todo :: !fits(n)
        decreases |todo|
      {
        var n :| n in todo;
        todo := todo - {n};
        if toOthers && !mine[n] { continue; }
        if n !in accepted {
          Room(accepted, Wanted(mine, toOthers), n);
          var id := GetFreshServiceId(accepted, random);
          assert id.Some?;
          if fits(n) { return Some((n, id.value)); }
        }
      }
      news := None;
    }

    method FindGone(mine: map<string, bool>, fits: string -> bool) returns (gone: Option<string>)
      ensures match gone
        case Some(n) => n in accepted && n !in mine && fits(n)
        case None => forall n | n in accepted && n !in mine :: !fits(n)
    {
      var todo := accepted.Keys;
      while todo != {}
        invariant todo <= accepted.Keys && forall n | n in accepted && n !in mine && n !in todo :: !fits(n)
        decreases |todo|
      {
        var n :| n in todo;
        todo := todo - {n};
        if n !in mine && fits(n) { return Some(n); }
      }
      gone := None;
    }

    method Tell(n: string, id: nat, ghost mine: map<string, bool>)
      requires Valid() && n !in accepted && n != "" && n in Wanted(mine, toOthers) && !HasId(accepted, id) && id < 2 * MAX_SERVICES
      modifies this
      ensures Valid() && sent == old(sent) + [Accept(id, n)] && accepted == old(accepted)[n := id]
      ensures |Untold(accepted, mine, toOthers)| == |Untold(old(accepted), mine, toOthers)| - 1
    {
      Told(accepted, n, id, mine, toOthers);
      hide ProperTable, Receive, Untold, HasId;
      ghost var m := Accept(id, n);
      assert (sent + [m])[..|sent|] == sent;
      accepted := accepted[n := id];
      sent := sent + [m];
    }

    method Withdraw(n: string, ghost mine: map<string, bool>)
      requires Valid() && n in accepted && n !in mine
      modifies this
      ensures Valid() && sent == old(sent) + [Reject(old(accepted)[n])] && accepted == old(accepted) - {n}
      ensures |Untold(accepted, mine, toOthers)| == |Untold(old(accepted), mine, toOthers)| - 1
    {
      Withdrawn(accepted, n, mine, toOthers);
      hide ProperTable, Receive, Untold, HasId;
      ghost var m := Reject(accepted[n]);
      assert (sent + [m])[..|sent|] == sent;
      accepted := accepted - {n};
      sent := sent + [m];
    }
  }

  lemma Told(t: Table, n: string, id: nat, mine: map<string, bool>, toOthers: bool)
    requires ProperTable(t) && n !in t && n != "" && n in Wanted(mine, toOthers) && !HasId(t, id) && id < 2 * MAX_SERVICES
    ensures ProperTable(t[n := id]) && Receive(t, Accept(id, n)) == t[n := id]
    ensures |Untold(t[n := id], mine, toOthers)| == |Untold(t, mine, toOthers)| - 1
  {
    hide *;
    OneMoreProper(t, n, id);
    AcceptUnderstoodIff(t, id, n);
    ToldFewer(t, n, id, mine, toOthers);
  }

  lemma ToldFewer(t: Table, n: string, id: nat, mine: map<string, bool>, toOthers: bool)
    requires n !in t && n in Wanted(mine, toOthers)
    ensures |Untold(t[n := id], mine, toOthers)| == |Untold(t, mine, toOthers)| - 1
  {
    WantedOffered(mine, toOthers);
    TellsOne(Wanted(mine, toOthers), t.Keys, mine.Keys, n);
    assert t[n := id].Keys == t.Keys + {n};
    hide Wanted, Pending;
    OneFewer(Untold(t, mine, toOthers), Untold(t[n := id], mine, toOthers), n);
  }

  lemma OneMoreProper(t: Table, n: string, id: nat)
    requires ProperTable(t) && n !in t && n != "" && !HasId(t, id) && id < 2 * MAX_SERVICES
    ensures ProperTable(t[n := id])
  {
  }

  lemma OneLessProper(t: Table, n: string)
    requires ProperTable(t) && n in t
    ensures ProperTable(t - {n})
  {
  }

  lemma WantedOffered(mine: map<string, bool>, toOthers: bool)
    ensures Wanted(mine, toOthers) <= mine.Keys
  {
  }

  lemma Withdrawn(t: Table, n: string, mine: map<string, bool>, toOthers: bool)
    requires ProperTable(t) && n in t && n !in mine
    ensures ProperTable(t - {n}) && Receive(t, Reject(t[n])) == t - {n}
    ensures |Untold(t - {n}, mine, toOthers)| == |Untold(t, mine, toOthers)| - 1
  {
    OneLessProper(t, n);
    RejectOne(t, n);
    hide *;
    WithdrawnFewer(t, n, mine, toOthers);
  }

  lemma WithdrawnFewer(t: Table, n: string, mine: map<string, bool>, toOthers: bool)
    requires n in t && n !in mine
    ensures |Untold(t - {n}, mine, toOthers)| == |Untold(t, mine, toOthers)| - 1
  {
    WantedOffered(mine, toOthers);
    WithdrawsOne(Wanted(mine, toOthers), t.Keys, mine.Keys, n);
    assert (t - {n}).Keys == t.Keys - {n};
    hide Wanted, Pending;
    OneFewer(Untold(t, mine, toOthers), Untold(t - {n}, mine, toOthers), n);
  }

  /** A name changes sides: from not told to told, or from told to withdrawn. */
  lemma TellsOne(wanted: set<string>, told: set<string>, offered: set<string>, n: string)
    requires wanted <= offered && n !in told && n in wanted
    ensures Pending(wanted, told, offered) == Pending(wanted, told + {n}, offered) + {n}
    ensures n !in Pending(wanted, told + {n}, offered)
  {
  }

  lemma WithdrawsOne(wanted: set<string>, told: set<string>, offered: set<string>, n: string)
    requires wanted <= offered && n in told && n !in offered
    ensures Pending(wanted, told, offered) == Pending(wanted, told - {n}, offered) + {n}
    ensures n !in Pending(wanted, told - {n}, offered)
  {
  }

  lemma OneFewer(before: set<string>, after: set<string>, n: string)
    requires before == after + {n} && n !in after
    ensures |after| == |before| - 1
  {
  }

  lemma Room(t: Table, wanted: set<string>, n: string)
    requires |t.Keys + wanted| <= MAX_SERVICES && n in wanted && n !in t
    ensures |t| < MAX_SERVICES
  {
    SmallerSet(t.Keys, n, t.Keys + wanted);
    assert |t.Keys| == |t|;
  }

  lemma SmallerSet(a: set<string>, n: string, b: set<string>)
    requires a <= b && n in b && n !in a
    ensures |a| < |b|
  {
    var rest := b - (a + {n});
    assert b == (a + {n}) + rest;
    assert |a + {n}| == |a| + 1;
  }

  // ----- what may be taken for granted, and what not -----

  /** A partner with the same table takes a new service over exactly if it has a name. */
  lemma AcceptUnderstoodIff(t: Table, id: nat, name: string)
    requires ProperTable(t) && name !in t && !HasId(t, id) && id < 2 * MAX_SERVICES
    ensures Receive(t, Accept(id, name)) == t[name := id] <==> name != ""
  {
    if name == "" {
      assert name in t[name := id];
    }
  }

  /** Numbers never stand for two services, however messages are mixed up. */
  lemma {:induction false} AlwaysInjective(ms: seq<Msg>)
    ensures Injective(ReceiveAll(map[], ms))
  {
    if ms != [] {
      AlwaysInjective(ms[..|ms| - 1]);
      ReceiveInjective(ReceiveAll(map[], ms[..|ms| - 1]), ms[|ms| - 1]);
    }
  }
}
