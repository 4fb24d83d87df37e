/** A set of name filters in three classes, with a cache of verdicts. */
module FiltersSet {

  /** `bare`: made from an empty text, so that the name was never set. `idx` is the list of
      array indexes the filter asks for; it plays no part in verdicts on names. */
  datatype Filter<+Idx> = Filter(name: string, idx: Idx, bare: bool)

  datatype Class = Stars | Pattern | Exact

  predicate AllStars(s: string) { forall k | 0 <= k < |s| :: s[k] == '*' }

  predicate HasSpecial(s: string) {
    exists k | 0 <= k < |s| :: s[k] == '*' || s[k] == '?' || s[k] == '{' || s[k] == '}'
  }

  function ClassOf<Idx>(f: Filter<Idx>): Class {
    if f.bare then Exact
    else if f.name != "" && AllStars(f.name) then Stars
    else if f.name == "" || HasSpecial(f.name) then Pattern
    else Exact
  }

  /** Where a name is looked for when it is erased. */
  function EraseClass(name: string): Class {
    if AllStars(name) then Stars else if HasSpecial(name) then Pattern else Exact
  }

  /** The flags have eight bits for the number of stars. */
  const MOST_STARS: nat := 255

  function StarCount<Idx>(f: Filter<Idx>): nat {
    if ClassOf(f) != Stars then 0 else if |f.name| < MOST_STARS then |f.name| else MOST_STARS
  }

  type FilterMap<Idx> = map<string, Filter<Idx>>

  datatype Sets<Idx> = Sets(onlyStars: FilterMap<Idx>, patterns: FilterMap<Idx>, exact: FilterMap<Idx>)

  function Part<Idx>(s: Sets<Idx>, c: Class): FilterMap<Idx> {
    match c
    case Stars => s.onlyStars
    case Pattern => s.patterns
    case Exact => s.exact
  }

  function WithPart<Idx>(s: Sets<Idx>, c: Class, m: FilterMap<Idx>): Sets<Idx> {
    match c
    case Stars => s.(onlyStars := m)
    case Pattern => s.(patterns := m)
    case Exact => s.(exact := m)
  }

  /** The filter really added: one star fewer if stars are degraded. */
  function Degraded<Idx>(f: Filter<Idx>, degrade: bool): Filter<Idx> {
    if degrade && StarCount(f) > 1 then f.(name := f.name[..|f.name| - 1]) else f
  }

  /** How the indexes of two filters of one name become one, and whether that is a change. */
  type Merge<!Idx> = (Idx, Idx) -> (Idx, bool)

  function Add<Idx(==)>(s: Sets<Idx>, f: Filter<Idx>, degrade: bool, replace: bool, merge: Merge<Idx>): (Sets<Idx>, bool) {
    if degrade && StarCount(f) == 1 then (s, false)
    else
      var g, c := Degraded(f, degrade), ClassOf(f);
      var m := Part(s, c);
      if g.name !in m then (WithPart(s, c, m[g.name := g]), true)
      else if replace then (WithPart(s, c, m[g.name := g]), m[g.name].idx != g.idx)
      else
        var (idx, changed) := merge(m[g.name].idx, g.idx);
        (WithPart(s, c, m[g.name := m[g.name].(idx := idx)]), changed)
  }

  function Erase<Idx>(s: Sets<Idx>, name: string): Sets<Idx> {
    WithPart(s, EraseClass(name), Part(s, EraseClass(name)) - {name})
  }

  /** Does a name pass? `matches` is the shell's pattern matching. */
  predicate Verdict<Idx>(s: Sets<Idx>, matches: (string, string) -> bool, name: string) {
    || s.onlyStars != map[]
    || name in s.exact
    || exists p | p in s.patterns :: matches(p, name)
  }

  predicate IsLongest<Idx>(m: FilterMap<Idx>, n: nat) {
    && (forall k | k in m :: |k| <= n)
    && (n > 0 ==> exists k | k in m :: |k| == n)
  }

  /** Every name is where its class says. */
  ghost predicate Sorted<Idx>(s: Sets<Idx>) {
    && (forall n | n in s.onlyStars :: n != "" && AllStars(n))
    && (forall n | n in s.patterns :: n == "" || (HasSpecial(n) && !AllStars(n)))
    && (forall n | n in s.exact :: n == "" || !HasSpecial(n))
  }

  lemma StarsAreSpecial(s: string)
    requires s != "" && AllStars(s)
    ensures HasSpecial(s)
  {
    assert s[0] == '*';
  }

  lemma AddSorted<Idx>(s: Sets<Idx>, f: Filter<Idx>, degrade: bool, replace: bool, merge: Merge<Idx>)
    requires Sorted(s) && (f.bare ==> f.name == "")
    ensures Sorted(Add(s, f, degrade, replace, merge).0)
  {
  }

  /** A change of verdict needs a change, and every change is announced. */
  lemma UnchangedVerdict<Idx>(s: Sets<Idx>, f: Filter<Idx>, degrade: bool, replace: bool, merge: Merge<Idx>,
                              matches: (string, string) -> bool, name: string)
    requires !Add(s, f, degrade, replace, merge).1
    ensures Verdict(Add(s, f, degrade, replace, merge).0, matches, name) == Verdict(s, matches, name)
  {
    var s1 := Add(s, f, degrade, replace, merge).0;
    assert s1.patterns.Keys == s.patterns.Keys && s1.exact.Keys == s.exact.Keys && s1.onlyStars.Keys == s.onlyStars.Keys;
    assert s1.onlyStars == map[] <==> s1.onlyStars.Keys == {};
    assert s.onlyStars == map[] <==> s.onlyStars.Keys == {};
  }

  /** Every filter that is in the set by its name can be erased by it, but for the empty
      name, which is looked for among the stars. */
  lemma ErasesIff<Idx>(s: Sets<Idx>, f: Filter<Idx>)
    requires Sorted(s) && f.name in Part(s, ClassOf(f)) && (f.bare ==> f.name == "")
    ensures f.name !in Part(Erase(s, f.name), ClassOf(f)) <==> f.name != ""
  {
    if f.name != "" && AllStars(f.name) { StarsAreSpecial(f.name); }
  }

  /** Does a filter of this name let `name` pass? Stars alone let everything pass, other
      patterns what they match, and a plain name itself. */
  predicate Passes<Idx>(f: Filter<Idx>, matches: (string, string) -> bool, name: string) {
    if f.bare then name == ""
    else if f.name == "" || (HasSpecial(f.name) && !AllStars(f.name)) then matches(f.name, name)
    else AllStars(f.name) || name == f.name
  }

  /** With a new filter exactly the names pass that passed before, and those the filter lets
      pass. A single star that is to lose a star adds nothing. */
  lemma AddPasses<Idx>(s: Sets<Idx>, f: Filter<Idx>, degrade: bool, replace: bool, merge: Merge<Idx>,
                       matches: (string, string) -> bool, name: string)
    requires f.bare ==> f.name == ""
    ensures Verdict(Add(s, f, degrade, replace, merge).0, matches, name) <==>
            Verdict(s, matches, name) || (Passes(f, matches, name) && !(degrade && !f.bare && f.name == "*"))
  {
    var s1 := Add(s, f, degrade, replace, merge).0;
    if f.name != "" && AllStars(f.name) { StarsAreSpecial(f.name); }
    if degrade && StarCount(f) == 1 {
      assert f.name == "*";
    } else {
      var g := Degraded(f, degrade);
      assert !(degrade && f.name == "*" && !f.bare);
      hide StarCount, Degraded;
      assert g.name in Part(s1, ClassOf(f));
    }
  }

  /** Nothing passes without filters. */
  lemma NothingPasses<Idx>(s: Sets<Idx>, matches: (string, string) -> bool, name: string)
    requires s == Sets(map[], map[], map[])
    ensures !Verdict(s, matches, name)
  {
  }

  /** Erasing takes a filter back that was not there before it was added, but for the empty
      name. */
  lemma EraseUndoesAdd<Idx>(s: Sets<Idx>, f: Filter<Idx>, replace: bool, merge: Merge<Idx>)
    requires Sorted(s) && (f.bare ==> f.name == "") && f.name !in Part(s, ClassOf(f))
    ensures Erase(Add(s, f, false, replace, merge).0, f.name) == s <==> f.name != ""
  {
  }

  lemma StarsStay<Idx>(f: Filter<Idx>, degrade: bool)
    requires StarCount(f) > 0 && !(degrade && StarCount(f) == 1)
    ensures var g := Degraded(f, degrade);
            StarCount(g) == if |g.name| < MOST_STARS then |g.name| else MOST_STARS
  {
  }

  lemma LongestWith<Idx>(m: FilterMap<Idx>, n: nat, m1: FilterMap<Idx>, name: string)
    requires IsLongest(m, n) && m1.Keys == m.Keys + {name}
    ensures IsLongest(m1, if n < |name| then |name| else n)
  {
    if n > 0 {
      var k :| k in m && |k| == n;
      assert k in m1;
    }
    assert name in m1.Keys;
  }

  // ----- the set itself -----

  class CCmFiltersSet<Idx(==, !new)> {
    const matches: (string, string) -> bool
    const merge: Merge<Idx>
    var onlyStars: FilterMap<Idx>
    var patterns: FilterMap<Idx>
    var exact: FilterMap<Idx>
    var starMaxCount: nat
    var smart: bool
    var smartMap: map<string, bool>
    /** A name of more than 255 stars was added since the set was last cleared. */
    ghost var long: bool

    constructor (matches: (string, string) -> bool, merge: Merge<Idx>)
      ensures Valid() && Value() == Sets(map[], map[], map[]) && !smart && this.matches == matches && this.merge == merge
    {
      this.matches, this.merge := matches, merge;
      onlyStars, patterns, exact := map[], map[], map[];
      starMaxCount, smart, smartMap, long := 0, false, map[], false;
    }

    ghost function Value(): Sets<Idx>
      reads this
    {
      Sets(onlyStars, patterns, exact)
    }

    /** What is cached is what a search would find. */
    ghost predicate Valid()
      reads this
    {
      && Sorted(Value())
      && (smart ==> forall n | n in smartMap :: smartMap[n] == Verdict(Value(), matches, n))
      && (!long ==> IsLongest(onlyStars, starMaxCount) && starMaxCount <= MOST_STARS)
    }

    method SmartClear()
      modifies this`smartMap
      ensures smart ==> smartMap == map[]
      ensures !smart ==> smartMap == old(smartMap)
    {
      if smart { smartMap := map[]; }
    }

    method SetSmart(on: bool)
      requires Valid()
      modifies this`smart, this`smartMap
      ensures Valid() && smart == on
    {
      if smart != on {
        smart := on;
        SmartClear();
      }
    }

    method Clear()
      requires Valid()
      modifies this
      ensures Valid() && Value() == Sets(map[], map[], map[]) && smart == old(smart)
    {
      onlyStars, patterns, exact := map[], map[], map[];
      SmartClear();
      starMaxCount, long := 0, false;
    }

    method AddFilter(f: Filter<Idx>, degrade: bool, removeBefore: bool) returns (changed: bool)
      requires Valid() && (f.bare ==> f.name == "")
      modifies this
      ensures Valid() && smart == old(smart)
      ensures (Value(), changed) == Add(old(Value()), f, degrade, removeBefore, merge)
    {
      AddSorted(Value(), f, degrade, removeBefore, merge);
      ghost var before := Value();
      if degrade && StarCount(f) == 1 { return false; }
      changed := Place(f, degrade, removeBefore);
      if changed {
        SmartClear();
      } else {
        forall n | n in smartMap ensures smart ==> smartMap[n] == Verdict(Value(), matches, n) {
          UnchangedVerdict(before, f, degrade, removeBefore, merge, matches, n);
        }
      }
    }

    /** Into the map of its class. */
    method Place(f: Filter<Idx>, degrade: bool, removeBefore: bool) returns (changed: bool)
      requires !(degrade && StarCount(f) == 1)
      requires !long ==> IsLongest(onlyStars, starMaxCount) && starMaxCount <= MOST_STARS
      modifies this`onlyStars, this`patterns, this`exact, this`starMaxCount, this`long
      ensures (Value(), changed) == Add(old(Value()), f, degrade, removeBefore, merge)
      ensures !long ==> IsLongest(onlyStars, starMaxCount) && starMaxCount <= MOST_STARS
    {
      var count := StarCount(f);
      var g := Degraded(f, degrade);
      if count > 0 {
        count := StarCount(g);
        StarsStay(f, degrade);
        ghost var before := onlyStars;
        if |g.name| > MOST_STARS { long := true; }
        onlyStars, changed := Put(onlyStars, g, removeBefore);
        if !long { LongestWith(before, starMaxCount, onlyStars, g.name); }
        if starMaxCount < count { starMaxCount := count; }
      } else if ClassOf(f) == Pattern {
        patterns, changed := Put(patterns, g, removeBefore);
      } else {
        exact, changed := Put(exact, g, removeBefore);
      }
    }

    method Put(m: FilterMap<Idx>, g: Filter<Idx>, removeBefore: bool) returns (m1: FilterMap<Idx>, changed: bool)
      ensures (m1, changed) ==
              if g.name !in m then (m[g.name := g], true)
              else if removeBefore then (m[g.name := g], m[g.name].idx != g.idx)
              else (m[g.name := m[g.name].(idx := merge(m[g.name].idx, g.idx).0)], merge(m[g.name].idx, g.idx).1)
    {
      if g.name in m {
        if removeBefore {
          changed := m[g.name].idx != g.idx;
          m1 := m[g.name := g];
        } else {
          var merged := merge(m[g.name].idx, g.idx);
          m1, changed := m[g.name := m[g.name].(idx := merged.0)], merged.1;
        }
      } else {
        m1 := m[g.name := g];
        changed := true;
      }
    }

    method EraseName(name: string) returns (changed: bool)
      requires Valid()
      modifies this
      ensures Valid() && smart == old(smart)
      ensures Value() == Erase(old(Value()), name)
      ensures Value() != old(Value()) ==> changed
    {
      changed := false;
      var update := false;
      if AllStars(name) {
        update := |name| == starMaxCount;
        if name in onlyStars { onlyStars, changed := onlyStars - {name}, true; }
      } else if HasSpecial(name) {
        if name in patterns { patterns, changed := patterns - {name}, true; }
      } else {
        if name in exact { exact, changed := exact - {name}, true; }
      }
      assert onlyStars - {name} == onlyStars || !AllStars(name);
      if update {
        var any := UpdateStarMaxCount();
        if any { changed := true; }
      }
      if changed { SmartClear(); }
    }

    method UpdateStarMaxCount() returns (any: bool)
      modifies this`starMaxCount
      ensures IsLongest(onlyStars, starMaxCount) && any == (starMaxCount > 0)
    {
      starMaxCount, any := 0, false;
      var todo := onlyStars.Keys;
      while todo != {}
        invariant todo <= onlyStars.Keys
        invariant forall k | k in onlyStars && k !in todo :: |k| <= starMaxCount
        invariant starMaxCount > 0 ==> exists k | k in onlyStars :: |k| == starMaxCount
        invariant any == (starMaxCount > 0)
        decreases |todo|
      {
        var k :| k in todo;
        if starMaxCount < |k| { starMaxCount, any := |k|, true; }
        todo := todo - {k};
      }
    }

    /** The verdict on a name with a prefix: from the cache if it is there, and put there. */
    method Test(name: string, prefix: string) returns (passes: bool)
      requires Valid()
      modifies this`smartMap
      ensures Valid()
      ensures passes == Verdict(Value(), matches, prefix + name)
    {
      var full := name;
      if prefix != "" { full := prefix + full; }
      assert full == prefix + name;
      if smart && full in smartMap { return smartMap[full]; }
      passes := Search(full);
      if smart { smartMap := smartMap[full := passes]; }
    }

    method Search(full: string) returns (passes: bool)
      ensures passes == Verdict(Value(), matches, full)
    {
      if |onlyStars| > 0 { return true; }
      if full in exact { return true; }
      var todo := patterns.Keys;
      while todo != {}
        invariant todo <= patterns.Keys
        invariant forall p | p in patterns && p !in todo :: !matches(p, full)
        decreases |todo|
      {
        var p :| p in todo;
        if matches(p, full) { return true; }
        todo := todo - {p};
      }
      passes := false;
    }
  }
}
