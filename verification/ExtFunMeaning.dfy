/** What the commands do, said of whole runs: which branch is taken, when a loop goes on, what
    an assignment evaluates, and until when a command waits. */
module ExtFunMeaning {
  import opened ExtFunMachine
  import opened ExtFunResume
  import opened ExtFun

  /** The frames inside branch `b` of command `i`, and behind it. */
  function InBranch(proc: Proc, at: seq<nat>, i: nat, b: nat): Kont
    requires i < |proc.cmds| && (proc.cmds[i].If? || proc.cmds[i].Case?) && b < |proc.cmds[i].branches|
  {
    [Block(at + [i, b], proc.cmds[i].branches[b], 0), Block(at, proc, i + 1)]
  }

  // ----- conditionals -----

  /** The first test decides: true for the first branch, false for the second one, if there
      is one. */
  lemma IfMeans<M>(w: World<M>, proc: Proc, at: seq<nat>, i: nat, st: Regs<M>, fuel: nat)
    requires i < |proc.cmds| && proc.cmds[i].If?
    ensures var c, r := proc.cmds[i], Run(w, [Block(at, proc, i)], st, fuel);
            if c.tests == [] || c.branches == [] then r == Res(Failed, st, fuel, [], []) else
              var e := w.lib.eval(c.tests[0], st.mup);
              var st1 := st.(mup := e.mup);
              if !e.ok then r == Res(Failed, st1, fuel, [], [])
              else if e.truth then r == Run(w, InBranch(proc, at, i, 0), st1, fuel)
              else if |c.branches| > 1 then r == Run(w, InBranch(proc, at, i, 1), st1, fuel)
              else r == Run(w, [Block(at, proc, i + 1)], st1, fuel)
  {
    hide Run;
    if Min(|proc.cmds[i].tests|, |proc.cmds[i].branches|) == 0 {
      NoBranch(w, proc, at, i, st, fuel);
    } else {
      BranchUnfold(w, proc, at, i, st, fuel);
    }
  }

  /** The evaluator's memory after the first `n` tests. */
  function Tested<M>(w: World<M>, mup: M, tests: seq<string>, n: nat): M
    requires n <= |tests|
  {
    if n == 0 then mup else w.lib.eval(tests[n - 1], Tested(w, mup, tests, n - 1)).mup
  }

  /** The first `n` tests evaluate, and none of them holds. */
  predicate NoneHolds<M>(w: World<M>, mup: M, tests: seq<string>, n: nat)
    requires n <= |tests|
  {
    forall u | 0 <= u < n :: w.lib.eval(tests[u], Tested(w, mup, tests, u)).ok && !w.lib.eval(tests[u], Tested(w, mup, tests, u)).truth
  }

  lemma {:induction false} PickFrom<M>(w: World<M>, mup: M, tests: seq<string>, n: nat, u: nat)
    requires u <= Min(|tests|, n) && NoneHolds(w, mup, tests, u)
    ensures PickCase(w, mup, tests, n, 0) == PickCase(w, Tested(w, mup, tests, u), tests, n, u)
  {
    if u > 0 {
      PickFrom(w, mup, tests, n, u - 1);
    }
  }

  /** The first test that holds names the branch, and no later one is evaluated. */
  lemma CaseMeans<M>(w: World<M>, proc: Proc, at: seq<nat>, i: nat, u: nat, st: Regs<M>, fuel: nat)
    requires i < |proc.cmds| && proc.cmds[i].Case?
    requires var c := proc.cmds[i]; u < |c.tests| && u < |c.branches| && NoneHolds(w, st.mup, c.tests, u)
    ensures var c, r := proc.cmds[i], Run(w, [Block(at, proc, i)], st, fuel);
            var e := w.lib.eval(c.tests[u], Tested(w, st.mup, c.tests, u));
            var st1 := st.(mup := e.mup);
            && (!e.ok ==> r == Res(Failed, st1, fuel, [], []))
            && (e.ok && e.truth ==> r == Run(w, InBranch(proc, at, i, u), st1, fuel))
  {
    hide Run;
    BranchUnfold(w, proc, at, i, st, fuel);
    PickFrom(w, st.mup, proc.cmds[i].tests, |proc.cmds[i].branches|, u);
  }

  /** Without one, the extra branch is taken if there is one more than tests. */
  lemma CaseElseMeans<M>(w: World<M>, proc: Proc, at: seq<nat>, i: nat, st: Regs<M>, fuel: nat)
    requires i < |proc.cmds| && proc.cmds[i].Case?
    requires var c := proc.cmds[i]; NoneHolds(w, st.mup, c.tests, Min(|c.tests|, |c.branches|))
    ensures var c, r := proc.cmds[i], Run(w, [Block(at, proc, i)], st, fuel);
            var n := Min(|c.tests|, |c.branches|);
            var st1 := st.(mup := Tested(w, st.mup, c.tests, n));
            if n == 0 then r == Res(Failed, st, fuel, [], [])
            else if |c.branches| > |c.tests| then r == Run(w, InBranch(proc, at, i, |c.tests|), st1, fuel)
            else r == Run(w, [Block(at, proc, i + 1)], st1, fuel)
  {
    hide Run;
    var c := proc.cmds[i];
    var n := Min(|c.tests|, |c.branches|);
    if n == 0 {
      NoBranch(w, proc, at, i, st, fuel);
    } else {
      BranchUnfold(w, proc, at, i, st, fuel);
      PickFrom(w, st.mup, c.tests, |c.branches|, n);
    }
  }

  // ----- assignments -----

  /** What an assignment does: all of its targets that exist are recorded as changed; unless
      one does not, the expression is evaluated, and that decides. */
  ghost predicate Assigns<M>(w: World<M>, st: Regs<M>, expr: string, mods: seq<string>, st1: Regs<M>, ok: bool) {
    && st1 == st.(mup := st1.mup, updateSet := st1.updateSet, updateAll := st1.updateAll)
    && (forall m :: Exists(w, st1, m) == Exists(w, st, m))
    && (forall m :: m in st1.updateSet <==> m in st.updateSet || (m in mods && Exists(w, st, m)))
    && (if exists m | m in mods :: !Exists(w, st, m) then ok && st1.mup == st.mup
        else ok == w.lib.eval(expr, st.mup).ok && st1.mup == w.lib.eval(expr, st.mup).mup)
  }

  lemma AssignMeans<M>(w: World<M>, st: Regs<M>, expr: string, mods: seq<string>)
    ensures var (st1, ok) := Assign(w, st, expr, mods); Assigns(w, st, expr, mods, st1, ok)
  {
    var bad := ModifyAll(w, st, mods, Update).1;
    var st1 := Assign(w, st, expr, mods).0;
    forall m
      ensures Exists(w, st1, m) == Exists(w, st, m)
      ensures m in st1.updateSet <==> m in st.updateSet || (m in mods && Exists(w, st, m))
      ensures m in mods && !Exists(w, st, m) ==> bad
    {
      ModifyAllMeans(w, st, mods, Update, m);
    }
    ModifyAllMeans(w, st, mods, Update, "");
    BadMeans(w, st, mods);
    hide ModifyAll, Exists;
  }

  lemma {:induction false} BadMeans<M>(w: World<M>, st: Regs<M>, mods: seq<string>)
    ensures ModifyAll(w, st, mods, Update).1 ==> exists m | m in mods :: !Exists(w, st, m)
    decreases |mods|
  {
    if mods != [] {
      var front, last := mods[..|mods| - 1], mods[|mods| - 1];
      BadMeans(w, st, front);
      ModifyAllMeans(w, st, front, Update, last);
      ModifyMeans(w, ModifyAll(w, st, front, Update).0, last, Update);
      hide Modify, Exists;
    }
  }

  lemma SetMeans<M>(w: World<M>, proc: Proc, at: seq<nat>, i: nat, st: Regs<M>, fuel: nat) returns (st1: Regs<M>, ok: bool)
    requires i < |proc.cmds| && proc.cmds[i].Set?
    ensures var Set(expr, mods) := proc.cmds[i];
            if Blank(expr) then st1 == st && ok else Assigns(w, st, expr, mods, st1, ok)
    ensures Run(w, [Block(at, proc, i)], st, fuel) ==
            if ok then Run(w, [Block(at, proc, i + 1)], st1, fuel) else Res(Failed, st1, fuel, [], [])
  {
    hide Run, Assign, Assigns;
    var Set(expr, mods) := proc.cmds[i];
    Unfold(w, proc, at, i, st, fuel);
    AssignMeans(w, st, expr, mods);
    var next: Kont := [Block(at, proc, i + 1)];
    assert [] + next == next;
    if Blank(expr) { st1, ok := st, true; } else { st1, ok := Assign(w, st, expr, mods).0, Assign(w, st, expr, mods).1; }
  }

  /** After DEF exactly the variables named that may be defined exist besides those before;
      after UNDEF none of those named. */
  lemma DefMeans<M>(w: World<M>, proc: Proc, at: seq<nat>, i: nat, st: Regs<M>, fuel: nat) returns (st1: Regs<M>)
    requires i < |proc.cmds| && (proc.cmds[i].Def? || proc.cmds[i].Undef?)
    ensures Run(w, [Block(at, proc, i)], st, fuel) == Run(w, [Block(at, proc, i + 1)], st1, fuel)
    ensures st1 == st.(mup := st1.mup, updateSet := st1.updateSet, updateAll := st1.updateAll)
    ensures var c := proc.cmds[i];
            forall m :: Exists(w, st1, m) <==> if c.Def? then Exists(w, st, m) || (m in c.mods && m in w.extVars)
                                               else Exists(w, st, m) && m !in c.mods
  {
    hide Run;
    var c := proc.cmds[i];
    Unfold(w, proc, at, i, st, fuel);
    var what := if c.Def? then Define else Undefine;
    st1 := ModifyAll(w, st, c.mods, what).0;
    var next: Kont := [Block(at, proc, i + 1)];
    assert [] + next == next;
    hide ModifyAll, Exists;
    ModifyAllMeans(w, st, c.mods, what, "");
    forall m
      ensures Exists(w, st1, m) <==> if c.Def? then Exists(w, st, m) || (m in c.mods && m in w.extVars)
                                     else Exists(w, st, m) && m !in c.mods
    {
      ModifyAllMeans(w, st, c.mods, what, m);
    }
  }

  // ----- loops -----

  /** A loop begins with its test, a FOR after its first assignment. */
  lemma LoopBegins<M>(w: World<M>, proc: Proc, at: seq<nat>, i: nat, st: Regs<M>, fuel: nat) returns (st1: Regs<M>, ok: bool)
    requires i < |proc.cmds| && (proc.cmds[i].For? || proc.cmds[i].While?)
    ensures var c := proc.cmds[i]; if c.For? then Assigns(w, st, c.init, c.mods, st1, ok) else st1 == st && ok
    ensures var c, here, next := proc.cmds[i], at + [i, 0], Block(at, proc, i + 1);
            Run(w, [Block(at, proc, i)], st, fuel) ==
            if !ok then Res(Failed, st1, fuel, [], [])
            else if c.For? then Run(w, [ForTest(here, c), next], st1, fuel) else Run(w, [WhileTest(here, c), next], st1, fuel)
  {
    hide Run, Assign, Assigns;
    var c := proc.cmds[i];
    st1, ok := st, true;
    if c.For? {
      ForUnfold(w, proc, at, i, st, fuel);
      AssignMeans(w, st, c.init, c.mods);
      st1, ok := Assign(w, st, c.init, c.mods).0, Assign(w, st, c.init, c.mods).1;
    } else {
      WhileUnfold(w, proc, at, i, st, fuel);
    }
    var next: Kont := [Block(at, proc, i + 1)];
    assert LoopTest(c, at + [i, 0]) + next == [LoopTest(c, at + [i, 0])[0], next[0]];
  }

  /** While the test holds the body is done, then the step of a FOR, and then it is tested
      again. */
  lemma LoopGoesOn<M>(w: World<M>, c: Cmd, here: seq<nat>, k: Kont, st: Regs<M>, fuel: nat)
    requires c.For? || c.While?
    ensures var e := w.lib.eval(c.cond, st.mup);
            var st1 := st.(mup := e.mup);
            var test: Frame := if c.For? then ForTest(here, c) else WhileTest(here, c);
            var again: Frame := if c.For? then ForStep(here, c) else WhileTest(here, c);
            Run(w, [test] + k, st, fuel) ==
            if fuel == 0 then Res(OutOfFuel, st, 0, [], [])
            else if !e.ok then Res(Failed, st1, fuel - 1, [], [])
            else if e.truth then Run(w, [Block(here, c.body, 0), again] + k, st1, fuel - 1)
            else Run(w, k, st1, fuel - 1)
  {
    hide Run;
    UnfoldLoop(w, c, here, k, st, fuel);
    var body: Kont := [Block(here, c.body, 0)];
    assert body + After(c, here) == [Block(here, c.body, 0), After(c, here)[0]];
  }

  lemma ForSteps<M>(w: World<M>, c: Cmd, here: seq<nat>, k: Kont, st: Regs<M>, fuel: nat) returns (st1: Regs<M>, ok: bool)
    requires c.For?
    ensures Assigns(w, st, c.incr, c.mods, st1, ok)
    ensures Run(w, [ForStep(here, c)] + k, st, fuel) ==
            if ok then Run(w, [ForTest(here, c)] + k, st1, fuel) else Res(Failed, st1, fuel, [], [])
  {
    hide Run, Assign, Assigns;
    UnfoldForStep(w, c, here, k, st, fuel);
    AssignMeans(w, st, c.incr, c.mods);
    st1, ok := Assign(w, st, c.incr, c.mods).0, Assign(w, st, c.incr, c.mods).1;
  }

  // ----- interrupts -----

  /** A WAIT whose condition does not hold is passed. Otherwise the function is left, and
      goes on by itself exactly from its deadline on, if it has one, or at once, if it waits
      for nothing; it can be woken exactly by the variables it names. */
  lemma WaitMeans<M>(w: World<M>, proc: Proc, at: seq<nat>, i: nat, st: Regs<M>, fuel: nat)
    requires i < |proc.cmds| && proc.cmds[i].Wait?
    ensures var Wait(cond, timeout, vars) := proc.cmds[i];
            var r := Run(w, [Block(at, proc, i)], st, fuel);
            var e := w.lib.eval(cond, st.mup);
            var st1 := if cond == "" then st else st.(mup := e.mup);
            if cond != "" && !e.ok then r == Res(Failed, st1, fuel, [], [])
            else if cond != "" && !e.truth then r == Run(w, [Block(at, proc, i + 1)], st1, fuel)
            else
              var t := w.lib.eval(timeout, st1.mup);
              var timed := timeout != "" && t.number >= 0.0;
              if timeout != "" && !t.ok then r == Res(Failed, st1.(mup := t.mup), fuel, at + [i], [])
              else
                && r.out == Left && r.point == at + [i] && r.rest == [Block(at, proc, i + 1)] && r.fuel == fuel
                && r.st == st1.(mup := if timeout == "" then st1.mup else t.mup, waitVars := vars,
                                waitUntil := r.st.waitUntil, state := r.st.state)
                && (r.st.state in {StWaitVars, StWaitVarsAndTime} <==> vars != [])
                && forall now :: Awakened(r.st.state, now, r.st.waitUntil) == StRunning <==>
                                 if timed then now >= w.actTime + t.number else vars == []
  {
    hide Run;
    Unfold(w, proc, at, i, st, fuel);
    var next: Kont := [Block(at, proc, i + 1)];
    assert [] + next == next;
  }

  /** A function that runs is not stopped by waking it, and one that has ended, waits for
      variables only, or for its callee, is not started by time. */
  lemma WakingMeans(s: State, now: real, until: real)
    ensures s == StRunning ==> Awakened(s, now, until) == s
    ensures s in {StDone, StError, StWaitVars, StWaitCall} ==> Awakened(s, now, until) == s
    ensures Awakened(s, now, until) in {s, StRunning}
  {
  }

  /** A threaded call goes on at once, the other when the callee is done; KILL and FUNDEF go
      on with the next round. */
  lemma CallMeans<M>(w: World<M>, proc: Proc, at: seq<nat>, i: nat, st: Regs<M>, fuel: nat)
    requires i < |proc.cmds| && proc.cmds[i].Call?
    ensures var Call(mode1, mode2, callee, args) := proc.cmds[i];
            var r := Run(w, [Block(at, proc, i)], st, fuel);
            && r == Res(Left, r.st, fuel, at + [i], [Block(at, proc, i + 1)])
            && r.st == st.(callFun := callee, callMode2 := mode2, callParams := args, state := r.st.state)
            && (mode1 == WaitForCallee ==> r.st.state == StWaitCall)
            && forall now :: Awakened(r.st.state, now, r.st.waitUntil) == StRunning <==> mode1 == Threaded
  {
    hide Run;
    Unfold(w, proc, at, i, st, fuel);
  }

  lemma KillMeans<M>(w: World<M>, proc: Proc, at: seq<nat>, i: nat, st: Regs<M>, fuel: nat)
    requires i < |proc.cmds| && proc.cmds[i].Kill?
    ensures var r := Run(w, [Block(at, proc, i)], st, fuel);
            var e := w.lib.eval(proc.cmds[i].pattern, st.mup);
            if proc.cmds[i].pattern == "" then r == Run(w, [Block(at, proc, i + 1)], st, fuel)
            else if !e.ok then r == Res(Failed, st.(mup := e.mup), fuel, [], [])
            else r == Res(Left, st.(mup := e.mup, killName := e.text), fuel, at + [i], [Block(at, proc, i + 1)])
  {
    hide Run;
    Unfold(w, proc, at, i, st, fuel);
    var next: Kont := [Block(at, proc, i + 1)];
    assert [] + next == next;
  }

  lemma FunDefMeans<M>(w: World<M>, proc: Proc, at: seq<nat>, i: nat, st: Regs<M>, fuel: nat)
    requires i < |proc.cmds| && proc.cmds[i].FunDef? && |proc.cmds[i].params| > 1
    ensures var r := Run(w, [Block(at, proc, i)], st, fuel);
            var name := w.lib.eval(proc.cmds[i].params[0], st.mup);
            var code := w.lib.eval(proc.cmds[i].params[1], name.mup);
            if !name.ok then r == Res(Failed, st.(mup := name.mup), fuel, [], [])
            else if !code.ok then r == Res(Failed, st.(mup := code.mup), fuel, [], [])
            else r == Res(Left, st.(mup := code.mup, fundefName := name.text, fundefCode := code.text), fuel,
                          at + [i], [Block(at, proc, i + 1)])
  {
    hide Run;
    Unfold(w, proc, at, i, st, fuel);
  }
}
