/** The interpreter object: `DoProcedure` walks the command tree, and after an interrupt
    finds its way back by popping the saved run point. */
module ExtFun {
  import opened ExtFunMachine
  import opened ExtFunResume

  /** The frames from command `i` of `proc` on, when `p` is what is left of the run point
      after `i` itself was popped. */
  function FromCmd(proc: Proc, at: seq<nat>, i: nat, p: seq<nat>): Kont
    requires i <= |proc.cmds|
    requires p == [] || ValidPath(proc, [i] + p)
  {
    if p == [] then [Block(at, proc, i)] else Remaining(proc, at, [i] + p)
  }

  /** How the run `r` ended. */
  ghost predicate Ended<M>(r: Res<M>, out: Outcome, st: Regs<M>, left: nat, runPoint: seq<nat>) {
    out == r.out && st == r.st && left == r.fuel && runPoint == r.point
  }

  /** The run `r` either continues at command `i` of `proc`, or ended. */
  ghost predicate Reached<M>(w: World<M>, r: Res<M>, proc: Proc, at: seq<nat>, i: nat,
                             out: Outcome, st: Regs<M>, left: nat, runPoint: seq<nat>)
    requires i <= |proc.cmds|
  {
    if out.Done? then runPoint == [] && r == Run(w, [Block(at, proc, i)], st, left)
    else Ended(r, out, st, left, runPoint)
  }

  /** Running a branch and then the rest of the procedure. */
  lemma ChildThenRest<M>(w: World<M>, inner: Kont, after: Kont, next: Kont, st: Regs<M>, fuel: nat)
    ensures Composes(w, inner, after + next, st, fuel)
    ensures inner + (after + next) == inner + after + next
  {
    RunAppend(w, inner, after + next, st, fuel);
  }

  /** The stack inside branch `b` of a command, entered along `q`. */
  lemma ResumedStack(proc: Proc, at: seq<nat>, i: nat, b: nat, q: seq<nat>)
    requires i < |proc.cmds| && Enters(proc.cmds[i], b) && ValidPath(Child(proc.cmds[i], b), q)
    ensures ValidPath(proc, [i, b] + q)
    ensures var c, here := proc.cmds[i], at + [i, b];
            Remaining(proc, at, [i, b] + q) == Remaining(Child(c, b), here, q) + After(c, here) + [Block(at, proc, i + 1)]
  {
    var p := [i, b] + q;
    assert |p| > 1 && p[0] == i && p[1] == b && p[2..] == q;
  }

  /** The stack inside a conditional's branch `b`, entered afresh. */
  lemma FreshStack(proc: Proc, at: seq<nat>, i: nat, b: nat)
    requires i < |proc.cmds| && Enters(proc.cmds[i], b) && (proc.cmds[i].If? || proc.cmds[i].Case?)
    ensures at + [i] + [b] == at + [i, b]
    ensures var c, here := proc.cmds[i], at + [i, b];
            var next: Kont := [Block(at, proc, i + 1)];
            && Remaining(Child(c, b), here, []) + After(c, here) + next == [Block(here, c.branches[b], 0)] + next
            && After(c, here) + next == next
  {
  }

  lemma BranchStack(proc: Proc, at: seq<nat>, i: nat, b: nat, q: seq<nat>)
    requires i < |proc.cmds| && Enters(proc.cmds[i], b) && (proc.cmds[i].If? || proc.cmds[i].Case?)
    requires q == [] || ValidPath(Child(proc.cmds[i], b), q)
    ensures at + [i] + [b] == at + [i, b]
    ensures var c, here := proc.cmds[i], at + [i, b];
            var next: Kont := [Block(at, proc, i + 1)];
            var k := Remaining(Child(c, b), here, q) + After(c, here) + next;
            && (if q == [] then k == [Block(here, c.branches[b], 0)] + next
                else ValidPath(proc, [i, b] + q) && Remaining(proc, at, [i, b] + q) == k)
            && After(c, here) + next == next
  {
    FreshStack(proc, at, i, b);
    if q != [] {
      ResumedStack(proc, at, i, b, q);
    }
  }

  /** The frames inside branch `b` of a conditional, and behind it. */
  function Entered(proc: Proc, at: seq<nat>, i: nat, b: nat, q: seq<nat>): Kont
    requires i < |proc.cmds| && Enters(proc.cmds[i], b) && (proc.cmds[i].If? || proc.cmds[i].Case?)
    requires q == [] || ValidPath(proc, [i, b] + q)
  {
    if q == [] then [Block(at + [i, b], proc.cmds[i].branches[b], 0), Block(at, proc, i + 1)]
    else Remaining(proc, at, [i, b] + q)
  }

  lemma EnteredIs(proc: Proc, at: seq<nat>, i: nat, b: nat, q: seq<nat>)
    requires i < |proc.cmds| && Enters(proc.cmds[i], b) && (proc.cmds[i].If? || proc.cmds[i].Case?)
    requires q == [] || (ValidPath(Child(proc.cmds[i], b), q) && ValidPath(proc, [i, b] + q))
    ensures var c, here := proc.cmds[i], at + [i, b];
            var next: Kont := [Block(at, proc, i + 1)];
            Remaining(Child(c, b), here, q) + After(c, here) + next == Entered(proc, at, i, b, q) && After(c, here) + next == next
  {
    BranchStack(proc, at, i, b, q);
    hide Remaining, After;
  }

  /** What is left of the run point after the branch was popped, too. */
  lemma PathSplit(proc: Proc, at: seq<nat>, i: nat, p: seq<nat>)
    requires i < |proc.cmds| && p != [] && ValidPath(proc, [i] + p) && (proc.cmds[i].If? || proc.cmds[i].Case?)
    ensures Enters(proc.cmds[i], p[0]) && ValidPath(Child(proc.cmds[i], p[0]), p[1..])
    ensures p[1..] != [] && ValidPath(proc, [i, p[0]] + p[1..])
    ensures FromCmd(proc, at, i, p) == Entered(proc, at, i, p[0], p[1..])
  {
    assert ([i] + p)[2..] == p[1..] && [i, p[0]] + p[1..] == [i] + p;
  }

  /** Which branch a conditional takes. */
  function Pick<M>(w: World<M>, c: Cmd, mup: M): (bool, int, M)
    requires (c.If? || c.Case?) && Min(|c.tests|, |c.branches|) > 0
  {
    if c.If? then PickIf(w, mup, c.tests, |c.branches|) else PickCase(w, mup, c.tests, |c.branches|, 0)
  }

  lemma BranchUnfold<M>(w: World<M>, proc: Proc, at: seq<nat>, i: nat, st: Regs<M>, fuel: nat)
    requires i < |proc.cmds| && (proc.cmds[i].If? || proc.cmds[i].Case?)
    requires Min(|proc.cmds[i].tests|, |proc.cmds[i].branches|) > 0
    ensures var (ok, b, mup) := Pick(w, proc.cmds[i], st.mup);
            && b < |proc.cmds[i].branches|
            && Run(w, [Block(at, proc, i)], st, fuel) ==
               if !ok then Res(Failed, st.(mup := mup), fuel, [], [])
               else Run(w, if b >= 0 then Entered(proc, at, i, b, []) else [Block(at, proc, i + 1)], st.(mup := mup), fuel)
  {
    hide Run;
    var c := proc.cmds[i];
    Unfold(w, proc, at, i, st, fuel);
    PerformBranch(w, c, at + [i], st);
    var (ok, b, mup) := Pick(w, c, st.mup);
    hide Perform, Pick;
    var next: Kont := [Block(at, proc, i + 1)];
    assert [] + next == next;
    if b >= 0 {
      assert at + [i] + [b] == at + [i, b];
      var push: Kont := [Block(at + [i] + [b], c.branches[b], 0)];
      assert push + next == Entered(proc, at, i, b, []);
    }
  }

  lemma PerformBranch<M>(w: World<M>, c: Cmd, here: seq<nat>, st: Regs<M>)
    requires (c.If? || c.Case?) && Min(|c.tests|, |c.branches|) > 0
    ensures var (ok, b, mup) := Pick(w, c, st.mup);
            -1 <= b < |c.branches| && Perform(w, c, here, st) == Branch(ok, b, c.branches, here, st.(mup := mup))
  {
    hide PickCase;
  }

  lemma NoBranch<M>(w: World<M>, proc: Proc, at: seq<nat>, i: nat, st: Regs<M>, fuel: nat)
    requires i < |proc.cmds| && (proc.cmds[i].If? || proc.cmds[i].Case?)
    requires Min(|proc.cmds[i].tests|, |proc.cmds[i].branches|) == 0
    ensures Run(w, [Block(at, proc, i)], st, fuel) == Res(Failed, st, fuel, [], [])
  {
    Unfold(w, proc, at, i, st, fuel);
  }

  /** The same for a loop, whose only branch is its body. */
  lemma LoopPath(proc: Proc, at: seq<nat>, i: nat, p: seq<nat>)
    requires i < |proc.cmds| && p != [] && ValidPath(proc, [i] + p) && (proc.cmds[i].For? || proc.cmds[i].While?)
    ensures p[1..] != [] && ValidPath(proc.cmds[i].body, p[1..]) && p[0] == 0
    ensures var c, here := proc.cmds[i], at + [i, 0];
            FromCmd(proc, at, i, p) == Remaining(c.body, here, p[1..]) + After(c, here) + [Block(at, proc, i + 1)]
  {
    assert ([i] + p)[2..] == p[1..] && [i, 0] + p[1..] == [i] + p;
    ResumedStack(proc, at, i, 0, p[1..]);
  }

  lemma FreshBody(c: Cmd, here: seq<nat>)
    requires c.For? || c.While?
    ensures Remaining(c.body, here, []) == [Block(here, c.body, 0)]
  {
  }

  lemma ForUnfold<M>(w: World<M>, proc: Proc, at: seq<nat>, i: nat, st: Regs<M>, fuel: nat)
    requires i < |proc.cmds| && proc.cmds[i].For?
    ensures var c := proc.cmds[i];
            var (st1, ok) := Assign(w, st, c.init, c.mods);
            && FromCmd(proc, at, i, []) == [Block(at, proc, i)]
            && Run(w, [Block(at, proc, i)], st, fuel) ==
               if ok then Run(w, LoopTest(c, at + [i, 0]) + [Block(at, proc, i + 1)], st1, fuel)
               else Res(Failed, st1, fuel, [], [])
  {
    Unfold(w, proc, at, i, st, fuel);
    assert at + [i] + [0] == at + [i, 0];
    hide Run, Assign;
  }

  lemma WhileUnfold<M>(w: World<M>, proc: Proc, at: seq<nat>, i: nat, st: Regs<M>, fuel: nat)
    requires i < |proc.cmds| && proc.cmds[i].While?
    ensures FromCmd(proc, at, i, []) == [Block(at, proc, i)]
    ensures Run(w, [Block(at, proc, i)], st, fuel) ==
            Run(w, LoopTest(proc.cmds[i], at + [i, 0]) + [Block(at, proc, i + 1)], st, fuel)
  {
    Unfold(w, proc, at, i, st, fuel);
    assert at + [i] + [0] == at + [i, 0];
    hide Run;
  }

  predicate Live(s: State) {
    !s.StDone? && !s.StError?
  }

  lemma ModifyKeepsState<M>(w: World<M>, st: Regs<M>, names: seq<string>, what: What)
    ensures ModifyAll(w, st, names, what).0.state == st.state
    decreases |names|
  {
  }

  /** A run changes the state only when a command interrupts, and then never to DONE or
      ERROR. */
  lemma {:induction false} RunState<M>(w: World<M>, k: Kont, st: Regs<M>, fuel: nat)
    ensures var r := Run(w, k, st, fuel);
            if r.out.Left? then Live(st.state) ==> Live(r.st.state) else r.st.state == st.state
    decreases fuel, Size(k)
  {
    if k != [] {
      TickState(w, k, st, fuel);
      TickShrinks(w, k, st, fuel);
      match Tick(w, k, st, fuel) {
        case Go(k1, st1, fuel1) => RunState(w, k1, st1, fuel1);
        case Stop(_) =>
      }
    }
  }

  lemma PerformState<M>(w: World<M>, c: Cmd, here: seq<nat>, st: Regs<M>)
    ensures var s := Perform(w, c, here, st);
            if s.Interrupt? then Live(st.state) ==> Live(s.st.state) else s.st.state == st.state
  {
    match c
    case Set(_, mods) => ModifyKeepsState(w, st, mods, Update);
    case Def(mods) => ModifyKeepsState(w, st, mods, Define);
    case Undef(mods) => ModifyKeepsState(w, st, mods, Undefine);
    case For(_, _, _, mods, _) => ModifyKeepsState(w, st, mods, Update);
    case _ =>
  }

  lemma TickState<M>(w: World<M>, k: Kont, st: Regs<M>, fuel: nat)
    requires k != []
    ensures match Tick(w, k, st, fuel)
            case Go(_, st1, _) => st1.state == st.state
            case Stop(r) => if r.out.Left? then Live(st.state) ==> Live(r.st.state) else r.st.state == st.state
  {
    hide Perform, Live;
    match k[0]
    case Block(at, p, i) =>
      if i < |p.cmds| {
        PerformState(w, p.cmds[i], at + [i], st);
      }
    case ForStep(_, f) => ModifyKeepsState(w, st, f.mods, Update);
    case ForTest(_, _) =>
    case WhileTest(_, _) =>
  }

  /** One leg of the main procedure: the next run point is valid and the state is alive. */
  lemma LegFromMain<M>(w: World<M>, main: Proc, p: seq<nat>, st: Regs<M>, fuel: nat)
    requires p == [] || ValidPath(main, p)
    ensures var r := Run(w, Remaining(main, [], p), st, fuel);
            if r.out.Left? then ValidPath(main, r.point) && r.point != [] && (Live(st.state) ==> Live(r.st.state))
            else r.st.state == st.state
  {
    RunPointDescribesStack(w, main, [], p, st, fuel);
    RunState(w, Remaining(main, [], p), st, fuel);
    var r := Run(w, Remaining(main, [], p), st, fuel);
    assert r.point[0..] == r.point;
  }

  /** What one call of `exec` reported. */
  datatype ExecResult = NotRunning | Ran(out: Outcome)

  /** The state in which `exec` finds the function once waits that are over are lifted. */
  function Awakened(s: State, now: real, until: real): State {
    match s
    case StCall => StRunning
    case StWaitInterrupt => StRunning
    case StWaitTime => if now >= until then StRunning else s
    case StWaitVarsAndTime => if now >= until then StRunning else s
    case _ => s
  }

  class ExtFun<M> {
    const main: Proc
    var runPoint: seq<nat>
    var st: Regs<M>
    var waitDoneFunction: string

    /** While the function is alive its run point, if any, leads to an interrupting command. */
    ghost predicate Valid()
      reads this
    {
      Live(st.state) ==> runPoint == [] || ValidPath(main, runPoint)
    }

    constructor (main: Proc, st: Regs<M>)
      ensures Valid() && this.main == main && runPoint == [] && this.st == st.(state := StDone)
    {
      this.main := main;
      this.runPoint := [];
      this.st := st.(state := StDone);
      this.waitDoneFunction := "";
    }

    predicate IsRunning()
      reads this
    {
      |runPoint| > 0
    }

    // ----- life of a function -----

    method StartMe()
      modifies this`runPoint, this`st
      ensures Valid() && runPoint == [] && st == old(st).(state := StRunning)
    {
      runPoint := [];
      st := st.(state := StRunning);
    }

    /** Runs until the next interrupt. `mup` is the evaluator with the local variables
        loaded, `updateAll` the updates other functions already made in this round. The
        outcome, the registers and the next run point are those of the stack machine
        started where the last interrupt left off, whatever changed in between. */
    method Exec(w: World<M>, mup: M, updateAll: map<string, What>, fuel: nat)
      returns (ret: ExecResult, needNextLoop: bool)
      requires Valid()
      modifies this`runPoint, this`st
      ensures Valid()
      ensures var now := Awakened(old(st.state), w.actTime, old(st.waitUntil));
              var st0 := old(st).(mup := mup, updateSet := map[], updateAll := updateAll, state := now);
              if now != StRunning then
                ret == NotRunning && !needNextLoop && runPoint == old(runPoint) && st == st0
              else
                var r := Run(w, Remaining(main, [], old(runPoint)), st0.(waitUntil := 0.0), fuel);
                && ret == Ran(r.out) && runPoint == r.point
                && st == r.st.(state := if r.out.Done? then StDone else if r.out.Failed? then StError else r.st.state)
                && (needNextLoop <==> r.out.Left? && st.state in {StCall, StWaitInterrupt})
      ensures ret == Ran(Done) ==> !IsRunning() && st.state == StDone
      ensures ret == Ran(Left) ==> IsRunning() && Live(st.state)
    {
      hide Run, Remaining, ValidPath;
      st := st.(mup := mup, updateSet := map[], updateAll := updateAll);
      needNextLoop := false;
      Awake(w.actTime);
      ret := NotRunning;
      if st.state == StRunning {
        st := st.(waitUntil := 0.0);
        LegFromMain(w, main, runPoint, st, fuel);
        var res, _ := DoProcedure(w, main, [], fuel);
        ret := Ran(res);
        if !res.Failed? {
          if res.Left? && st.state == StCall { needNextLoop := true; }
          if res.Left? && st.state == StWaitInterrupt { needNextLoop := true; }
          if res.Done? { st := st.(state := StDone); }
        } else {
          st := st.(state := StError);
        }
      }
    }

    method Awake(now: real)
      modifies this`st
      ensures st == old(st).(state := Awakened(old(st.state), now, old(st.waitUntil)))
    {
      if st.state == StCall { st := st.(state := StRunning); }
      if st.state == StWaitInterrupt { st := st.(state := StRunning); }
      if st.state == StWaitTime || st.state == StWaitVarsAndTime {
        if now >= st.waitUntil { st := st.(state := StRunning); }
      }
    }

    /** A variable changed; `matches` is the verdict of the filter set over `waitVars`. */
    method ChangedVar(matches: seq<string> -> bool) returns (woken: bool)
      requires Valid()
      modifies this`st
      ensures Valid()
      ensures woken <==> old(st.state) in {StWaitVars, StWaitVarsAndTime} && matches(old(st.waitVars))
      ensures st == if woken then old(st).(state := StRunning) else old(st)
    {
      woken := false;
      if st.state == StWaitVars || st.state == StWaitVarsAndTime {
        if matches(st.waitVars) {
          st := st.(state := StRunning);
          woken := true;
        }
      }
    }

    method SetWaitFun(fun: string)
      requires Valid()
      modifies this`waitDoneFunction
      ensures Valid()
      ensures waitDoneFunction == if st.state == StWaitCall then fun else old(waitDoneFunction)
    {
      if st.state == StWaitCall { waitDoneFunction := fun; }
    }

    method InfoFunDone(fun: string)
      requires Valid()
      modifies this`st
      ensures Valid()
      ensures st == if old(st.state) == StWaitCall && waitDoneFunction == fun then old(st).(state := StRunning)
                    else old(st)
    {
      if st.state == StWaitCall && waitDoneFunction == fun { st := st.(state := StRunning); }
    }

    // ----- registers -----

    /** No expression is evaluated before the run point is consumed. */
    method Evaluate(w: World<M>, expr: string) returns (e: Eval<M>)
      requires runPoint == []
      modifies this`st
      ensures e == w.lib.eval(expr, old(st.mup)) && st == old(st).(mup := e.mup)
    {
      e := w.lib.eval(expr, st.mup);
      st := st.(mup := e.mup);
    }

    method ModifyUpdateSet(w: World<M>, name: string, what: What) returns (refused: bool)
      modifies this`st
      ensures (st, refused) == Modify(w, old(st), name, what)
    {
      var exist := false;
      if name in st.updateAll {
        exist := st.updateAll[name] != Undefine;
      } else {
        exist := name in w.allVars;
        if !exist { exist := name in w.localVars; }
      }
      refused := false;
      match what
      case Undefine =>
        if !exist {
          refused := true;
        } else {
          st := st.(updateSet := st.updateSet[name := Undefine]);
          st := st.(updateAll := st.updateAll[name := Undefine]);
          st := st.(mup := w.lib.remove(name, st.mup));
        }
      case Define =>
        if exist {
          refused := true;
        } else if name !in w.extVars {
          refused := true;
        } else {
          st := st.(updateSet := st.updateSet[name := Define]);
          st := st.(updateAll := st.updateAll[name := Define]);
          st := st.(mup := w.lib.define(name, st.mup));
        }
      case Update =>
        if exist {
          if name !in st.updateSet { st := st.(updateSet := st.updateSet[name := Update]); }
          if name !in st.updateAll { st := st.(updateAll := st.updateAll[name := Update]); }
        } else {
          refused := true;
        }
    }

    method ModifyVars(w: World<M>, names: seq<string>, what: What) returns (err: bool)
      modifies this`st
      ensures (st, err) == ModifyAll(w, old(st), names, what)
    {
      err := false;
      for n := 0 to |names|
        invariant (st, err) == ModifyAll(w, old(st), names[..n], what)
      {
        assert names[..n + 1][..n] == names[..n];
        var refused := ModifyUpdateSet(w, names[n], what);
        err := err || refused;
      }
      assert names[..|names|] == names;
    }

    method AssignVars(w: World<M>, expr: string, mods: seq<string>) returns (ok: bool)
      requires runPoint == []
      modifies this`st
      ensures (st, ok) == Assign(w, old(st), expr, mods)
    {
      ok := true;
      var err := ModifyVars(w, mods, Update);
      if !err {
        var e := Evaluate(w, expr);
        ok := e.ok;
      }
    }

    // ----- the tree walk -----

    method DoProcedure(w: World<M>, proc: Proc, current: seq<nat>, fuel: nat) returns (res: Outcome, left: nat)
      requires runPoint == [] || ValidPath(proc, runPoint)
      modifies this`runPoint, this`st
      ensures Ended(Run(w, Remaining(proc, current, old(runPoint)), old(st), fuel), res, st, left, runPoint)
      ensures left <= fuel
      decreases proc, 4
    {
      hide Run;
      ghost var goal := Run(w, Remaining(proc, current, runPoint), st, fuel);
      var returnTo: int := -1;
      if |runPoint| > 0 {
        returnTo := runPoint[0];
        runPoint := runPoint[1..];
        if |runPoint| == 0 { returnTo := returnTo + 1; }  // the interrupt itself is over
      }
      left := fuel;
      var i := 0;
      while i < |proc.cmds|
        invariant i <= |proc.cmds| && left <= fuel
        invariant runPoint != [] ==> i <= returnTo && old(runPoint) == [returnTo] + runPoint && st == old(st) && left == fuel
        invariant runPoint == [] ==>
            && returnTo <= |proc.cmds|
            && goal == Run(w, [Block(current, proc, if returnTo > i then returnTo else i)], st, left)
      {
        if returnTo == -1 || returnTo <= i {
          res, left := DoCommand(w, proc, current, i, left);
          if !res.Done? { return; }
          if |runPoint| == 0 { returnTo := -1; }
        }
        i := i + 1;
      }
      UnfoldEnd(w, proc, current, st, left);
      res := Done;
    }

    method DoCommand(w: World<M>, proc: Proc, current: seq<nat>, i: nat, fuel: nat) returns (res: Outcome, left: nat)
      requires i < |proc.cmds|
      requires runPoint == [] || ValidPath(proc, [i] + runPoint)
      modifies this`runPoint, this`st
      ensures Reached(w, Run(w, FromCmd(proc, current, i, old(runPoint)), old(st), fuel),
                      proc, current, i + 1, res, st, left, runPoint)
      ensures left <= fuel
      decreases proc, 3
    {
      hide Run;
      left := fuel;
      match proc.cmds[i] {
        case If(_, _) =>
          res, left := DoIf(w, proc, current, i, fuel);
        case Case(_, _) =>
          res, left := DoCase(w, proc, current, i, fuel);
        case For(_, _, _, _, _) =>
          res, left := DoFor(w, proc, current, i, fuel);
        case While(_, _) =>
          res, left := DoWhile(w, proc, current, i, fuel);
        case _ =>
          Unfold(w, proc, current, i, st, fuel);
          ghost var next: Kont := [Block(current, proc, i + 1)];
          assert [] + next == next;
          hide Perform;
          res := DoSimple(w, proc.cmds[i], current, i);
      }
    }

    /** A command without branches. */
    method DoSimple(w: World<M>, c: Cmd, current: seq<nat>, i: nat) returns (res: Outcome)
      requires runPoint == [] && !c.If? && !c.Case? && !c.For? && !c.While?
      modifies this`runPoint, this`st
      ensures match Perform(w, c, current + [i], old(st))
              case Next(st1, push) => res.Done? && st == st1 && runPoint == [] && push == []
              case Fail(st1, parked) => res.Failed? && st == st1 && runPoint == if parked then current + [i] else []
              case Interrupt(st1) => res.Left? && st == st1 && runPoint == current + [i]
    {
      hide ModifyAll, Assign;
      match c {
        case Set(expr, mods) =>
          res := Done;
          if !Blank(expr) {
            var ok := AssignVars(w, expr, mods);
            if !ok { res := Failed; }
          }
        case Def(mods) =>
          var _ := ModifyVars(w, mods, Define);
          res := Done;
        case Undef(mods) =>
          var _ := ModifyVars(w, mods, Undefine);
          res := Done;
        case Kill(pattern) =>
          res := Done;
          if |pattern| > 0 {
            var e := Evaluate(w, pattern);
            if !e.ok { return Failed; }
            st := st.(killName := e.text);
            runPoint := current + [i];
            res := Left;
          }
        case FunDef(params) =>
          res := Done;
          if |params| > 1 {
            var e := Evaluate(w, params[0]);
            if !e.ok { return Failed; }
            var e2 := Evaluate(w, params[1]);
            if !e2.ok { return Failed; }
            st := st.(fundefName := e.text, fundefCode := e2.text);
            runPoint := current + [i];
            res := Left;
          }
        case Call(mode1, mode2, callee, args) =>
          runPoint := current + [i];
          st := st.(callFun := callee, callMode2 := mode2, callParams := args);
          match mode1 {
            case WaitForCallee => st := st.(state := StWaitCall);
            case Threaded => st := st.(state := StCall);
          }
          res := Left;
        case Wait(_, _, _) =>
          res := DoWait(w, c, current, i);
      }
    }

    method AwaitVars(vars: seq<string>) returns (any: bool)
      modifies this`st
      ensures st == old(st).(waitVars := vars) && any == (vars != [])
    {
      st := st.(waitVars := []);
      any := false;
      for n := 0 to |vars|
        invariant st == old(st).(waitVars := vars[..n]) && any == (n > 0)
      {
        any := true;
        st := st.(waitVars := st.waitVars + [vars[n]]);
      }
    }

    method DoWait(w: World<M>, c: Cmd, current: seq<nat>, i: nat) returns (res: Outcome)
      requires runPoint == [] && c.Wait?
      modifies this`runPoint, this`st
      ensures match Perform(w, c, current + [i], old(st))
              case Next(st1, push) => res.Done? && st == st1 && runPoint == [] && push == []
              case Fail(st1, parked) => res.Failed? && st == st1 && runPoint == if parked then current + [i] else []
              case Interrupt(st1) => res.Left? && st == st1 && runPoint == current + [i]
    {
      var result := true;
      if |c.cond| > 0 {
        var e := Evaluate(w, c.cond);
        if !e.ok { return Failed; }
        result := e.truth;
      }
      res := Done;
      if result {
        runPoint := current + [i];
        var timeOut := -1.0;
        if |c.timeout| > 0 {
          var e := w.lib.eval(c.timeout, st.mup);
          st := st.(mup := e.mup);
          if !e.ok { return Failed; }
          timeOut := e.number;
        }
        var condTime := false;
        if timeOut >= 0.0 {
          condTime := true;
          st := st.(waitUntil := w.actTime + timeOut);
        }
        var condVars := AwaitVars(c.vars);
        if condTime && condVars {
          st := st.(state := StWaitVarsAndTime);
        } else if condTime {
          st := st.(state := StWaitTime);
        } else if condVars {
          st := st.(state := StWaitVars);
        } else {
          st := st.(state := StWaitInterrupt);
        }
        res := Left;
      }
    }

    /** Enters branch `b` of command `i`, afresh or along the rest of the run point. */
    method DoBranch(w: World<M>, proc: Proc, current: seq<nat>, i: nat, b: nat, fuel: nat) returns (res: Outcome, left: nat)
      requires i < |proc.cmds| && Enters(proc.cmds[i], b)
      requires runPoint == [] || ValidPath(Child(proc.cmds[i], b), runPoint)
      modifies this`runPoint, this`st
      ensures var here := current + [i, b];
              var after, next: Kont := After(proc.cmds[i], here), [Block(current, proc, i + 1)];
              var r := Run(w, Remaining(Child(proc.cmds[i], b), here, old(runPoint)) + after + next, old(st), fuel);
              if res.Done? then runPoint == [] && r == Run(w, after + next, st, left)
              else Ended(r, res, st, left, runPoint)
      ensures left <= fuel
      decreases proc, 0
    {
      hide Run;
      var here := current + [i, b];
      ghost var next: Kont := [Block(current, proc, i + 1)];
      ChildThenRest(w, Remaining(Child(proc.cmds[i], b), here, runPoint), After(proc.cmds[i], here), next, st, fuel);
      res, left := DoProcedure(w, Child(proc.cmds[i], b), here, fuel);
    }

    /** The same, with the command's own frames. */
    method EnterBranch(w: World<M>, proc: Proc, current: seq<nat>, i: nat, b: nat, fuel: nat) returns (res: Outcome, left: nat)
      requires i < |proc.cmds| && Enters(proc.cmds[i], b) && (proc.cmds[i].If? || proc.cmds[i].Case?)
      requires runPoint == [] || (ValidPath(Child(proc.cmds[i], b), runPoint) && ValidPath(proc, [i, b] + runPoint))
      modifies this`runPoint, this`st
      ensures Reached(w, Run(w, Entered(proc, current, i, b, old(runPoint)), old(st), fuel),
                      proc, current, i + 1, res, st, left, runPoint)
      ensures left <= fuel
      decreases proc, 1
    {
      EnteredIs(proc, current, i, b, runPoint);
      hide Run, After, Child, Remaining, ValidPath, Enters, Entered;
      res, left := DoBranch(w, proc, current, i, b, fuel);
    }

    method DoIf(w: World<M>, proc: Proc, current: seq<nat>, i: nat, fuel: nat) returns (res: Outcome, left: nat)
      requires i < |proc.cmds| && proc.cmds[i].If?
      requires runPoint == [] || ValidPath(proc, [i] + runPoint)
      modifies this`runPoint, this`st
      ensures Reached(w, Run(w, FromCmd(proc, current, i, old(runPoint)), old(st), fuel),
                      proc, current, i + 1, res, st, left, runPoint)
      ensures left <= fuel
      decreases proc, 2
    {
      hide Run, Entered, Remaining;
      var c := proc.cmds[i];
      left := fuel;
      if Min(|c.tests|, |c.branches|) == 0 {
        NoBranch(w, proc, current, i, st, fuel);
        return Failed, left;
      }
      BranchUnfold(w, proc, current, i, st, fuel);
      var returnTo2: int := -1;
      if |runPoint| > 0 {
        PathSplit(proc, current, i, runPoint);
        returnTo2 := runPoint[0];
        runPoint := runPoint[1..];
      }
      var result := false;
      if returnTo2 == -1 {
        var e := Evaluate(w, c.tests[0]);
        if !e.ok { return Failed, left; }
        result := e.truth;
      } else {
        result := returnTo2 == 0;
      }
      hide FromCmd, ValidPath, Child;
      res := Done;
      if result {
        res, left := EnterBranch(w, proc, current, i, 0, left);
      } else if |c.branches| > 1 {
        res, left := EnterBranch(w, proc, current, i, 1, left);
      }
    }

    method DoCase(w: World<M>, proc: Proc, current: seq<nat>, i: nat, fuel: nat) returns (res: Outcome, left: nat)
      requires i < |proc.cmds| && proc.cmds[i].Case?
      requires runPoint == [] || ValidPath(proc, [i] + runPoint)
      modifies this`runPoint, this`st
      ensures Reached(w, Run(w, FromCmd(proc, current, i, old(runPoint)), old(st), fuel),
                      proc, current, i + 1, res, st, left, runPoint)
      ensures left <= fuel
      decreases proc, 2
    {
      hide Run, Entered, Remaining;
      var c := proc.cmds[i];
      left := fuel;
      var tests := Min(|c.tests|, |c.branches|);
      if tests == 0 {
        NoBranch(w, proc, current, i, st, fuel);
        return Failed, left;
      }
      BranchUnfold(w, proc, current, i, st, fuel);
      if |runPoint| > 0 {
        PathSplit(proc, current, i, runPoint);
        var returnTo2 := runPoint[0];
        runPoint := runPoint[1..];
        hide FromCmd, ValidPath, Child, Enters;
        res, left := EnterBranch(w, proc, current, i, returnTo2, left);
        return;
      }
      ghost var goal := Run(w, [Block(current, proc, i)], st, fuel);
      ghost var pick := PickCase(w, st.mup, c.tests, |c.branches|, 0);
      assert goal == Run(w, FromCmd(proc, current, i, []), st, fuel);
      hide FromCmd, ValidPath, Child, Reached;
      var result := false;
      var u := 0;
      while u < tests && !result
        invariant u <= tests && runPoint == [] && left <= fuel
        invariant !result ==> left == fuel && st == old(st).(mup := st.mup)
        invariant !result ==> pick == PickCase(w, st.mup, c.tests, |c.branches|, u)
        invariant result ==> Reached(w, goal, proc, current, i + 1, Done, st, left, [])
      {
        var e := Evaluate(w, c.tests[u]);
        if !e.ok { return Failed, left; }
        result := e.truth;
        if result {
          res, left := EnterBranch(w, proc, current, i, u, left);
          if !res.Done? { return; }
        }
        u := u + 1;
      }
      if !result && |c.tests| < |c.branches| {
        res, left := EnterBranch(w, proc, current, i, |c.tests|, left);
        if !res.Done? { return; }
      }
      res := Done;
    }

    /** The test that opens an iteration; it costs one unit of fuel. */
    method TestLoop(w: World<M>, c: Cmd, ghost here: seq<nat>, ghost next: Kont, fuel: nat)
      returns (out: Outcome, result: bool, left: nat)
      requires runPoint == [] && (c.For? || c.While?)
      modifies this`st
      ensures left <= fuel
      ensures out.Done? ==> left < fuel
      ensures var r := Run(w, LoopTest(c, here) + next, old(st), fuel);
              if !out.Done? then r == Res(out, st, left, [], [])
              else r == Run(w, if result then [Block(here, c.body, 0)] + After(c, here) + next else next, st, left)
    {
      hide Run, LoopTest, After;
      UnfoldLoop(w, c, here, next, st, fuel);
      result := false;
      if fuel == 0 { return OutOfFuel, false, 0; }
      var e := Evaluate(w, c.cond);
      out := if e.ok then Done else Failed;
      result := e.truth;
      left := fuel - 1;
    }

    method DoFor(w: World<M>, proc: Proc, current: seq<nat>, i: nat, fuel: nat) returns (res: Outcome, left: nat)
      requires i < |proc.cmds| && proc.cmds[i].For?
      requires runPoint == [] || ValidPath(proc, [i] + runPoint)
      modifies this`runPoint, this`st
      ensures Reached(w, Run(w, FromCmd(proc, current, i, old(runPoint)), old(st), fuel),
                      proc, current, i + 1, res, st, left, runPoint)
      ensures left <= fuel
      decreases proc, 1
    {
      hide Run, Assign, FromCmd, Remaining, ValidPath;
      var c := proc.cmds[i];
      ForUnfold(w, proc, current, i, st, fuel);
      FreshBody(c, current + [i, 0]);
      ghost var goal := Run(w, FromCmd(proc, current, i, runPoint), st, fuel);
      ghost var here := current + [i, 0];
      ghost var next: Kont := [Block(current, proc, i + 1)];
      ghost var test := LoopTest(c, here);
      left := fuel;
      var returnTo2: int := -1;
      if |runPoint| > 0 {
        LoopPath(proc, current, i, runPoint);
        returnTo2 := runPoint[0];
        runPoint := runPoint[1..];
      }
      if returnTo2 == -1 {
        var ok := AssignVars(w, c.init, c.mods);
        if !ok { return Failed, left; }
      }
      var canContinue := true;
      while canContinue
        invariant left <= fuel
        invariant returnTo2 == -1 ==> runPoint == [] && goal == Run(w, if canContinue then test + next else next, st, left)
        invariant returnTo2 != -1 ==> canContinue && runPoint != [] && ValidPath(c.body, runPoint)
        invariant returnTo2 != -1 ==> goal == Run(w, Remaining(c.body, here, runPoint) + After(c, here) + next, st, left)
        decreases left, returnTo2 != -1, canContinue
      {
        var result := false;
        if returnTo2 == -1 {
          var out;
          out, result, left := TestLoop(w, c, here, next, left);
          if !out.Done? { return out, left; }
        } else {
          result := true;
        }
        if !result { canContinue := false; }
        if canContinue {
          res, left := DoBranch(w, proc, current, i, 0, left);
          if !res.Done? { return; }
          returnTo2 := -1;
          UnfoldForStep(w, c, here, next, st, left);
          var ok := AssignVars(w, c.incr, c.mods);
          if !ok { return Failed, left; }
        }
      }
      res := Done;
    }

    method DoWhile(w: World<M>, proc: Proc, current: seq<nat>, i: nat, fuel: nat) returns (res: Outcome, left: nat)
      requires i < |proc.cmds| && proc.cmds[i].While?
      requires runPoint == [] || ValidPath(proc, [i] + runPoint)
      modifies this`runPoint, this`st
      ensures Reached(w, Run(w, FromCmd(proc, current, i, old(runPoint)), old(st), fuel),
                      proc, current, i + 1, res, st, left, runPoint)
      ensures left <= fuel
      decreases proc, 1
    {
      hide Run, FromCmd, Remaining, ValidPath;
      var c := proc.cmds[i];
      WhileUnfold(w, proc, current, i, st, fuel);
      FreshBody(c, current + [i, 0]);
      ghost var goal := Run(w, FromCmd(proc, current, i, runPoint), st, fuel);
      ghost var here := current + [i, 0];
      ghost var next: Kont := [Block(current, proc, i + 1)];
      ghost var test := LoopTest(c, here);
      left := fuel;
      var returnTo2: int := -1;
      if |runPoint| > 0 {
        LoopPath(proc, current, i, runPoint);
        returnTo2 := runPoint[0];
        runPoint := runPoint[1..];
      }
      var canContinue := true;
      while canContinue
        invariant left <= fuel
        invariant returnTo2 == -1 ==> runPoint == [] && goal == Run(w, if canContinue then test + next else next, st, left)
        invariant returnTo2 != -1 ==> canContinue && runPoint != [] && ValidPath(c.body, runPoint)
        invariant returnTo2 != -1 ==> goal == Run(w, Remaining(c.body, here, runPoint) + After(c, here) + next, st, left)
        decreases left, returnTo2 != -1, canContinue
      {
        var result := false;
        if returnTo2 == -1 {
          var out;
          out, result, left := TestLoop(w, c, here, next, left);
          if !out.Done? { return out, left; }
        } else {
          result := true;
        }
        if !result { canContinue := false; }
        if canContinue {
          res, left := DoBranch(w, proc, current, i, 0, left);
          if !res.Done? { return; }
          returnTo2 := -1;
        }
      }
      res := Done;
    }
  }
}
