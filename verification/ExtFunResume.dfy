/** Run points: the path saved when a procedure is interrupted, what remains to be done
    after it, and why re-entering the tree by such paths executes the same program as
    never leaving it. */
module ExtFunResume {
  import opened ExtFunMachine

  predicate Interrupting(c: Cmd) {
    match c
    case Kill(pattern) => pattern != ""
    case FunDef(params) => |params| > 1
    case Call(_, _, _, _) => true
    case Wait(_, _, _) => true
    case _ => false
  }

  /** The branch of `c` that a path step `b` enters. */
  predicate Enters(c: Cmd, b: nat) {
    match c
    case If(tests, branches) => Min(|tests|, |branches|) > 0 && b < Min(2, |branches|)
    case Case(tests, branches) => Min(|tests|, |branches|) > 0 && b < |branches|
    case For(_, _, _, _, _) => b == 0
    case While(_, _) => b == 0
    case _ => false
  }

  function Child(c: Cmd, b: nat): Proc
    requires Enters(c, b)
  {
    match c
    case If(_, branches) => branches[b]
    case Case(_, branches) => branches[b]
    case For(_, _, _, _, body) => body
    case While(_, body) => body
  }

  /** The frames that follow the body of `c` once it is finished. */
  function After(c: Cmd, here: seq<nat>): Kont {
    match c
    case For(_, _, _, _, _) => [ForStep(here, c)]
    case While(_, _) => [WhileTest(here, c)]
    case _ => []
  }

  /** A path leads from `proc` to an interrupting command. */
  predicate ValidPath(proc: Proc, p: seq<nat>)
    decreases |p|
  {
    && p != [] && p[0] < |proc.cmds|
    && var c := proc.cmds[p[0]];
       if |p| == 1 then Interrupting(c)
       else Enters(c, p[1]) && ValidPath(Child(c, p[1]), p[2..])
  }

  /** What remains to be done in `proc` (itself at path `at`) when resumed at `p`; all of
      it when `p` is empty. */
  function Remaining(proc: Proc, at: seq<nat>, p: seq<nat>): Kont
    requires p == [] || ValidPath(proc, p)
    decreases |p|
  {
    if p == [] then [Block(at, proc, 0)]
    else if |p| == 1 then [Block(at, proc, p[0] + 1)]
    else
      var c, here := proc.cmds[p[0]], at + [p[0], p[1]];
      Remaining(Child(c, p[1]), here, p[2..]) + After(c, here) + [Block(at, proc, p[0] + 1)]
  }

  // ----- stacks compose -----

  /** Frames below the running ones change nothing but what is left to do. */
  ghost predicate Composes<M>(w: World<M>, k1: Kont, k2: Kont, st: Regs<M>, fuel: nat) {
    var r := Run(w, k1, st, fuel);
    Run(w, k1 + k2, st, fuel) ==
    if r.out.Done? then Run(w, k2, r.st, r.fuel)
    else if r.out.Left? then r.(rest := r.rest + k2)
    else r
  }

  lemma TickAppend<M>(w: World<M>, k1: Kont, k2: Kont, st: Regs<M>, fuel: nat)
    requires k1 != []
    ensures Tick(w, k1 + k2, st, fuel) ==
            match Tick(w, k1, st, fuel)
            case Go(k, st1, fuel1) => Go(k + k2, st1, fuel1)
            case Stop(r) => Stop(if r.out.Left? then r.(rest := r.rest + k2) else r)
  {
    var more := k1[1..];
    assert (k1 + k2)[1..] == more + k2;
    match k1[0]
    case Block(at, p, i) =>
      if i < |p.cmds| {
        var next: Kont := [Block(at, p, i + 1)];
        var s := Perform(w, p.cmds[i], at + [i], st);
        if s.Next? {
          assert (s.push + next + more) + k2 == s.push + next + (more + k2);
        }
        assert (next + more) + k2 == next + (more + k2);
      }
    case ForStep(at, f) =>
      assert ([ForTest(at, f)] + more) + k2 == [ForTest(at, f)] + (more + k2);
    case ForTest(at, f) =>
      var body: Kont := [Block(at, f.body, 0), ForStep(at, f)];
      assert (body + more) + k2 == body + (more + k2);
    case WhileTest(at, wh) =>
      var body: Kont := [Block(at, wh.body, 0), WhileTest(at, wh)];
      assert (body + more) + k2 == body + (more + k2);
  }

  lemma {:induction false} RunAppend<M>(w: World<M>, k1: Kont, k2: Kont, st: Regs<M>, fuel: nat)
    ensures Composes(w, k1, k2, st, fuel)
    decreases fuel, Size(k1)
  {
    if k1 == [] {
      assert k1 + k2 == k2;
    } else {
      TickAppend(w, k1, k2, st, fuel);
      TickShrinks(w, k1, st, fuel);
      match Tick(w, k1, st, fuel) {
        case Go(k, st1, fuel1) => RunAppend(w, k, k2, st1, fuel1);
        case Stop(_) =>
      }
    }
  }

  // ----- one tick at a time -----

  lemma TickBlock<M>(w: World<M>, proc: Proc, at: seq<nat>, i: nat, st: Regs<M>, fuel: nat)
    requires i < |proc.cmds|
    ensures var next: Kont := [Block(at, proc, i + 1)];
            Tick(w, [Block(at, proc, i)], st, fuel) ==
            match Perform(w, proc.cmds[i], at + [i], st)
            case Next(st1, push) => Go(push + next, st1, fuel)
            case Fail(st1, parked) => Stop(Res(Failed, st1, fuel, if parked then at + [i] else [], []))
            case Interrupt(st1) => Stop(Res(Left, st1, fuel, at + [i], next))
  {
    hide Perform;
    var k: Kont := [Block(at, proc, i)];
    var next: Kont := [Block(at, proc, i + 1)];
    assert k[1..] == [] && next + k[1..] == next;
    var s := Perform(w, proc.cmds[i], at + [i], st);
    if s.Next? {
      assert s.push + next + k[1..] == s.push + next;
    }
  }

  lemma Unfold<M>(w: World<M>, proc: Proc, at: seq<nat>, i: nat, st: Regs<M>, fuel: nat)
    requires i < |proc.cmds|
    ensures var r := Run(w, [Block(at, proc, i)], st, fuel);
            match Perform(w, proc.cmds[i], at + [i], st)
            case Next(st1, push) => r == Run(w, push + [Block(at, proc, i + 1)], st1, fuel)
            case Fail(st1, parked) => r == Res(Failed, st1, fuel, if parked then at + [i] else [], [])
            case Interrupt(st1) => r == Res(Left, st1, fuel, at + [i], [Block(at, proc, i + 1)])
  {
    hide Perform, Tick;
    TickBlock(w, proc, at, i, st, fuel);
  }

  lemma UnfoldEnd<M>(w: World<M>, proc: Proc, at: seq<nat>, st: Regs<M>, fuel: nat)
    ensures Run(w, [Block(at, proc, |proc.cmds|)], st, fuel) == Res(Done, st, fuel, [], [])
  {
  }

  function LoopTest(c: Cmd, here: seq<nat>): Kont
    requires c.For? || c.While?
  {
    if c.For? then [ForTest(here, c)] else [WhileTest(here, c)]
  }

  lemma TickLoop<M>(w: World<M>, c: Cmd, here: seq<nat>, next: Kont, st: Regs<M>, fuel: nat)
    requires c.For? || c.While?
    ensures var body: Kont := [Block(here, c.body, 0)];
            Tick(w, LoopTest(c, here) + next, st, fuel) == Test(w, c.cond, body + After(c, here), next, st, fuel)
  {
    hide Test;
    assert (LoopTest(c, here) + next)[1..] == next;
    assert [Block(here, c.body, 0)] + After(c, here) == [Block(here, c.body, 0), After(c, here)[0]];
  }

  lemma UnfoldLoop<M>(w: World<M>, c: Cmd, here: seq<nat>, next: Kont, st: Regs<M>, fuel: nat)
    requires c.For? || c.While?
    ensures var body: Kont := [Block(here, c.body, 0)];
            var e := w.lib.eval(c.cond, st.mup);
            var st1 := st.(mup := e.mup);
            Run(w, LoopTest(c, here) + next, st, fuel) ==
            if fuel == 0 then Res(OutOfFuel, st, 0, [], [])
            else if !e.ok then Res(Failed, st1, fuel - 1, [], [])
            else Run(w, if e.truth then body + After(c, here) + next else next, st1, fuel - 1)
  {
    hide Tick;
    TickLoop(w, c, here, next, st, fuel);
  }

  lemma UnfoldForStep<M>(w: World<M>, c: Cmd, here: seq<nat>, next: Kont, st: Regs<M>, fuel: nat)
    requires c.For?
    ensures var (st1, ok) := Assign(w, st, c.incr, c.mods);
            Run(w, [ForStep(here, c)] + next, st, fuel) ==
            if ok then Run(w, [ForTest(here, c)] + next, st1, fuel) else Res(Failed, st1, fuel, [], [])
  {
    var step: Kont := [ForStep(here, c)];
    assert (step + next)[1..] == next;
  }

  // ----- every saved run point is a valid path, and describes the stack -----

  /** The run point left by `r` leads, inside `proc`, to an interrupting command, and the
      frames left are the ones that path stands for. */
  ghost predicate Located<M>(proc: Proc, at: seq<nat>, r: Res<M>) {
    r.out.Left? ==>
      && at <= r.point
      && ValidPath(proc, r.point[|at|..])
      && r.rest == Remaining(proc, at, r.point[|at|..])
  }

  /** From inside the body of command `i` out to its procedure. */
  lemma Outward<M>(proc: Proc, at: seq<nat>, i: nat, b: nat, r: Res<M>, r': Res<M>)
    requires i < |proc.cmds| && Enters(proc.cmds[i], b)
    requires r.out.Left? && Located(Child(proc.cmds[i], b), at + [i, b], r)
    requires r' == r.(rest := r.rest + (After(proc.cmds[i], at + [i, b]) + [Block(at, proc, i + 1)]))
    ensures Located(proc, at, r')
  {
    var here := at + [i, b];
    var q := r.point[|at|..];
    assert r.point == here + r.point[|here|..];
    assert q == [i, b] + r.point[|here|..];
    assert q[2..] == r.point[|here|..];
    assert r.rest + (After(proc.cmds[i], here) + [Block(at, proc, i + 1)])
        == r.rest + After(proc.cmds[i], here) + [Block(at, proc, i + 1)];
  }

  /** What command `c` may push: nothing, the start of a branch, or its loop test. */
  predicate Pushes(c: Cmd, here: seq<nat>, push: Kont) {
    || push == []
    || (&& push[0].Block? && (c.If? || c.Case?) && |push[0].at| == |here| + 1
        && var b := push[0].at[|here|];
           Enters(c, b) && push == [Block(here + [b], Child(c, b), 0)])
    || ((c.For? || c.While?) && push == LoopTest(c, here + [0]))
  }

  lemma PerformEnters<M>(w: World<M>, c: Cmd, here: seq<nat>, st: Regs<M>)
    ensures var s := Perform(w, c, here, st);
            && (s.Interrupt? ==> Interrupting(c))
            && (s.Next? ==> Pushes(c, here, s.push))
  {
  }

  lemma {:induction false} BlockLocated<M>(w: World<M>, proc: Proc, at: seq<nat>, i: nat, st: Regs<M>, fuel: nat)
    requires i <= |proc.cmds|
    ensures Located(proc, at, Run(w, [Block(at, proc, i)], st, fuel))
    decreases fuel, CmdsSize(proc.cmds[i..]), 1
  {
    if i == |proc.cmds| {
      UnfoldEnd(w, proc, at, st, fuel);
      return;
    }
    var next: Kont := [Block(at, proc, i + 1)];
    var c := proc.cmds[i];
    assert proc.cmds[i..][0] == c && proc.cmds[i..][1..] == proc.cmds[i + 1..];
    Unfold(w, proc, at, i, st, fuel);
    PerformEnters(w, c, at + [i], st);
    PushSize(w, c, at + [i], st);
    hide Run, Perform;
    match Perform(w, c, at + [i], st)
    case Next(st1, push) =>
      RunAppend(w, push, next, st1, fuel);
      var r := Run(w, push, st1, fuel);
      if r.out.Done? {
        BlockLocated(w, proc, at, i + 1, r.st, r.fuel);
      } else if r.out.Left? {
        PushLocated(w, proc, at, i, push, st1, fuel);
      }
    case Fail(_, _) =>
    case Interrupt(_) =>
      assert (at + [i])[|at|..] == [i];
  }

  /** The frame pushed by command `i`, with the rest of its procedure below. */
  lemma PushLocated<M>(w: World<M>, proc: Proc, at: seq<nat>, i: nat, push: Kont, st: Regs<M>, fuel: nat)
    requires i < |proc.cmds| && Pushes(proc.cmds[i], at + [i], push) && Size(push) < CmdSize(proc.cmds[i])
    ensures var r := Run(w, push, st, fuel);
            r.out.Left? ==> Located(proc, at, r.(rest := r.rest + [Block(at, proc, i + 1)]))
    decreases fuel, CmdSize(proc.cmds[i]), 0
  {
    var next: Kont := [Block(at, proc, i + 1)];
    var c := proc.cmds[i];
    var r := Run(w, push, st, fuel);
    if push == [] {
    } else if push[0].Block? {
      var b := push[0].at[|at| + 1];
      var here := at + [i, b];
      assert at + [i] + [b] == here;
      assert Child(c, b).cmds[0..] == Child(c, b).cmds;
      hide Run;
      BlockLocated(w, Child(c, b), here, 0, st, fuel);
      if r.out.Left? {
        Outward(proc, at, i, b, r, r.(rest := r.rest + (After(c, here) + next)));
        assert After(c, here) + next == next;
      }
    } else {
      hide Run;
      assert at + [i] + [0] == at + [i, 0];
      LoopLocated(w, proc, at, i, st, fuel);
    }
  }

  /** A loop entered at its test, with the rest of its procedure below. */
  lemma {:induction false} LoopLocated<M>(w: World<M>, proc: Proc, at: seq<nat>, i: nat, st: Regs<M>, fuel: nat)
    requires i < |proc.cmds| && (proc.cmds[i].For? || proc.cmds[i].While?)
    ensures var r := Run(w, LoopTest(proc.cmds[i], at + [i, 0]), st, fuel);
            Located(proc, at, r.(rest := r.rest + [Block(at, proc, i + 1)]))
    decreases fuel, 0, 0
  {
    hide Run, Located;
    var c, a := proc.cmds[i], at + [i, 0];
    var body: Kont := [Block(a, c.body, 0)];
    var after := After(c, a);
    UnfoldLoop(w, c, a, [], st, fuel);
    assert LoopTest(c, a) + [] == LoopTest(c, a) && body + after + [] == body + after;
    hide After, LoopTest;
    if fuel == 0 {
      Trivially(proc, at, Res(OutOfFuel, st, 0, [], []), i);
      return;
    }
    var e := w.lib.eval(c.cond, st.mup);
    var st1 := st.(mup := e.mup);
    if !e.ok {
      Trivially(proc, at, Res(Failed, st1, fuel - 1, [], []), i);
    } else if !e.truth {
      Finished(w, st1, fuel - 1);
      Trivially(proc, at, Res(Done, st1, fuel - 1, [], []), i);
    } else {
      BodyLocated(w, proc, at, i, st1, fuel - 1);
    }
  }

  lemma Trivially<M>(proc: Proc, at: seq<nat>, r: Res<M>, i: nat)
    requires !r.out.Left? && i < |proc.cmds|
    ensures Located(proc, at, r.(rest := r.rest + [Block(at, proc, i + 1)]))
  {
  }

  /** A loop entered at its body. */
  lemma BodyLocated<M>(w: World<M>, proc: Proc, at: seq<nat>, i: nat, st: Regs<M>, fuel: nat)
    requires i < |proc.cmds| && (proc.cmds[i].For? || proc.cmds[i].While?)
    ensures var c, a := proc.cmds[i], at + [i, 0];
            var r := Run(w, [Block(a, c.body, 0)] + After(c, a), st, fuel);
            Located(proc, at, r.(rest := r.rest + [Block(at, proc, i + 1)]))
    decreases fuel, CmdsSize(proc.cmds[i].body.cmds), 2
  {
    var c, a := proc.cmds[i], at + [i, 0];
    var body: Kont := [Block(a, c.body, 0)];
    var after := After(c, a);
    hide Run;
    RunAppend(w, body, after, st, fuel);
    assert c.body.cmds[0..] == c.body.cmds;
    BlockLocated(w, c.body, a, 0, st, fuel);
    var r := Run(w, body, st, fuel);
    if r.out.Left? {
      var next: Kont := [Block(at, proc, i + 1)];
      Outward(proc, at, i, 0, r, r.(rest := r.rest + (after + next)));
      assert (r.rest + after) + next == r.rest + (after + next);
    } else if r.out.Done? {
      AfterLocated(w, proc, at, i, r.st, r.fuel);
    }
  }

  lemma Finished<M>(w: World<M>, st: Regs<M>, fuel: nat)
    ensures Run(w, [], st, fuel) == Res(Done, st, fuel, [], [])
  {
  }

  /** A loop entered after its body. */
  lemma {:induction false} AfterLocated<M>(w: World<M>, proc: Proc, at: seq<nat>, i: nat, st: Regs<M>, fuel: nat)
    requires i < |proc.cmds| && (proc.cmds[i].For? || proc.cmds[i].While?)
    ensures var r := Run(w, After(proc.cmds[i], at + [i, 0]), st, fuel);
            Located(proc, at, r.(rest := r.rest + [Block(at, proc, i + 1)]))
    decreases fuel, 0, 1
  {
    var c, a := proc.cmds[i], at + [i, 0];
    if c.For? {
      UnfoldForStep(w, c, a, [], st, fuel);
      assert After(c, a) + [] == After(c, a) && LoopTest(c, a) + [] == LoopTest(c, a);
      hide Run;
      var (st1, ok) := Assign(w, st, c.incr, c.mods);
      if ok {
        LoopLocated(w, proc, at, i, st1, fuel);
      }
    } else {
      LoopLocated(w, proc, at, i, st, fuel);
    }
  }

  /** However a procedure is entered, the run point it leaves is a valid path and stands
      for exactly the frames the machine still holds. */
  lemma {:induction false} RunPointDescribesStack<M>(w: World<M>, proc: Proc, at: seq<nat>, p: seq<nat>, st: Regs<M>, fuel: nat)
    requires p == [] || ValidPath(proc, p)
    ensures Located(proc, at, Run(w, Remaining(proc, at, p), st, fuel))
    decreases |p|
  {
    if |p| <= 1 {
      BlockLocated(w, proc, at, if p == [] then 0 else p[0] + 1, st, fuel);
      return;
    }
    var i, b := p[0], p[1];
    var c, here := proc.cmds[i], at + [i, b];
    var inner := Remaining(Child(c, b), here, p[2..]);
    var after, next: Kont := After(c, here), [Block(at, proc, i + 1)];
    RunPointDescribesStack(w, Child(c, b), here, p[2..], st, fuel);
    assert inner + after + next == inner + (after + next);
    RunAppend(w, inner, after + next, st, fuel);
    var r := Run(w, inner, st, fuel);
    if r.out.Left? {
      Outward(proc, at, i, b, r, r.(rest := r.rest + (after + next)));
    } else if r.out.Done? {
      RunAppend(w, after, next, r.st, r.fuel);
      if c.For? || c.While? {
        AfterLocated(w, proc, at, i, r.st, r.fuel);
      }
      var r2 := Run(w, after, r.st, r.fuel);
      if r2.out.Done? {
        BlockLocated(w, proc, at, i + 1, r2.st, r2.fuel);
      }
    }
  }

  // ----- interrupts are transparent -----

  /** What happens while a procedure is interrupted: anything, to the registers and to the
      world it will see next. */
  datatype Pause<!M> = Pause(world: World<M>, change: Regs<M> -> Regs<M>)

  /** Re-entering the tree by the saved run point after every interrupt, as long as there
      are pauses left. */
  function ReEntered<M>(main: Proc, w: World<M>, p: seq<nat>, st: Regs<M>, fuel: nat, pauses: seq<Pause<M>>): Res<M>
    requires p == [] || ValidPath(main, p)
    decreases |pauses|
  {
    var r := Run(w, Remaining(main, [], p), st, fuel);
    if r.out.Left? && pauses != [] then
      RunPointDescribesStack(w, main, [], p, st, fuel);
      ReEntered(main, pauses[0].world, r.point, pauses[0].change(r.st), r.fuel, pauses[1..])
    else r
  }

  /** The machine that never gives up its stack: an interrupting command is one more
      command, whose effect is the pause. */
  function Uninterrupted<M>(w: World<M>, k: Kont, st: Regs<M>, fuel: nat, pauses: seq<Pause<M>>): Res<M>
    decreases |pauses|, fuel, Size(k)
  {
    if k == [] then Res(Done, st, fuel, [], []) else
      TickShrinks(w, k, st, fuel);
      match Tick(w, k, st, fuel)
      case Go(k1, st1, fuel1) => Uninterrupted(w, k1, st1, fuel1, pauses)
      case Stop(r) =>
        if r.out.Left? && pauses != [] then
          Uninterrupted(pauses[0].world, r.rest, pauses[0].change(r.st), r.fuel, pauses[1..])
        else r
  }

  lemma {:induction false} UninterruptedByLegs<M>(w: World<M>, k: Kont, st: Regs<M>, fuel: nat, pauses: seq<Pause<M>>)
    ensures var r := Run(w, k, st, fuel);
            Uninterrupted(w, k, st, fuel, pauses) ==
            if r.out.Left? && pauses != [] then
              Uninterrupted(pauses[0].world, r.rest, pauses[0].change(r.st), r.fuel, pauses[1..])
            else r
    decreases fuel, Size(k)
  {
    if k != [] {
      TickShrinks(w, k, st, fuel);
      match Tick(w, k, st, fuel) {
        case Go(k1, st1, fuel1) => UninterruptedByLegs(w, k1, st1, fuel1, pauses);
        case Stop(_) =>
      }
    }
  }

  /** Any number of interrupts and resumes, with any changes in between, executes what the
      uninterrupted machine executes: no command is skipped and none is repeated. */
  lemma {:induction false} InterruptsAreTransparent<M>(main: Proc, w: World<M>, p: seq<nat>, st: Regs<M>, fuel: nat, pauses: seq<Pause<M>>)
    requires p == [] || ValidPath(main, p)
    ensures ReEntered(main, w, p, st, fuel, pauses) == Uninterrupted(w, Remaining(main, [], p), st, fuel, pauses)
    decreases |pauses|
  {
    UninterruptedByLegs(w, Remaining(main, [], p), st, fuel, pauses);
    RunPointDescribesStack(w, main, [], p, st, fuel);
    var r := Run(w, Remaining(main, [], p), st, fuel);
    if r.out.Left? && pauses != [] {
      assert r.point[0..] == r.point;
      InterruptsAreTransparent(main, pauses[0].world, r.point, pauses[0].change(r.st), r.fuel, pauses[1..]);
    }
  }
}
