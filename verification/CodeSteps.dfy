/**
 The steps of the code generator on code in progress (lcode.c): each lemma says that after one step
 the code computes what it should.
 */
module CodeSteps {
  import opened Bytecode
  import opened CodeExpr

  // ----- OP_LOADNIL -----

  ghost predicate NilAt(env: Env, s: State, s1: State, from: nat, to: int, a: nat, regs: Regs) {
    a <= |s.c| && a <= |s1.c| &&
      match Run(env, s, a, regs)
      case Stuck => true
      case Jump(p, r) => Run(env, s1, a, regs) == Jump(p, r)
      case Here(r0) => var e := Run(env, s1, a, regs);
        e.Here? && forall r: nat {:trigger e.regs(r)} :: e.regs(r) == if from <= r <= to then Nil else r0(r)
  }

  /** The code goes on with nil in registers `from` to `to`. */
  ghost predicate NilOk(s: State, s1: State, from: nat, to: int) {
    forall env: Env, a: nat, regs: Regs {:trigger NilAt(env, s, s1, from, to, a, regs)} ::
      a <= Limit(s) && Entry(s.c, a) ==> NilAt(env, s, s1, from, to, a, regs)
  }

  lemma NilEmit(s: State, sd: State, s1: State, from: nat, n: nat)
    requires Emitted(s, sd, s1) && s1 == sd.(c := sd.c + [LoadNil(from, n)])
    ensures NilOk(s, s1, from, from + n) && Wf(s1)
  {
    WfDischarge(s, sd);
    assert InstrOk(s1, |sd.c|);
    WfAppend(sd, s1);
    var to := from + n;
    forall env: Env, a: nat, regs: Regs | a <= Limit(s) && Entry(s.c, a) ensures NilAt(env, s, s1, from, to, a, regs) {
      EmitRun(env, s, sd, s1, a, regs);
      NeverStuck(env, s, a, regs);
      if Run(env, s, a, regs).Here? {
        LastRun(env, s1, |s.c|, Run(env, s, a, regs).regs);
      }
    }
  }

  function Min(a: int, b: int): int {
    if a <= b then a else b
  }

  function Max(a: int, b: int): int {
    if a >= b then a else b
  }

  /**
   The last instruction of the code is an OP_LOADNIL that no jump skips, and that can take registers `from` to `to`
   in.
   */
  ghost predicate CanMerge(s: State, from: nat, to: int) {
    && s.lasttarget < |s.c| && s.c[|s.c| - 1].LoadNil? && from <= to
    && var pfrom := s.c[|s.c| - 1].a; var pl := pfrom + s.c[|s.c| - 1].n;
      pfrom <= from <= pl + 1 || from <= pfrom <= to + 1
  }

  ghost function Merged(s: State, from: nat, to: int): State
    requires CanMerge(s, from, to)
  {
    var old_ := s.c[|s.c| - 1];
    var lo: nat := Min(old_.a, from);
    s.(c := s.c[|s.c| - 1 := LoadNil(lo, Max(old_.a + old_.n, to) - lo)])
  }

  lemma WithoutLast(s: State)
    requires Wf(s) && s.lasttarget < |s.c| && s.c[|s.c| - 1].LoadNil?
    ensures var b := s.(c := s.c[..|s.c| - 1]); Wf(b) && Appended(b, s)
  {
    var b := s.(c := s.c[..|s.c| - 1]);
    assert InstrOk(s, |s.c| - 1);
    forall i | 0 <= i < |b.c| ensures InstrOk(b, i) {
      assert InstrOk(s, i);
      assert forall x :: 0 <= x <= |b.c| && Entry(s.c, x) ==> Entry(b.c, x);
    }
  }

  lemma NilMerge(s: State, from: nat, to: int)
    requires Wf(s) && CanMerge(s, from, to)
    ensures NilOk(s, Merged(s, from, to), from, to) && Wf(Merged(s, from, to))
  {
    var s1, n := Merged(s, from, to), |s.c| - 1;
    var b := s.(c := s.c[..n]);
    WithoutLast(s);
    assert InstrOk(s1, n);
    WfAppend(b, s1);
    forall env: Env, a: nat, regs: Regs | a <= Limit(s) && Entry(s.c, a) ensures NilAt(env, s, s1, from, to, a, regs) {
      AppendRun(env, b, s, a, regs);
      AppendRun(env, b, s1, a, regs);
      NeverStuck(env, b, a, regs);
      if Run(env, b, a, regs).Here? {
        LastRun(env, s, n, Run(env, b, a, regs).regs);
        LastRun(env, s1, n, Run(env, b, a, regs).regs);
      }
    }
  }

  lemma NilShape(s0: State, s: State, v: View, s1: State, reg: nat)
    requires Shape(s0, s, v) && v.k.VNil? && Wf(s1) && Kept(s0, s1) && Limit(s0) <= Limit(s1)
    requires s1.pend == s.pend && s1.here == {}
    ensures Shape(s0, s1, View(VNonReloc(reg), v.ts, v.fs))
  {
  }

  lemma MergeKept(s0: State, s: State, from: nat, to: int)
    requires Wf(s0) && Wf(s) && Kept(s0, s) && CanMerge(s, from, to) && Limit(s0) <= Limit(s)
    ensures Kept(s0, Merged(s, from, to)) && Limit(s0) <= Limit(Merged(s, from, to))
  {
    var s1 := Merged(s, from, to);
    forall p | p in s0.pend ensures p in s1.pend && SameJump(s0.c, s1.c, p) {
      assert SameJump(s0.c, s.c, p);
    }
  }

  /** What nil in its register means for an expression that is nil. */
  lemma NilExpr(s0: State, s: State, v: View, s1: State, reg: nat, base: nat, x: Expr)
    requires Shape(s0, s, v) && ExprOk(s0, s, v, base, -1, x) && v.k.VNil? && NilOk(s, s1, reg, reg) && |s0.c| <= |s1.c|
    requires forall p {:trigger p in s.pend} :: p in s.pend ==>
      SameJump(s.c, s1.c, p) && (p > 0 ==> (TMode(s1.c[p - 1]) <==> TMode(s.c[p - 1])))
    ensures ExprOk(s0, s1, View(VNonReloc(reg), v.ts, v.fs), base, reg, x)
  {
    var v1 := View(VNonReloc(reg), v.ts, v.fs);
    forall env: Env, a: nat, regs: Regs | a <= Limit(s0) && Entry(s0.c, a)
      ensures ExprAt(env, s0, s1, v1, base, reg, x, a, regs)
    {
      assert ExprAt(env, s0, s, v, base, -1, x, a, regs);
      KeptEntry(s0, s, a);
      assert NilAt(env, s, s1, reg, reg, a, regs);
      NeverStuck(env, s0, a, regs);
      var e0, e := Run(env, s0, a, regs), Run(env, s, a, regs);
      if e0.Here? && e.Jump? {
        assert e.p in s.pend;
      }
    }
  }

  lemma KeptEntry(s0: State, s: State, a: nat)
    requires Kept(s0, s) && Entry(s0.c, a)
    ensures Entry(s.c, a)
  {
    if a > 0 {
      assert TMode(s.c[a - 1]) <==> TMode(s0.c[a - 1]);
    }
  }

  // ----- going on or leaving -----

  ghost predicate SplitAt(env: Env, s0: State, s: State, ts: seq<int>, fs: seq<int>, which: bool, base: nat, x: Expr,
      a: nat, regs: Regs) {
    a <= |s0.c| && a <= |s.c| &&
      match Run(env, s0, a, regs)
      case Stuck => true
      case Jump(p, r) => Run(env, s, a, regs) == Jump(p, r)
      case Here(r0) =>
        match Run(env, s, a, regs)
        case Stuck => false
        case Here(r1) => Same(r0, r1, base, -1) && Truthy(Eval(env, x, r0)) == which
        case Jump(p, r1) =>
          && Same(r0, r1, base, -1)
          && (if p in ts then Carries(s.c, p, r1, Eval(env, x, r0), true)
              else p in fs && Carries(s.c, p, r1, Eval(env, x, r0), false))
  }

  /** The code goes on if the truth of `x` is `which`, or leaves through a list. */
  ghost predicate SplitOk(s0: State, s: State, ts: seq<int>, fs: seq<int>, which: bool, base: nat, x: Expr) {
    forall env: Env, a: nat, regs: Regs {:trigger SplitAt(env, s0, s, ts, fs, which, base, x, a, regs)} ::
      a <= Limit(s0) && Entry(s0.c, a) ==> SplitAt(env, s0, s, ts, fs, which, base, x, a, regs)
  }

  /** The lists with one more jump, in the one that is left when the truth is not `which`. */
  function TrueList(v: View, which: bool, pc: int): seq<int> {
    if which then v.ts else v.ts + [pc]
  }

  function FalseList(v: View, which: bool, pc: int): seq<int> {
    if which then v.fs + [pc] else v.fs
  }

  /** The test that `jumponcond` emits for a value in a register, or for the operand of an OP_NOT. */
  ghost predicate Tests(s: State, k: Kind, which: bool, i: Instr) {
    match k
    case VNonReloc(r) => i == TestSet(NO_REG, r, !which)
    case VReloc(pc) => pc < |s.c| && s.c[pc].Not? && i == Test(s.c[pc].b, which)
    case _ => false
  }

  ghost predicate TestEmitted(s: State, k: Kind, sd: State, s1: State, i: Instr) {
    Emitted(Body(s, k), sd, s1) && s1 == sd.(c := sd.c + [i, Jmp(NO_JUMP)], pend := sd.pend + {|sd.c| + 1})
  }

  lemma TestShape(s0: State, s: State, v: View, sd: State, s1: State, i: Instr, which: bool)
    requires Shape(s0, s, v) && Tests(s, v.k, which, i) && TestEmitted(s, v.k, sd, s1, i)
    ensures Shape(s0, s1, View(VTrue, TrueList(v, which, |sd.c| + 1), FalseList(v, which, |sd.c| + 1)))
  {
    var b := Body(s, v.k);
    WfDischarge(b, sd);
    assert InstrOk(s1, |sd.c|) && InstrOk(s1, |sd.c| + 1);
    WfAppend(sd, s1);
    BodyKept(s0, s, v);
    EmitKept(s0, b, sd, s1);
  }

  lemma TestExpr(s0: State, s: State, v: View, sd: State, s1: State, i: Instr, which: bool, base: nat, x: Expr)
    requires Shape(s0, s, v) && ExprOk(s0, s, v, base, -1, x) && Tests(s, v.k, which, i)
    requires TestEmitted(s, v.k, sd, s1, i)
    ensures SplitOk(s0, s1, TrueList(v, which, |sd.c| + 1), FalseList(v, which, |sd.c| + 1), which, base, x)
  {
    var pc := |sd.c| + 1;
    var ts, fs := TrueList(v, which, pc), FalseList(v, which, pc);
    forall env: Env, a: nat, regs: Regs | a <= Limit(s0) && Entry(s0.c, a)
      ensures SplitAt(env, s0, s1, ts, fs, which, base, x, a, regs)
    {
      TestAt(env, s0, s, v, sd, s1, i, which, base, x, a, regs);
    }
  }

  /** The test goes on if the truth of the value is `which`, and leaves through its jump otherwise. */
  lemma TestOutcome(env: Env, s0: State, s: State, v: View, sd: State, s1: State, i: Instr, which: bool, r: Regs)
    requires Shape(s0, s, v) && Tests(s, v.k, which, i) && TestEmitted(s, v.k, sd, s1, i)
    ensures var u, pc, n := Denotes(env, s, v.k, r), |sd.c| + 1, |Body(s, v.k).c|;
      && n <= |s1.c|
      && Run(env, s1, n, r) == (if Truthy(u) == which then Here(r) else Jump(pc, r))
      && (Truthy(u) != which ==> Carries(s1.c, pc, r, u, !which))
      && pc !in v.ts && pc !in v.fs
  {
    TestRun(env, s1, |Body(s, v.k).c|, r);
  }

  lemma TestLength(s: State, k: Kind, sd: State, s1: State, i: Instr)
    requires TestEmitted(s, k, sd, s1, i)
    ensures |Body(s, k).c| <= |s1.c|
  {
  }

  /** What the jumps of the lists carry stays the same. */
  lemma JumpCarries(s0: State, s: State, v: View, sd: State, s1: State, p: int, r: Regs, u: Value)
    requires Shape(s0, s, v) && Emitted(Body(s, v.k), sd, s1) && (p in v.ts || p in v.fs)
    ensures Carries(s.c, p, r, u, true) ==> Carries(s1.c, p, r, u, true)
    ensures Carries(s.c, p, r, u, false) ==> Carries(s1.c, p, r, u, false)
    ensures p != |sd.c| + 1
  {
    EmitCarries(s0, s, v, sd, s1, p);
  }

  lemma TestAt(env: Env, s0: State, s: State, v: View, sd: State, s1: State, i: Instr, which: bool, base: nat,
      x: Expr, a: nat, regs: Regs)
    requires Shape(s0, s, v) && ExprOk(s0, s, v, base, -1, x) && Tests(s, v.k, which, i)
    requires TestEmitted(s, v.k, sd, s1, i)
    requires a <= Limit(s0) && Entry(s0.c, a)
    ensures SplitAt(env, s0, s1, TrueList(v, which, |sd.c| + 1), FalseList(v, which, |sd.c| + 1), which, base, x, a,
      regs)
  {
    hide Denotes, Eval, Emitted, Wf;
    var b := Body(s, v.k);
    TestLength(s, v.k, sd, s1, i);
    assert ExprAt(env, s0, s, v, base, -1, x, a, regs);
    EmitRun(env, b, sd, s1, a, regs);
    NeverStuck(env, s0, a, regs);
    var e0, e := Run(env, s0, a, regs), Run(env, b, a, regs);
    if e0.Here? {
      if e.Here? {
        TestOutcome(env, s0, s, v, sd, s1, i, which, e.regs);
      } else {
        JumpCarries(s0, s, v, sd, s1, e.p, e.regs, Eval(env, x, e0.regs));
      }
    }
  }

  /** A constant that is known to be true or false: nothing to test. */
  lemma ConstSplit(s0: State, s: State, v: View, which: bool, base: nat, x: Expr)
    requires Shape(s0, s, v) && ExprOk(s0, s, v, base, -1, x)
    requires if which then v.k.VTrue? || v.k.VKInt? || v.k.VKFlt?
      || (v.k.VK? && v.k.info < |s.k| && Truthy(s.k[v.k.info]))
      else v.k.VNil? || v.k.VFalse?
    ensures SplitOk(s0, s, v.ts, v.fs, which, base, x)
  {
    forall env: Env, a: nat, regs: Regs | a <= Limit(s0) && Entry(s0.c, a)
      ensures SplitAt(env, s0, s, v.ts, v.fs, which, base, x, a, regs)
    {
      assert ExprAt(env, s0, s, v, base, -1, x, a, regs);
    }
  }

  // ----- inverting a comparison -----

  /** `invertjump`: the test of the last jump accepts the other outcome. */
  ghost function Inverted(s: State): State
    requires |s.c| >= 2 && s.c[|s.c| - 2].Cmp?
  {
    var i := s.c[|s.c| - 2];
    s.(c := s.c[|s.c| - 2 := i.(accept := !i.accept)])
  }

  ghost function WithoutJump(s: State): State
    requires |s.c| >= 2
  {
    s.(c := s.c[..|s.c| - 2], pend := s.pend - {|s.c| - 1})
  }

  lemma WfWithoutJump(s: State, k: Kind)
    requires Wf(s) && k.VJmp? && KindOk(s, k)
    ensures Wf(WithoutJump(s)) && Appended(WithoutJump(s), s)
  {
    var b, n := WithoutJump(s), |s.c| - 2;
    forall i | 0 <= i < |b.c| ensures InstrOk(b, i) {
      assert InstrOk(s, i) && InstrOk(s, n);
      assert forall x :: 0 <= x <= |b.c| && Entry(s.c, x) ==> Entry(b.c, x);
    }
    forall p | p in b.pend ensures p < |b.c| {
      assert p in s.pend && s.c[p].Jmp?;
    }
  }

  lemma WfInverted(s: State, k: Kind)
    requires Wf(s) && k.VJmp? && KindOk(s, k)
    ensures Wf(Inverted(s)) && Appended(WithoutJump(s), Inverted(s)) && KindOk(Inverted(s), k)
  {
    WfWithoutJump(s, k);
    var s1, n := Inverted(s), |s.c| - 2;
    assert InstrOk(s, n) && InstrOk(s, n + 1) && InstrOk(s1, n) && InstrOk(s1, n + 1);
    WfAppend(WithoutJump(s), s1);
  }

  /** Where the code with the comparison went on, the inverted one jumps, and the other way round. */
  lemma InvertRun(env: Env, s: State, k: Kind, a: nat, regs: Regs)
    requires Wf(s) && k.VJmp? && KindOk(s, k) && a <= |s.c| - 2
    ensures match Run(env, s, a, regs)
      case Here(r) => Run(env, Inverted(s), a, regs) == Jump(k.pc, r)
      case Jump(p, r) => Run(env, Inverted(s), a, regs) == if p == k.pc then Here(r) else Jump(p, r)
      case Stuck => false
  {
    WfInverted(s, k);
    WfWithoutJump(s, k);
    var b, n := WithoutJump(s), |s.c| - 2;
    AppendRun(env, b, s, a, regs);
    AppendRun(env, b, Inverted(s), a, regs);
    NeverStuck(env, b, a, regs);
    var e := Run(env, b, a, regs);
    if e.Here? {
      TestRun(env, s, n, e.regs);
      TestRun(env, Inverted(s), n, e.regs);
    } else {
      RunJump(env, b, a, regs);
    }
  }

  /** Code is left through pending jumps. */
  lemma {:induction false} RunJump(env: Env, s: State, a: nat, regs: Regs)
    requires a <= |s.c|
    ensures Run(env, s, a, regs).Jump? ==> Run(env, s, a, regs).p in s.pend && 0 <= Run(env, s, a, regs).p < |s.c|
    decreases |s.c| - a
  {
    if a < |s.c| {
      var d := Advance(env, s.k, s.c[a], regs);
      if 0 < d && a + d <= |s.c| {
        RunJump(env, s, a + d, Effect(env, s.k, s.c[a], regs));
      }
    }
  }

  lemma InvertShape(s0: State, s: State, v: View)
    requires Shape(s0, s, v) && v.k.VJmp?
    ensures Shape(s0, Inverted(s), v)
  {
    WfInverted(s, v.k);
    var s1 := Inverted(s);
    forall p | p in s0.pend ensures p in s1.pend && SameJump(s0.c, s1.c, p) {
      assert SameJump(s0.c, s.c, p) && p < |s0.c|;
    }
    forall i | 0 <= i < |s0.c| ensures TMode(s1.c[i]) <==> TMode(s0.c[i]) {
      assert TMode(s.c[i]) <==> TMode(s0.c[i]);
    }
  }

  /**
   A comparison with the last jump in the list that it goes to: `s1` is inverted when the code is to go on when true.
   */
  lemma JumpSplit(s0: State, s: State, v: View, s1: State, which: bool, base: nat, x: Expr)
    requires Shape(s0, s, v) && ExprOk(s0, s, v, base, -1, x) && v.k.VJmp? && s1 == if which then Inverted(s) else s
    ensures SplitOk(s0, s1, TrueList(v, which, v.k.pc), FalseList(v, which, v.k.pc), which, base, x)
    ensures Shape(s0, s1, View(VTrue, TrueList(v, which, v.k.pc), FalseList(v, which, v.k.pc)))
  {
    InvertShape(s0, s, v);
    var ts, fs := TrueList(v, which, v.k.pc), FalseList(v, which, v.k.pc);
    forall env: Env, a: nat, regs: Regs | a <= Limit(s0) && Entry(s0.c, a)
      ensures SplitAt(env, s0, s1, ts, fs, which, base, x, a, regs)
    {
      assert ExprAt(env, s0, s, v, base, -1, x, a, regs);
      JumpSplitAt(env, s0, s, v, s1, which, base, x, a, regs);
    }
  }

  lemma JumpSplitAt(env: Env, s0: State, s: State, v: View, s1: State, which: bool, base: nat, x: Expr, a: nat,
      regs: Regs)
    requires Shape(s0, s, v) && ExprAt(env, s0, s, v, base, -1, x, a, regs) && v.k.VJmp?
    requires s1 == if which then Inverted(s) else s
    requires a <= |s.c| - 2
    ensures SplitAt(env, s0, s1, TrueList(v, which, v.k.pc), FalseList(v, which, v.k.pc), which, base, x, a, regs)
  {
    NeverStuck(env, s0, a, regs);
    RunJump(env, s0, a, regs);
    RunJump(env, s, a, regs);
    InvertRun(env, s, v.k, a, regs);
    InvertLists(s, v, Run(env, s, a, regs));
  }

  /** Inverting does not touch the jumps of the lists. */
  lemma InvertLists(s: State, v: View, e: Exit)
    requires Wf(s) && v.k.VJmp? && KindOk(s, v.k)
    ensures !Controlled(s.c, v.k.pc) && !Controlled(Inverted(s).c, v.k.pc)
    ensures e.Jump? && e.p in s.pend ==>
      (Controlled(Inverted(s).c, e.p) <==> Controlled(s.c, e.p))
        && (Controlled(s.c, e.p) ==> Inverted(s).c[e.p - 1] == s.c[e.p - 1])
  {
  }

  // ----- links -----

  /** Only the links of the jumps in `l` change. */
  ghost predicate Relinked(s: State, s1: State, l: set<int>) {
    && |s1.c| == |s.c| && s1 == s.(c := s1.c)
    && forall i {:trigger s1.c[i]} :: 0 <= i < |s.c| ==> s1.c[i] == s.c[i] || (i in l && s.c[i].Jmp? && s1.c[i].Jmp?)
  }

  /** Jumps that are not waiting for what came before `s0`. */
  ghost predicate Own(s0: State, s: State, l: set<int>) {
    forall p {:trigger p in l} :: p in l ==> p in s.here || (p in s.pend && |s0.c| <= p)
  }

  lemma RelinkRun(env: Env, s: State, s1: State, l: set<int>, a: nat, regs: Regs)
    requires Wf(s) && Relinked(s, s1, l) && l <= s.here + s.pend && a <= |s.c|
    ensures Run(env, s1, a, regs) == Run(env, s, a, regs)
  {
    forall i | 0 <= i < |s.c| ensures EditOk(s, s1, i) {
    }
    SameRun(env, s, s1, a, regs);
  }

  lemma RelinkShape(s0: State, s: State, v: View, s1: State, l: set<int>)
    requires Shape(s0, s, v) && Relinked(s, s1, l) && Own(s0, s, l) && (v.k.VJmp? ==> v.k.pc !in l)
    requires (v.k.VReloc? ==> v.k.at !in l)
    ensures Shape(s0, s1, v) && l <= s.here + s.pend
    ensures forall p {:trigger SameControl(s.c, s1.c, p)} :: SameControl(s.c, s1.c, p)
  {
    forall p | p in l ensures p in s.here + s.pend {
    }
    forall i | 0 <= i < |s.c| ensures EditOk(s, s1, i) && (TMode(s1.c[i]) <==> TMode(s.c[i])) {
    }
    WfEdit(s, s1);
    forall p | p in s0.pend ensures p in s1.pend && SameJump(s0.c, s1.c, p) {
      assert SameJump(s0.c, s.c, p) && p in s.pend;
      assert p in s.here ==> p !in s.pend;
      assert p !in l;
    }
    forall i | 0 <= i < |s0.c| ensures TMode(s1.c[i]) <==> TMode(s0.c[i]) {
      assert TMode(s.c[i]) <==> TMode(s0.c[i]);
    }
  }

  /** The test that controls jump `p` is the same. */
  predicate SameControl(c: seq<Instr>, c1: seq<Instr>, p: int) {
    |c1| == |c| && (0 < p < |c| && (c[p - 1].TestSet? || c1[p - 1].TestSet?) ==> c1[p - 1] == c[p - 1])
  }

  lemma RelinkSplit(s0: State, s: State, ts: seq<int>, fs: seq<int>, which: bool, base: nat, x: Expr, s1: State,
      l: set<int>)
    requires Shape(s0, s, View(VTrue, ts, fs)) && SplitOk(s0, s, ts, fs, which, base, x)
    requires Relinked(s, s1, l) && Own(s0, s, l)
    ensures Shape(s0, s1, View(VTrue, ts, fs)) && SplitOk(s0, s1, ts, fs, which, base, x)
  {
    RelinkShape(s0, s, View(VTrue, ts, fs), s1, l);
    forall env: Env, a: nat, regs: Regs | a <= Limit(s0) && Entry(s0.c, a)
      ensures SplitAt(env, s0, s1, ts, fs, which, base, x, a, regs)
    {
      assert SplitAt(env, s0, s, ts, fs, which, base, x, a, regs);
      RelinkRun(env, s, s1, l, a, regs);
      var e := Run(env, s, a, regs);
      if e.Jump? {
        assert SameControl(s.c, s1.c, e.p);
      }
    }
  }

  /** The list of the jumps that are not taken any more ends here, and the code goes on if the truth is `which`. */
  lemma SplitDone(s0: State, s: State, ts: seq<int>, fs: seq<int>, which: bool, base: nat, x: Expr, s1: State,
      l: set<int>)
    requires Shape(s0, s, View(VTrue, ts, fs)) && SplitOk(s0, s, ts, fs, which, base, x)
    requires Relinked(s, s1, l) && Own(s0, s, l)
    ensures var s2 := ToHere(s1, Elems(if which then ts else fs));
      && CondOk(s0, s2, if which then fs else ts, which, base, x)
      && Shape(s0, s2, View(VTrue, if which then [] else ts, if which then fs else []))
  {
    var closed := if which then ts else fs;
    var s2 := ToHere(s1, Elems(closed));
    RelinkShape(s0, s, View(VTrue, ts, fs), s1, l);
    DoneShape(s0, s1, ts, fs, which);
    var open := if which then fs else ts;
    forall env: Env, a: nat, regs: Regs | a <= Limit(s0) && Entry(s0.c, a)
      ensures CondAt(env, s0, s2, open, which, base, x, a, regs)
    {
      assert SplitAt(env, s0, s, ts, fs, which, base, x, a, regs);
      RelinkRun(env, s, s1, l, a, regs);
      ToHereRun(env, s1, Elems(closed), a, regs);
      NeverStuck(env, s0, a, regs);
      RunJump(env, s0, a, regs);
      var e := Run(env, s, a, regs);
      if e.Jump? {
        assert SameControl(s.c, s1.c, e.p);
      }
    }
  }

  lemma DoneShape(s0: State, s: State, ts: seq<int>, fs: seq<int>, which: bool)
    requires Shape(s0, s, View(VTrue, ts, fs))
    ensures var s2 := ToHere(s, Elems(if which then ts else fs));
      && Elems(if which then ts else fs) <= s.pend
      && Shape(s0, s2, View(VTrue, if which then [] else ts, if which then fs else []))
  {
    var closed := if which then ts else fs;
    forall p | p in closed ensures p in s.pend {
      assert if which then p in ts else p in fs;
    }
    WfToHere(s, Elems(closed));
    forall p | p in s0.pend ensures p in s.pend && p !in closed && SameJump(s0.c, s.c, p) {
    }
  }

  // ----- and, or -----

  /** `a and b` or `a or b`: the list of the first operand is added to one of the second. */
  lemma BothShape(s0: State, s1: State, l1: seq<int>, which: bool, s2: State, v2: View, s3: State, l: set<int>)
    requires Shape(s0, s1, View(VTrue, if which then [] else l1, if which then l1 else []))
    requires Shape(s1, s2, v2) && Relinked(s2, s3, l) && Own(s0, s2, l) && (v2.k.VJmp? ==> v2.k.pc !in l)
    requires (v2.k.VReloc? ==> v2.k.at !in l)
    ensures Shape(s0, s2, Both(v2, l1, which)) && Shape(s0, s3, Both(v2, l1, which))
  {
    var v3 := Both(v2, l1, which);
    forall p | p in s0.pend ensures p in s2.pend && SameJump(s0.c, s2.c, p) {
      assert p in s1.pend && SameJump(s0.c, s1.c, p) && SameJump(s1.c, s2.c, p);
    }
    forall i | 0 <= i < |s0.c| ensures TMode(s2.c[i]) <==> TMode(s0.c[i]) {
      assert TMode(s2.c[i]) <==> TMode(s1.c[i]);
      assert TMode(s1.c[i]) <==> TMode(s0.c[i]);
    }
    forall p | p in l1 ensures p in s2.pend && |s0.c| <= p < |s1.c| {
      assert p in s1.pend;
    }
    assert ListsOk(s0, s2, v3);
    RelinkShape(s0, s2, v3, s3, l);
  }

  function Both(v: View, l: seq<int>, which: bool): View {
    if which then v.(fs := v.fs + l) else v.(ts := v.ts + l)
  }

  lemma BothExpr(s0: State, s1: State, l1: seq<int>, which: bool, s2: State, v2: View, s3: State, l: set<int>,
      base: nat, xa: Expr, xb: Expr)
    requires Shape(s0, s1, View(VTrue, if which then [] else l1, if which then l1 else []))
    requires CondOk(s0, s1, l1, which, base, xa)
    requires Shape(s1, s2, v2) && ExprOk(s1, s2, v2, base, -1, xb)
    requires Relinked(s2, s3, l) && Own(s0, s2, l) && (v2.k.VJmp? ==> v2.k.pc !in l) && (v2.k.VReloc? ==> v2.k.at !in l)
    requires LocalsBelow(xb, base)
    ensures ExprOk(s0, s3, Both(v2, l1, which), base, -1, if which then EAnd(xa, xb) else EOr(xa, xb))
    ensures Shape(s0, s3, Both(v2, l1, which))
  {
    BothShape(s0, s1, l1, which, s2, v2, s3, l);
    var v3, x := Both(v2, l1, which), if which then EAnd(xa, xb) else EOr(xa, xb);
    forall env: Env, a: nat, regs: Regs | a <= Limit(s0) && Entry(s0.c, a)
      ensures ExprAt(env, s0, s2, v3, base, -1, x, a, regs)
    {
      BothAt(env, s0, s1, l1, which, s2, v2, base, xa, xb, a, regs);
    }
    RelinkExpr(s0, s2, v3, s3, l, base, -1, x);
  }

  lemma RelinkExpr(s0: State, s: State, v: View, s1: State, l: set<int>, base: nat, exc: int, x: Expr)
    requires Shape(s0, s, v) && Relinked(s, s1, l) && Own(s0, s, l) && (v.k.VJmp? ==> v.k.pc !in l)
    requires (v.k.VReloc? ==> v.k.at !in l)
    requires ExprOk(s0, s, v, base, exc, x)
    ensures ExprOk(s0, s1, v, base, exc, x) && Shape(s0, s1, v)
  {
    hide Run, Eval, Same, Body, Limit, SameJump, Kept, KindOk, ListsOk, Own, SameControl;
    RelinkShape(s0, s, v, s1, l);
    RelinkBody(s, v.k, s1, l);
    WfBody(s, v.k);
    forall env: Env, a: nat, regs: Regs | a <= Limit(s0) && Entry(s0.c, a)
      ensures ExprAt(env, s0, s1, v, base, exc, x, a, regs)
    {
      assert ExprAt(env, s0, s, v, base, exc, x, a, regs);
      RelinkRun(env, Body(s, v.k), Body(s1, v.k), l, a, regs);
      var e := Run(env, Body(s, v.k), a, regs);
      if e.Jump? {
        assert SameControl(s.c, s1.c, e.p);
      }
    }
  }

  lemma RelinkBody(s: State, k: Kind, s1: State, l: set<int>)
    requires Wf(s) && KindOk(s, k) && Relinked(s, s1, l) && (k.VReloc? ==> k.at !in l) && l <= s.here + s.pend
    ensures Relinked(Body(s, k), Body(s1, k), l) && l <= Body(s, k).here + Body(s, k).pend
  {
  }

  lemma BothAt(env: Env, s0: State, s1: State, l1: seq<int>, which: bool, s2: State, v2: View, base: nat, xa: Expr,
      xb: Expr, a: nat, regs: Regs)
    requires Shape(s0, s1, View(VTrue, if which then [] else l1, if which then l1 else []))
    requires CondOk(s0, s1, l1, which, base, xa)
    requires Shape(s1, s2, v2) && ExprOk(s1, s2, v2, base, -1, xb) && LocalsBelow(xb, base)
    requires a <= Limit(s0) && Entry(s0.c, a)
    ensures ExprAt(env, s0, s2, Both(v2, l1, which), base, -1, if which then EAnd(xa, xb) else EOr(xa, xb), a, regs)
  {
    assert CondAt(env, s0, s1, l1, which, base, xa, a, regs);
    KeptEntry(s0, s1, a);
    assert ExprAt(env, s1, s2, v2, base, -1, xb, a, regs);
    NeverStuck(env, s0, a, regs);
    RunJump(env, s1, a, regs);
    var e0, e1 := Run(env, s0, a, regs), Run(env, s1, a, regs);
    if e0.Here? && e1.Here? {
      SecondOut(env, s2, v2, l1, which, base, xa, xb, e0.regs, e1.regs, Run(env, Body(s2, v2.k), a, regs));
    } else if e0.Here? && e1.Jump? {
      FirstOut(env, s0, s1, l1, which, s2, v2, base, xa, xb, e0.regs, e1);
    }
  }

  lemma SecondValue(env: Env, which: bool, base: nat, xa: Expr, xb: Expr, r0: Regs, r1: Regs)
    requires Same(r0, r1, base, -1) && Truthy(Eval(env, xa, r0)) == which && LocalsBelow(xb, base)
    ensures Eval(env, if which then EAnd(xa, xb) else EOr(xa, xb), r0) == Eval(env, xb, r1)
  {
    EvalSame(env, xb, r0, r1, base);
  }

  /** More jumps on the lists do not matter to an exit that takes none of them. */
  lemma OutBoth(env: Env, s2: State, v2: View, l1: seq<int>, which: bool, base: nat, u: Value, r0: Regs, r1: Regs,
      e: Exit)
    requires Same(r0, r1, base, -1) && Out(env, s2, v2, base, -1, u, r1, e)
    requires forall p: int {:trigger p in l1} :: p in l1 ==> 0 <= p && p !in v2.ts && p !in v2.fs && v2.k != VJmp(p)
    ensures Out(env, s2, Both(v2, l1, which), base, -1, u, r0, e)
  {
    hide Eval, Carries, Denotes;
  }

  /** The first operand does not decide: the second does. */
  lemma SecondOut(env: Env, s2: State, v2: View, l1: seq<int>, which: bool, base: nat, xa: Expr, xb: Expr, r0: Regs,
      r1: Regs, e: Exit)
    requires Same(r0, r1, base, -1) && Truthy(Eval(env, xa, r0)) == which && LocalsBelow(xb, base)
    requires Out(env, s2, v2, base, -1, Eval(env, xb, r1), r1, e)
    requires forall p: int {:trigger p in l1} :: p in l1 ==> 0 <= p && p !in v2.ts && p !in v2.fs && v2.k != VJmp(p)
    ensures Out(env, s2, Both(v2, l1, which), base, -1, Eval(env, if which then EAnd(xa, xb) else EOr(xa, xb), r0),
      r0, e)
  {
    hide Out, Eval;
    SecondValue(env, which, base, xa, xb, r0, r1);
    OutBoth(env, s2, v2, l1, which, base, Eval(env, xb, r1), r0, r1, e);
  }

  /** The first operand decides. */
  lemma FirstOut(env: Env, s0: State, s1: State, l1: seq<int>, which: bool, s2: State, v2: View, base: nat, xa: Expr,
      xb: Expr, r0: Regs, e: Exit)
    requires Shape(s0, s1, View(VTrue, if which then [] else l1, if which then l1 else [])) && Shape(s1, s2, v2)
    requires e.Jump? && e.p in l1 && Same(r0, e.regs, base, -1) && Carries(s1.c, e.p, e.regs, Eval(env, xa, r0), !which)
    ensures Out(env, s2, Both(v2, l1, which), base, -1, Eval(env, if which then EAnd(xa, xb) else EOr(xa, xb), r0),
      r0, e)
  {
    assert e.p in s1.pend && SameJump(s1.c, s2.c, e.p);
    CarriesKept(s1.c, s2.c, e.p, e.regs, Eval(env, xa, r0), !which);
  }
}
