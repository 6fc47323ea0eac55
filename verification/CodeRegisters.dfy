/**
 How `exp2reg` (lcode.c) ends an expression with pending jumps: the instructions that load a
 boolean, and the patching of both lists.
 */
module CodeRegisters {
  import opened Bytecode
  import opened CodeExpr
  import opened CodeSteps

  /** The last jump of a comparison goes to the list of jumps when true; the code goes on when false. */
  lemma ListJump(s0: State, s: State, v: View, base: nat, x: Expr)
    requires Shape(s0, s, v) && ExprOk(s0, s, v, base, -1, x) && v.k.VJmp?
    ensures Shape(s0, s, View(VFalse, v.ts + [v.k.pc], v.fs))
    ensures ExprOk(s0, s, View(VFalse, v.ts + [v.k.pc], v.fs), base, -1, x)
  {
    var v1 := View(VFalse, v.ts + [v.k.pc], v.fs);
    forall env: Env, a: nat, regs: Regs | a <= Limit(s0) && Entry(s0.c, a)
      ensures ExprAt(env, s0, s, v1, base, -1, x, a, regs)
    {
      assert ExprAt(env, s0, s, v, base, -1, x, a, regs);
      assert !Controlled(s.c, v.k.pc);
    }
  }

  /** `code_label` twice: loads of both booleans. */
  function Loads2(reg: nat): seq<Instr> {
    [LoadBool(reg, false, true), LoadBool(reg, true, false)]
  }

  /** The booleans are loaded after the code, which goes on when the value is false. */
  ghost function AfterFalse(sd: State, reg: nat): State {
    State(sd.c + Loads2(reg), sd.k, {}, sd.pend, |sd.c| + 2)
  }

  lemma LoadsRun(env: Env, s: State, n: nat, reg: nat, regs: Regs)
    requires n + 2 == |s.c| && s.c[n] == LoadBool(reg, false, true) && s.c[n + 1] == LoadBool(reg, true, false)
    ensures Run(env, s, n, regs) == Here(Set(regs, reg, Bool(false)))
    ensures Run(env, s, n + 1, regs) == Here(Set(regs, reg, Bool(true)))
  {
    assert Run(env, s, n + 2, Set(regs, reg, Bool(false))) == Here(Set(regs, reg, Bool(false)));
    assert Run(env, s, n + 2, Set(regs, reg, Bool(true))) == Here(Set(regs, reg, Bool(true)));
  }

  lemma FalseShape(s0: State, s: State, v: View, sd: State, reg: nat)
    requires Shape(s0, s, v) && v.k.VFalse? && Wf(s) && Discharged(s, sd)
    ensures Emitted(s, sd, AfterFalse(sd, reg))
    ensures Shape(s0, AfterFalse(sd, reg), View(VNonReloc(reg), v.ts, v.fs))
  {
    var s1 := AfterFalse(sd, reg);
    WfDischarge(s, sd);
    assert InstrOk(s1, |sd.c|) && InstrOk(s1, |sd.c| + 1);
    WfAppend(sd, s1);
    EmitKept(s0, s, sd, s1);
  }

  lemma FalseExpr(s0: State, s: State, v: View, sd: State, reg: nat, base: nat, x: Expr)
    requires Shape(s0, s, v) && ExprOk(s0, s, v, base, -1, x) && v.k.VFalse? && Discharged(s, sd)
    ensures Shape(s0, AfterFalse(sd, reg), View(VNonReloc(reg), v.ts, v.fs))
    ensures ExprOk(s0, AfterFalse(sd, reg), View(VNonReloc(reg), v.ts, v.fs), base, reg, x)
  {
    var s1, v1 := AfterFalse(sd, reg), View(VNonReloc(reg), v.ts, v.fs);
    FalseShape(s0, s, v, sd, reg);
    forall env: Env, a: nat, regs: Regs | a <= Limit(s0) && Entry(s0.c, a)
      ensures ExprAt(env, s0, s1, v1, base, reg, x, a, regs)
    {
      assert ExprAt(env, s0, s, v, base, -1, x, a, regs);
      EmitRun(env, s, sd, s1, a, regs);
      NeverStuck(env, s0, a, regs);
      var e := Run(env, s, a, regs);
      if Run(env, s0, a, regs).Here? {
        if e.Here? {
          LoadsRun(env, s1, |sd.c|, reg, e.regs);
        } else {
          EmitCarries(s0, s, v, sd, s1, e.p);
        }
      }
    }
  }

  /** A jump over the loads; jumps to the end of the code wait for the end of the loads now. */
  ghost function AfterJump(s: State, reg: nat, link: int): State {
    State(s.c + [Jmp(link)] + Loads2(reg), s.k, s.here + {|s.c|}, s.pend, |s.c| + 3)
  }

  ghost function Held(s: State): State {
    s.(here := {}, pend := s.pend + s.here)
  }

  /** The pending jumps of the state, and the new one, arrive after the loads. */
  lemma ToHereJump(s: State, reg: nat, link: int)
    requires Wf(s)
    ensures var s1, l := AfterJump(s, reg, link), s.here + {|s.c|};
      ToHere(s1.(here := {}, pend := s.pend + l), l) == s1
  {
    var s1, l := AfterJump(s, reg, link), s.here + {|s.c|};
    assert forall p :: p in s.pend ==> p !in l;
    assert {} + l == s1.here && s.pend + l - l == s1.pend;
  }

  lemma JumpWf(s: State, reg: nat, link: int)
    requires Wf(s)
    ensures Wf(AfterJump(s, reg, link)) && Wf(Held(s))
    ensures Appended(Held(s), AfterJump(s, reg, link).(here := {}, pend := s.pend + (s.here + {|s.c|})))
  {
    var h := Held(s);
    forall i | 0 <= i < |s.c| ensures InstrOk(h, i) {
      assert InstrOk(s, i);
    }
    var s1 := AfterJump(s, reg, link);
    var s2 := s1.(here := {}, pend := s.pend + (s.here + {|s.c|}));
    EndEntry(s);
    assert InstrOk(s2, |s.c|) && InstrOk(s2, |s.c| + 1) && InstrOk(s2, |s.c| + 2);
    WfAppend(h, s2);
    WfToHere(s2, s.here + {|s.c|});
    ToHereJump(s, reg, link);
  }

  lemma JumpRun(env: Env, s: State, reg: nat, link: int, a: nat, regs: Regs)
    requires Wf(s) && a <= |s.c|
    ensures Run(env, AfterJump(s, reg, link), a, regs) == Run(env, s, a, regs)
  {
    JumpWf(s, reg, link);
    var h, s1, l := Held(s), AfterJump(s, reg, link), s.here + {|s.c|};
    var s2 := s1.(here := {}, pend := s.pend + l);
    assert h.pend + {|s.c|} == s2.pend;
    AppendRun(env, h, s2, a, regs);
    ToHereRun(env, s2, l, a, regs);
    ToHereJump(s, reg, link);
    ToHereRun(env, h, s.here, a, regs);
    LabelRun(env, s, ToHere(h, s.here), a, regs);
    RunJump(env, h, a, regs);
    var e := Run(env, h, a, regs);
    if e.Here? {
      assert Run(env, s2, |s.c|, e.regs) == Jump(|s.c|, e.regs);
    }
  }

  /** Labels do not matter to a run. */
  lemma {:induction false} LabelRun(env: Env, s: State, s1: State, a: nat, regs: Regs)
    requires a <= |s.c| && s1 == s.(lasttarget := s1.lasttarget)
    ensures Run(env, s1, a, regs) == Run(env, s, a, regs)
    decreases |s.c| - a
  {
    if a < |s.c| {
      var d := Advance(env, s.k, s.c[a], regs);
      if 0 < d && a + d <= |s.c| {
        LabelRun(env, s, s1, a + d, Effect(env, s.k, s.c[a], regs));
      }
    }
  }

  lemma JumpExpr(s0: State, s: State, v: View, reg: nat, link: int, base: nat, x: Expr)
    requires Shape(s0, s, v) && ExprOk(s0, s, v, base, reg, x) && v.k == VNonReloc(reg)
    ensures Shape(s0, AfterJump(s, reg, link), v) && ExprOk(s0, AfterJump(s, reg, link), v, base, reg, x)
  {
    var s1 := AfterJump(s, reg, link);
    JumpWf(s, reg, link);
    forall env: Env, a: nat, regs: Regs | a <= Limit(s0) && Entry(s0.c, a)
      ensures ExprAt(env, s0, s1, v, base, reg, x, a, regs)
    {
      assert ExprAt(env, s0, s, v, base, reg, x, a, regs);
      JumpRun(env, s, reg, link, a, regs);
      var e := Run(env, s, a, regs);
      RunJump(env, s, a, regs);
    }
  }

  // ----- patching both lists -----

  /** After a label at the end. */
  lemma LabelExpr(s0: State, s: State, v: View, base: nat, exc: int, x: Expr)
    requires Shape(s0, s, v) && ExprOk(s0, s, v, base, exc, x) && v.k.VNonReloc?
    ensures Shape(s0, s.(lasttarget := |s.c|), v) && ExprOk(s0, s.(lasttarget := |s.c|), v, base, exc, x)
  {
    var s1 := s.(lasttarget := |s.c|);
    forall i | 0 <= i < |s.c| ensures InstrOk(s1, i) {
      assert InstrOk(s, i);
    }
    forall env: Env, a: nat, regs: Regs | a <= Limit(s0) && Entry(s0.c, a)
      ensures ExprAt(env, s0, s1, v, base, exc, x, a, regs)
    {
      assert ExprAt(env, s0, s, v, base, exc, x, a, regs);
      LabelRun(env, s, s1, a, regs);
    }
  }

  /** The list of the jumps that leave when the truth is `which`. */
  function ListOf(v: View, which: bool): seq<int> {
    if which then v.ts else v.fs
  }

  function Without(v: View, which: bool): View {
    if which then v.(ts := []) else v.(fs := [])
  }

  /** There is a load for the jumps without a value, if there are any. */
  ghost predicate DefaultOk(s: State, l: seq<int>, which: bool, reg: nat, dt: nat) {
    (exists p :: p in l && !Controlled(s.c, p)) ==>
      && |s.c| >= 2 && s.c[|s.c| - 2] == LoadBool(reg, false, true) && s.c[|s.c| - 1] == LoadBool(reg, true, false)
      && dt == (if which then |s.c| - 1 else |s.c| - 2) && forall p :: p in l ==> p < |s.c| - 2
  }

  ghost predicate PatchesList(s0: State, s: State, v: View, s1: State, which: bool, reg: nat, dt: nat) {
    && Shape(s0, s, v) && v.k == VNonReloc(reg) && s.lasttarget == |s.c|
    && Patched(s.c, s1.c, Elems(ListOf(v, which)), reg, |s.c|, dt)
    && s1 == s.(c := s1.c, pend := s.pend - Elems(ListOf(v, which)))
    && DefaultOk(s, ListOf(v, which), which, reg, dt) && dt <= |s.c|
  }

  /** The default target that counts: the end, if no jump of the list needs a load. */
  ghost function Default(s: State, l: seq<int>, dt: nat): nat {
    if exists p :: p in l && !Controlled(s.c, p) then dt else |s.c|
  }

  lemma ListPending(s0: State, s: State, v: View, which: bool)
    requires Shape(s0, s, v)
    ensures Elems(ListOf(v, which)) <= s.pend
    ensures forall p :: p in ListOf(v, which) ==> 0 <= |s0.c| <= p < |s.c| && s.c[p].Jmp?
  {
    var l := ListOf(v, which);
    forall p | p in l ensures p in s.pend && 0 <= |s0.c| <= p < |s.c| && s.c[p].Jmp? {
      assert if which then p in v.ts else p in v.fs;
    }
    forall p | p in Elems(l) ensures p in s.pend {
      assert p in l;
    }
  }

  lemma ListCanPatch(s0: State, s: State, v: View, s1: State, which: bool, reg: nat, dt: nat)
    requires PatchesList(s0, s, v, s1, which, reg, dt)
    ensures var l := ListOf(v, which); var d := Default(s, l, dt);
      CanPatch(s, s1, Elems(l), reg, |s.c|, d) && Entry(s.c, d) && Entry(s.c, |s.c|)
  {
    var l := ListOf(v, which);
    var d := Default(s, l, dt);
    ListPending(s0, s, v, which);
    EndEntry(s);
    forall i | 0 <= i < |s.c| ensures PatchedAt(s.c, s1.c, Elems(l), reg, |s.c|, d, i) {
      assert PatchedAt(s.c, s1.c, Elems(l), reg, |s.c|, dt, i);
    }
    if d == |s.c| - 2 && |s.c| >= 3 {
      assert InstrOk(s, |s.c| - 3);
    }
  }

  lemma PatchShape(s0: State, s: State, v: View, s1: State, which: bool, reg: nat, dt: nat)
    requires PatchesList(s0, s, v, s1, which, reg, dt)
    ensures Shape(s0, s1, Without(v, which))
  {
    var l := ListOf(v, which);
    var d := Default(s, l, dt);
    ListCanPatch(s0, s, v, s1, which, reg, dt);
    ListPending(s0, s, v, which);
    WfPatch(s, s1, Elems(l), reg, |s.c|, d);
    forall p | p in s0.pend ensures p in s1.pend && SameJump(s0.c, s1.c, p) {
      assert p in s.pend && SameJump(s0.c, s.c, p) && p < |s0.c| && p !in l;
      PatchKeeps(s, s1, Elems(l), reg, d, p);
    }
    forall i | 0 <= i < |s0.c| ensures TMode(s1.c[i]) <==> TMode(s0.c[i]) {
      assert TMode(s.c[i]) <==> TMode(s0.c[i]);
      assert PatchedAt(s.c, s1.c, Elems(l), reg, |s.c|, d, i);
    }
  }

  /** A jump that is not patched keeps its test. */
  lemma PatchKeeps(s: State, s1: State, l: set<int>, reg: nat, d: nat, p: int)
    requires CanPatch(s, s1, l, reg, |s.c|, d) && p in s.pend && p !in l
    ensures SameJump(s.c, s1.c, p) && (Controlled(s1.c, p) <==> Controlled(s.c, p))
  {
    assert PatchedAt(s.c, s1.c, l, reg, |s.c|, d, p);
    if p > 0 {
      assert PatchedAt(s.c, s1.c, l, reg, |s.c|, d, p - 1) && InstrOk(s, p - 1);
    }
  }

  /** The jumps of one list are patched: their values come to `reg` too. */
  lemma PatchExpr(s0: State, s: State, v: View, s1: State, which: bool, reg: nat, dt: nat, base: nat, x: Expr)
    requires PatchesList(s0, s, v, s1, which, reg, dt) && ExprOk(s0, s, v, base, reg, x)
    ensures Shape(s0, s1, Without(v, which)) && ExprOk(s0, s1, Without(v, which), base, reg, x)
  {
    PatchShape(s0, s, v, s1, which, reg, dt);
    var v1 := Without(v, which);
    forall env: Env, a: nat, regs: Regs | a <= Limit(s0) && Entry(s0.c, a)
      ensures ExprAt(env, s0, s1, v1, base, reg, x, a, regs)
    {
      assert ExprAt(env, s0, s, v, base, reg, x, a, regs);
      KeptEntry(s0, s, a);
      PatchedRun(env, s0, s, v, s1, which, reg, dt, a, regs);
      NeverStuck(env, s0, a, regs);
      RunJump(env, s0, a, regs);
      RunJump(env, s, a, regs);
      var e0, e := Run(env, s0, a, regs), Run(env, s, a, regs);
      ListCanPatch(s0, s, v, s1, which, reg, dt);
      if e0.Here? && e.Jump? {
        PatchOut(env, s0, s, v, s1, which, reg, dt, base, Eval(env, x, e0.regs), e0.regs, e);
      }
    }
  }

  /** What becomes of an exit. */
  ghost function Arrived(s: State, v: View, which: bool, reg: nat, e: Exit): Exit {
    if e.Jump? && e.p in ListOf(v, which) then
      if Controlled(s.c, e.p) then Here(Leave(e.regs, reg, s.c[e.p - 1].b)) else Here(Set(e.regs, reg, Bool(which)))
    else e
  }

  lemma PatchedRun(env: Env, s0: State, s: State, v: View, s1: State, which: bool, reg: nat, dt: nat, a: nat,
      regs: Regs)
    requires PatchesList(s0, s, v, s1, which, reg, dt) && a <= |s.c| && Entry(s.c, a)
    ensures Run(env, s1, a, regs) == Arrived(s, v, which, reg, Run(env, s, a, regs))
  {
    hide Wf, Controlled, Body, SameJump, Kept, ListsOk, Shape, ListOf;
    var l := ListOf(v, which);
    var d := Default(s, l, dt);
    ListCanPatch(s0, s, v, s1, which, reg, dt);
    PatchRun(env, s, s1, Elems(l), reg, |s.c|, d, a, regs);
    var e := Run(env, s, a, regs);
    if e.Jump? && e.p in l && !Controlled(s.c, e.p) {
      var n := |s.c| - 2;
      ListPending(s0, s, v, which);
      assert PatchedAt(s.c, s1.c, Elems(l), reg, |s.c|, d, n) && PatchedAt(s.c, s1.c, Elems(l), reg, |s.c|, d, n + 1);
      LoadsRun(env, s1, n, reg, e.regs);
    }
  }

  lemma PatchOut(env: Env, s0: State, s: State, v: View, s1: State, which: bool, reg: nat, dt: nat, base: nat,
      x: Value, r0: Regs, e: Exit)
    requires PatchesList(s0, s, v, s1, which, reg, dt) && e.Jump? && e.p in s.pend
    requires Out(env, s, v, base, reg, x, r0, e)
    ensures Out(env, s1, Without(v, which), base, reg, x, r0, Arrived(s, v, which, reg, e))
  {
    var l := ListOf(v, which);
    ListCanPatch(s0, s, v, s1, which, reg, dt);
    if e.p !in l {
      PatchKeeps(s, s1, Elems(l), reg, Default(s, l, dt), e.p);
    }
  }
}
