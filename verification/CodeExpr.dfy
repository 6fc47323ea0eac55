/**
 What it means that code in progress computes an expression (lcode.c): expressions with their
 values, expression descriptors with their patch lists, and the effect of each step of the code
 generator on both.
 */
module CodeExpr {
  import opened Bytecode

  datatype BinCmp = CmpEq | CmpNe | CmpLt | CmpLe | CmpGt | CmpGe

  datatype Expr =
    | ENil | ETrue | EFalse
    | EInt(i: int) | EFlt(r: real) | EStr(s: string)
    | ELocal(reg: nat) | EUpval(u: nat)
    | ENot(e: Expr)
    | EAnd(l: Expr, r': Expr) | EOr(l: Expr, r': Expr)
    | ECmp(op: BinCmp, l: Expr, r': Expr)

  /** Short-circuit evaluation. */
  ghost function Eval(env: Env, x: Expr, regs: Regs): Value {
    match x
    case ENil => Nil
    case ETrue => Bool(true)
    case EFalse => Bool(false)
    case EInt(i) => Int(i)
    case EFlt(r) => Flt(r)
    case EStr(s) => Str(s)
    case ELocal(r) => regs(r)
    case EUpval(u) => env.up(u)
    case ENot(e) => Bool(!Truthy(Eval(env, e, regs)))
    case EAnd(l, r) => var v := Eval(env, l, regs); if Truthy(v) then Eval(env, r, regs) else v
    case EOr(l, r) => var v := Eval(env, l, regs); if Truthy(v) then v else Eval(env, r, regs)
    case ECmp(op, l, r) =>
      var v, w := Eval(env, l, regs), Eval(env, r, regs);
      Bool(match op
           case CmpEq => env.eq(v, w)
           case CmpNe => !env.eq(v, w)
           case CmpLt => env.lt(v, w)
           case CmpLe => env.le(v, w)
           case CmpGt => env.lt(w, v)
           case CmpGe => env.le(w, v))
  }

  /** The locals of an expression. */
  predicate LocalsBelow(x: Expr, n: nat) {
    match x
    case ELocal(r) => r < n
    case ENot(e) => LocalsBelow(e, n)
    case EAnd(l, r) => LocalsBelow(l, n) && LocalsBelow(r, n)
    case EOr(l, r) => LocalsBelow(l, n) && LocalsBelow(r, n)
    case ECmp(_, l, r) => LocalsBelow(l, n) && LocalsBelow(r, n)
    case _ => true
  }

  /** The registers below `base` are the same, but for `exc`. */
  ghost predicate Same(r0: Regs, r1: Regs, base: nat, exc: int) {
    forall r: nat {:trigger r1(r)} :: r < base && r != exc ==> r1(r) == r0(r)
  }

  lemma {:induction false} EvalSame(env: Env, x: Expr, r0: Regs, r1: Regs, base: nat)
    requires Same(r0, r1, base, -1) && LocalsBelow(x, base)
    ensures Eval(env, x, r1) == Eval(env, x, r0)
  {
    match x
    case ENot(e) => EvalSame(env, e, r0, r1, base);
    case EAnd(l, r) => EvalSame(env, l, r0, r1, base); EvalSame(env, r, r0, r1, base);
    case EOr(l, r) => EvalSame(env, l, r0, r1, base); EvalSame(env, r, r0, r1, base);
    case ECmp(_, l, r) => EvalSame(env, l, r0, r1, base); EvalSame(env, r, r0, r1, base);
    case _ =>
  }

  /** `expkind`, with what the union holds. */
  datatype Kind =
    | VNil | VTrue | VFalse
    | VK(info: nat) | VKInt(ival: int) | VKFlt(nval: real)
    | VNonReloc(reg: nat) | VLocal(local: nat) | VUpval(up: nat)
    | VJmp(pc: nat) | VReloc(at: nat)

  /** An expression descriptor with its lists of jumps that exit when true and when false. */
  datatype View = View(k: Kind, ts: seq<int>, fs: seq<int>)

  ghost function Elems(l: seq<int>): set<int> {
    set p | p in l
  }

  lemma ElemsEmpty(l: seq<int>)
    ensures Elems(l) == {} <==> l == []
  {
    if l != [] {
      assert l[0] in Elems(l);
    }
  }

  /** The code without the instruction whose target register is still open. */
  ghost function Body(s: State, k: Kind): State {
    if k.VReloc? && |s.c| > 0 then s.(c := s.c[..|s.c| - 1]) else s
  }

  predicate Relocatable(i: Instr) {
    i.GetUpval? || i.Not?
  }

  function Relocate(i: Instr, reg: nat): Instr
    requires Relocatable(i)
  {
    i.(a := reg)
  }

  /** The value that a descriptor stands for at the end of the code. */
  ghost function Denotes(env: Env, s: State, k: Kind, regs: Regs): Value {
    match k
    case VNil => Nil
    case VTrue => Bool(true)
    case VFalse => Bool(false)
    case VK(i) => Const(s.k, i)
    case VKInt(i) => Int(i)
    case VKFlt(r) => Flt(r)
    case VNonReloc(r) => regs(r)
    case VLocal(r) => regs(r)
    case VUpval(u) => env.up(u)
    case VJmp(_) => Bool(false)
    case VReloc(pc) =>
      if |s.c| > 0 && s.c[|s.c| - 1].GetUpval? then env.up(s.c[|s.c| - 1].u)
      else if |s.c| > 0 && s.c[|s.c| - 1].Not? then Bool(!Truthy(regs(s.c[|s.c| - 1].b)))
      else Nil
  }

  /** A jump of a patch list is taken: its test register has the value, or the value is the boolean `b`. */
  ghost predicate Carries(c: seq<Instr>, p: int, regs: Regs, x: Value, b: bool) {
    Truthy(x) == b && if Controlled(c, p) then regs(c[p - 1].b) == x else x == Bool(b)
  }

  /** How code that computes `x` may be left. */
  ghost predicate Out(env: Env, s: State, v: View, base: nat, exc: int, x: Value, r0: Regs, e: Exit) {
    match e
    case Here(r1) => Same(r0, r1, base, exc) && Denotes(env, s, v.k, r1) == x
    case Jump(p, r1) =>
      && Same(r0, r1, base, exc)
      && (if v.k.VJmp? && v.k.pc == p then x == Bool(true)
          else if p in v.ts then Carries(s.c, p, r1, x, true)
          else p in v.fs && Carries(s.c, p, r1, x, false))
    case Stuck => false
  }

  /** Where the code of `s` can be entered; a trailing OP_LOADNIL may still grow. */
  ghost function Limit(s: State): nat {
    if s.lasttarget < |s.c| && s.c[|s.c| - 1].LoadNil? then |s.c| - 1 else |s.c|
  }

  ghost predicate ExprAt(env: Env, s0: State, s: State, v: View, base: nat, exc: int, x: Expr, a: nat, regs: Regs) {
    a <= |s0.c| && a <= |Body(s, v.k).c| &&
      match Run(env, s0, a, regs)
      case Stuck => true
      case Jump(p, r) => Run(env, Body(s, v.k), a, regs) == Jump(p, r)
      case Here(r0) => Out(env, s, v, base, exc, Eval(env, x, r0), r0, Run(env, Body(s, v.k), a, regs))
  }

  /** From wherever one comes to the end of `s0`, the code of `s` goes on to compute `x`. */
  ghost predicate ExprOk(s0: State, s: State, v: View, base: nat, exc: int, x: Expr) {
    forall env: Env, a: nat, regs: Regs {:trigger ExprAt(env, s0, s, v, base, exc, x, a, regs)} ::
      a <= Limit(s0) && Entry(s0.c, a) ==> ExprAt(env, s0, s, v, base, exc, x, a, regs)
  }

  ghost predicate CondAt(env: Env, s0: State, s: State, l: seq<int>, which: bool, base: nat, x: Expr, a: nat,
      regs: Regs) {
    a <= |s0.c| && a <= |s.c| &&
      match Run(env, s0, a, regs)
      case Stuck => true
      case Jump(p, r) => Run(env, s, a, regs) == Jump(p, r)
      case Here(r0) =>
        match Run(env, s, a, regs)
        case Stuck => false
        case Here(r1) => Same(r0, r1, base, -1) && Truthy(Eval(env, x, r0)) == which
        case Jump(p, r1) => Same(r0, r1, base, -1) && p in l && Carries(s.c, p, r1, Eval(env, x, r0), !which)
  }

  /** The code goes on if the truth of `x` is `which`, and exits through `l` if it is not. */
  ghost predicate CondOk(s0: State, s: State, l: seq<int>, which: bool, base: nat, x: Expr) {
    forall env: Env, a: nat, regs: Regs {:trigger CondAt(env, s0, s, l, which, base, x, a, regs)} ::
      a <= Limit(s0) && Entry(s0.c, a) ==> CondAt(env, s0, s, l, which, base, x, a, regs)
  }

  // ----- shape -----

  /** Jump `p` and the test that controls it, if there is one, are the same. */
  predicate SameJump(c0: seq<Instr>, c: seq<Instr>, p: int) {
    0 <= p < |c0| && p < |c| && c[p] == c0[p] && (p > 0 && TMode(c0[p - 1]) ==> c[p - 1] == c0[p - 1])
  }

  /** What later code leaves as it is. */
  ghost predicate Kept(s0: State, s: State) {
    && |s0.c| <= |s.c| && s0.k <= s.k
    && (forall i {:trigger s.c[i]} :: 0 <= i < |s0.c| ==> (TMode(s.c[i]) <==> TMode(s0.c[i])))
    && (forall p {:trigger p in s0.pend} {:trigger SameJump(s0.c, s.c, p)} :: p in s0.pend ==>
      p in s.pend && SameJump(s0.c, s.c, p))
    && (forall p {:trigger p in s.pend} :: p in s.pend && 0 <= p < |s0.c| ==> p in s0.pend)
  }

  ghost predicate KindOk(s: State, k: Kind) {
    match k
    case VK(i) => i < |s.k|
    case VReloc(pc) => pc == |s.c| - 1 && Relocatable(s.c[pc]) && s.here == {} && s.lasttarget <= pc
    case VJmp(pc) => 0 < pc == |s.c| - 1 && s.c[pc - 1].Cmp? && s.c[pc] == Jmp(NO_JUMP) && pc in s.pend
      && s.here == {} && s.lasttarget < pc
    case _ => true
  }

  ghost predicate ListsOk(s0: State, s: State, v: View) {
    && (forall p: int {:trigger p in v.ts} :: p in v.ts ==> |s0.c| <= p && p in s.pend && p !in v.fs && v.k != VJmp(p))
    && (forall p: int {:trigger p in v.fs} :: p in v.fs ==> |s0.c| <= p && p in s.pend && v.k != VJmp(p))
    && (forall p: int {:trigger p in s.pend} :: p in s.pend && |s0.c| <= p ==> p in v.ts || p in v.fs || v.k == VJmp(p))
  }

  ghost predicate Shape(s0: State, s: State, v: View) {
    && Wf(s0) && Wf(s) && Kept(s0, s) && Limit(s0) <= Limit(s) && KindOk(s, v.k) && ListsOk(s0, s, v)
    && |s0.c| <= |Body(s, v.k).c| && (v.k.VJmp? ==> |s0.c| < |s.c| - 1)
  }

  /** The open instruction is not part of what has to be well formed. */
  lemma WfBody(s: State, k: Kind)
    requires Wf(s) && KindOk(s, k)
    ensures Wf(Body(s, k))
  {
    var b := Body(s, k);
    if k.VReloc? {
      forall i | 0 <= i < |b.c| ensures InstrOk(b, i) {
        assert InstrOk(s, i);
        assert forall x :: 0 <= x <= |b.c| && Entry(s.c, x) ==> Entry(b.c, x);
      }
      assert InstrOk(s, |s.c| - 1);
    }
  }

  // ----- new code -----

  /** `dischargejpc`: the jumps to the end are resolved. */
  ghost predicate Discharged(b: State, sd: State) {
    Patched(b.c, sd.c, b.here, NO_REG, |b.c|, |b.c|) && sd == b.(c := sd.c, here := {})
  }

  lemma DischargedKeeps(b: State, sd: State, p: int)
    requires Wf(b) && Discharged(b, sd) && p in b.pend
    ensures SameJump(b.c, sd.c, p)
  {
    assert PatchedAt(b.c, sd.c, b.here, NO_REG, |b.c|, |b.c|, p);
    if p > 0 {
      assert PatchedAt(b.c, sd.c, b.here, NO_REG, |b.c|, |b.c|, p - 1) && InstrOk(b, p - 1);
    }
  }

  /** `s1` has new instructions after the code of `b`. */
  ghost predicate Emitted(b: State, sd: State, s1: State) {
    Wf(b) && Discharged(b, sd) && Appended(sd, s1)
  }

  lemma EmitRun(env: Env, b: State, sd: State, s1: State, a: nat, regs: Regs)
    requires Emitted(b, sd, s1) && a <= |b.c|
    ensures Run(env, s1, a, regs) == Then(env, s1, |b.c|, Run(env, b, a, regs))
  {
    WfDischarge(b, sd);
    SameRun(env, b, sd, a, regs);
    AppendRun(env, sd, s1, a, regs);
  }

  lemma EmitKept(s0: State, b: State, sd: State, s1: State)
    requires Emitted(b, sd, s1) && Kept(s0, b)
    ensures Kept(s0, s1)
  {
    forall p | p in s0.pend ensures p in s1.pend && SameJump(s0.c, s1.c, p) {
      assert p in b.pend && SameJump(s0.c, b.c, p);
      DischargedKeeps(b, sd, p);
    }
    forall i | 0 <= i < |s0.c| ensures TMode(s1.c[i]) <==> TMode(s0.c[i]) {
      assert PatchedAt(b.c, sd.c, b.here, NO_REG, |b.c|, |b.c|, i);
      assert TMode(b.c[i]) <==> TMode(s0.c[i]);
      assert s1.c[i] == sd.c[i];
    }
  }

  /** The jumps in the lists carry what they did. */
  lemma CarriesKept(c: seq<Instr>, c1: seq<Instr>, p: int, regs: Regs, x: Value, b: bool)
    requires SameJump(c, c1, p) && (p > 0 ==> (TMode(c1[p - 1]) <==> TMode(c[p - 1])))
    ensures Carries(c1, p, regs, x, b) <==> Carries(c, p, regs, x, b)
  {
  }

  /** One more instruction that is no jump. */
  lemma LastRun(env: Env, s: State, n: nat, regs: Regs)
    requires n + 1 == |s.c| && !s.c[n].Jmp? && Advance(env, s.k, s.c[n], regs) == 1
    ensures Run(env, s, n, regs) == Here(Effect(env, s.k, s.c[n], regs))
  {
    assert Run(env, s, n + 1, Effect(env, s.k, s.c[n], regs)) == Here(Effect(env, s.k, s.c[n], regs));
  }

  /** A test, and the pending jump that it controls. */
  lemma TestRun(env: Env, s: State, n: nat, regs: Regs)
    requires n + 2 == |s.c| && TMode(s.c[n]) && s.c[n + 1].Jmp? && n + 1 in s.pend && n + 1 !in s.here
    requires s.c[n].TestSet? ==> s.c[n].target == NO_REG
    ensures Run(env, s, n, regs) == if Advance(env, s.k, s.c[n], regs) == 1 then Jump(n + 1, regs) else Here(regs)
  {
    assert Run(env, s, n + 1, regs) == Jump(n + 1, regs);
    assert Run(env, s, n + 2, regs) == Here(regs);
  }

  // ----- loading a value into a register -----

  /** The instruction that puts what `k` stands for into `reg`. */
  ghost predicate Loads(s: State, k1: seq<Value>, k: Kind, i: Instr, reg: nat) {
    match k
    case VNil => i == LoadNil(reg, 0)
    case VFalse => i == LoadBool(reg, false, false)
    case VTrue => i == LoadBool(reg, true, false)
    case VK(info) => i == LoadK(reg, info)
    case VKInt(n) => i.LoadK? && i.a == reg && i.bx < |k1| && k1[i.bx] == Int(n)
    case VKFlt(r) => i.LoadK? && i.a == reg && i.bx < |k1| && k1[i.bx] == Flt(r)
    case VNonReloc(r) => i == Move(reg, r)
    case VReloc(pc) => pc < |s.c| && Relocatable(s.c[pc]) && i == Relocate(s.c[pc], reg)
    case _ => false
  }

  lemma LoadValue(env: Env, s: State, s1: State, k: Kind, i: Instr, reg: nat, regs: Regs)
    requires KindOk(s, k) && s.k <= s1.k && Loads(s, s1.k, k, i, reg)
    ensures Effect(env, s1.k, i, regs)(reg) == Denotes(env, s, k, regs)
    ensures Same(regs, Effect(env, s1.k, i, regs), reg, reg)
    ensures forall r: nat :: r != reg ==> Effect(env, s1.k, i, regs)(r) == regs(r)
    ensures !i.Jmp? && Advance(env, s1.k, i, regs) == 1
  {
  }

  lemma LoadWf(s: State, k: Kind, sd: State, s1: State, i: Instr, reg: nat)
    requires Wf(s) && KindOk(s, k) && Loads(s, s1.k, k, i, reg)
    requires Emitted(Body(s, k), sd, s1) && s1 == sd.(c := sd.c + [i], k := s1.k)
    ensures Wf(s1)
  {
    WfDischarge(Body(s, k), sd);
    assert InstrOk(s1, |sd.c|);
    WfAppend(sd, s1);
  }

  lemma LoadShape(s0: State, s: State, v: View, sd: State, s1: State, i: Instr, reg: nat)
    requires Shape(s0, s, v) && !v.k.VJmp? && Loads(s, s1.k, v.k, i, reg)
    requires Emitted(Body(s, v.k), sd, s1) && s1 == sd.(c := sd.c + [i], k := s1.k)
    ensures Shape(s0, s1, View(VNonReloc(reg), v.ts, v.fs))
  {
    LoadWf(s, v.k, sd, s1, i, reg);
    BodyKept(s0, s, v);
    EmitKept(s0, Body(s, v.k), sd, s1);
  }

  lemma BodyKept(s0: State, s: State, v: View)
    requires Shape(s0, s, v)
    ensures Kept(s0, Body(s, v.k))
  {
  }

  lemma LoadExpr(s0: State, s: State, v: View, sd: State, s1: State, i: Instr, reg: nat, base: nat, x: Expr)
    requires Shape(s0, s, v) && ExprOk(s0, s, v, base, -1, x) && !v.k.VJmp? && Loads(s, s1.k, v.k, i, reg)
    requires Emitted(Body(s, v.k), sd, s1) && s1 == sd.(c := sd.c + [i], k := s1.k)
    ensures ExprOk(s0, s1, View(VNonReloc(reg), v.ts, v.fs), base, reg, x)
  {
    var b, v1 := Body(s, v.k), View(VNonReloc(reg), v.ts, v.fs);
    forall env: Env, a: nat, regs: Regs | a <= Limit(s0) && Entry(s0.c, a)
      ensures ExprAt(env, s0, s1, v1, base, reg, x, a, regs)
    {
      assert ExprAt(env, s0, s, v, base, -1, x, a, regs);
      EmitRun(env, b, sd, s1, a, regs);
      NeverStuck(env, s0, a, regs);
      var e0, e := Run(env, s0, a, regs), Run(env, b, a, regs);
      if e0.Here? {
        if e.Here? {
          LoadValue(env, s, s1, v.k, i, reg, e.regs);
          LastRun(env, s1, |b.c|, e.regs);
        } else {
          EmitCarries(s0, s, v, sd, s1, e.p);
        }
      }
    }
  }

  /** The lists of an expression are still good after new code. */
  lemma EmitCarries(s0: State, s: State, v: View, sd: State, s1: State, p: int)
    requires Shape(s0, s, v) && Emitted(Body(s, v.k), sd, s1) && p in s.pend
    ensures Controlled(s1.c, p) <==> Controlled(s.c, p)
    ensures Controlled(s.c, p) ==> s1.c[p - 1].b == s.c[p - 1].b
  {
    var b := Body(s, v.k);
    assert s.c[p].Jmp? && p < |b.c|;
    DischargedKeeps(b, sd, p);
    if p > 0 {
      assert PatchedAt(b.c, sd.c, b.here, NO_REG, |b.c|, |b.c|, p - 1);
      assert s1.c[p - 1] == sd.c[p - 1];
    }
  }
}
