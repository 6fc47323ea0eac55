/**
 The code generator for expressions (lcode.c). Ghost parameters say what a descriptor means: `s0`
 is the code before the expression, `base` the first free register then, and `x` the expression.
 */
module CodeGen {
  import opened Bytecode
  import opened CodeExpr
  import opened CodeSteps
  import opened CodeValues
  import opened CodeRegisters
  import opened CodeLists

  const MAXINDEXRK: nat := 255

  /** The register of a descriptor is a local's, or the only one in use from `base` on. */
  ghost predicate Fits(k: Kind, base: nat, freereg: nat, nactvar: nat) {
    match k
    case VNonReloc(r) => if r < nactvar then freereg == base else r == base && freereg == base + 1
    case VLocal(r) => r < nactvar && freereg == base
    case _ => freereg == base
  }

  /** Constants that are expressions are neither nil nor false. */
  ghost predicate Meant(k: Kind, ks: seq<Value>) {
    k.VK? ==> k.info < |ks| && Truthy(ks[k.info])
  }

  lemma PatchedNone(c: seq<Instr>, c1: seq<Instr>, l: seq<int>, reg: int, vt: int, dt: int)
    requires l == [] && Patched(c, c1, Elems(l), reg, vt, dt)
    ensures c1 == c
  {
    forall i | 0 <= i < |c| ensures c1[i] == c[i] {
      assert PatchedAt(c, c1, Elems(l), reg, vt, dt, i);
    }
  }

  /** A list of pending jumps is still there after new code. */
  lemma EmitList(s: State, k: Kind, sd: State, s1: State, h: int, l: seq<int>)
    requires Wf(s) && KindOk(s, k) && Emitted(Body(s, k), sd, s1) && JList(s.c, h, l)
    requires forall p :: p in l ==> p in s.pend
    ensures JList(s1.c, h, l)
  {
    forall p | p in l ensures 0 <= p < |s1.c| && 0 <= p < |s.c| && s1.c[p] == s.c[p] {
      assert p in s.pend && s.c[p].Jmp? && p < |Body(s, k).c|;
      DischargedKeeps(Body(s, k), sd, p);
    }
    forall i | 0 <= i < |l| ensures LinkAt(s1.c, l, i) {
      assert LinkAt(s.c, l, i) && l[i] in l;
    }
  }

  class FuncState {
    const f: Proto
    var cache: map<Value, nat>
    var jpc: int
    var lasttarget: nat
    var freereg: nat
    var nactvar: nat
    ghost var jpcs: seq<int>
    ghost var pend: set<int>

    /** `open_func`. */
    constructor ()
      ensures Valid() && fresh(f) && f.code == [] && freereg == nactvar == 0 && pend == {} && jpcs == []
    {
      f := new Proto();
      cache, jpc, lasttarget, freereg, nactvar := map[], NO_JUMP, 0, 0, 0;
      jpcs, pend := [], {};
    }

    ghost function Now(): State
      reads this, f
    {
      State(f.code, f.k, Elems(jpcs), pend, lasttarget)
    }

    ghost predicate Valid()
      reads this, f
    {
      Wf(Now()) && JList(f.code, jpc, jpcs) && nactvar <= freereg
    }

    /** The lists of the descriptor, and what it means; `exc` may have been written. */
    ghost predicate Core(e: ExpDesc, s0: State, base: nat, exc: int, x: Expr)
      reads this, f, e
    {
      CoreAs(e, e.k, s0, base, exc, x)
    }

    /** The same when the descriptor counts as one of kind `k`. */
    ghost predicate CoreAs(e: ExpDesc, k: Kind, s0: State, base: nat, exc: int, x: Expr)
      reads this, f, e
    {
      && Valid() && JList(f.code, e.t, e.ts) && JList(f.code, e.f, e.fs) && nactvar <= base
      && Shape(s0, Now(), View(k, e.ts, e.fs)) && ExprOk(s0, Now(), View(k, e.ts, e.fs), base, exc, x)
    }

    ghost predicate Has(e: ExpDesc, s0: State, base: nat, x: Expr)
      reads this, f, e
    {
      Core(e, s0, base, -1, x) && Fits(e.k, base, freereg, nactvar) && Meant(e.k, f.k)
    }

    // ----- emitting -----

    /** `luaK_code`, which resolves the jumps to here first. */
    method Emit(i: Instr) returns (pc: nat)
      requires JList(f.code, jpc, jpcs)
      modifies f`code, `jpc, `jpcs
      ensures jpc == NO_JUMP && jpcs == []
      ensures pc == |old(f.code)| && |f.code| == pc + 1 && f.code[pc] == i
      ensures Patched(old(f.code), f.code[..pc], Elems(old(jpcs)), NO_REG, pc, pc)
    {
      pc := |f.code|;
      f.PatchListAux(jpc, pc, NO_REG, pc, jpcs);
      jpc, jpcs := NO_JUMP, [];
      ghost var c := f.code;
      f.code := f.code + [i];
      assert f.code[..pc] == c;
    }

    method AddK(v: Value) returns (i: nat)
      modifies f`k, `cache
      ensures old(f.k) <= f.k && i < |f.k| <= |old(f.k)| + 1 && f.k[i] == v
    {
      if v in cache && cache[v] < |f.k| && f.k[cache[v]] == v {
        return cache[v];
      }
      i := |f.k|;
      cache := cache[v := i];
      f.k := f.k + [v];
    }

    method GetLabel() returns (pc: nat)
      modifies `lasttarget
      ensures pc == lasttarget == |f.code|
    {
      lasttarget := |f.code|;
      return |f.code|;
    }

    /** `luaK_jump`: jumps to here are kept on hold, in the list of the new one. */
    method Jump() returns (j: int, ghost l: seq<int>)
      requires JList(f.code, jpc, jpcs)
      modifies f`code, `jpc, `jpcs
      ensures jpc == NO_JUMP && jpcs == []
      ensures |f.code| == |old(f.code)| + 1 && f.code[..|old(f.code)|] == old(f.code) && f.code[|old(f.code)|].Jmp?
      ensures l == [|old(f.code)|] + old(jpcs) && JList(f.code, j, l)
      ensures old(jpcs) == [] ==> j == |old(f.code)| && f.code[j] == Jmp(NO_JUMP)
    {
      var held := jpc;
      ghost var helds, c := jpcs, f.code;
      jpc, jpcs := NO_JUMP, [];
      assert JList(f.code, jpc, jpcs);
      var pc := Emit(Jmp(NO_JUMP));
      PatchedNone(c, f.code[..pc], [], NO_REG, pc, pc);
      assert forall p :: 0 <= p < |c| ==> f.code[p] == f.code[..pc][p] == c[p];
      JListOne(f.code, pc);
      JListKeep(c, f.code, held, helds);
      HeldElsewhere(c, held, helds);
      assert pc !in helds;
      j := f.Concat(pc, held, [pc], helds);
      l := [pc] + helds;
    }

    /** `luaK_patchtohere`. */
    method PatchToHere(list: int, ghost l: seq<int>)
      requires JList(f.code, jpc, jpcs) && JList(f.code, list, l) && forall p :: p in jpcs ==> p !in l
      modifies f`code, `jpc, `jpcs, `lasttarget
      ensures JList(f.code, jpc, jpcs) && jpcs == old(jpcs) + l && lasttarget == |f.code| == |old(f.code)|
      ensures forall i {:trigger f.code[i]} :: 0 <= i < |f.code| ==>
        f.code[i] == old(f.code)[i] || (i in old(jpcs) && l != [] && f.code[i].Jmp? && old(f.code)[i].Jmp?)
    {
      var _ := GetLabel();
      jpc := f.Concat(jpc, list, jpcs, l);
      jpcs := jpcs + l;
    }

    // ----- registers -----

    method ReserveRegs(n: nat)
      modifies `freereg
      ensures freereg == old(freereg) + n
    {
      freereg := freereg + n;
    }

    method FreeReg(reg: nat)
      requires reg >= nactvar ==> freereg == reg + 1
      modifies `freereg
      ensures freereg == if reg >= nactvar then reg else old(freereg)
    {
      if reg >= nactvar {
        freereg := freereg - 1;
      }
    }

    method FreeExp(e: ExpDesc, ghost base: nat)
      requires Fits(e.k, base, freereg, nactvar)
      modifies `freereg
      ensures freereg == base
    {
      if e.k.VNonReloc? {
        FreeReg(e.k.reg);
      }
    }

    /** The next register takes the place of the one that the expression may be in. */
    method TakeNextReg(e: ExpDesc, ghost base: nat)
      requires Fits(e.k, base, freereg, nactvar)
      modifies `freereg
      ensures freereg == base + 1
    {
      FreeExp(e, base);
      ReserveRegs(1);
    }

    // ----- values -----

    /** `luaK_nil`: an OP_LOADNIL, or a larger one if no jump comes between. */
    method LoadNils(from: nat, n: nat)
      requires Valid() && n > 0
      modifies f`code, `jpc, `jpcs
      ensures Valid() && jpcs == [] && NilOk(old(Now()), Now(), from, from + n - 1)
      ensures NilCode(old(Now()), Now(), from, from + n - 1)
    {
      hide Wf;
      ghost var s := Now();
      var l := from + n - 1;
      if |f.code| > lasttarget {
        var previous := f.code[|f.code| - 1];
        if previous.LoadNil? {
          var pfrom, pl := previous.a, previous.a + previous.n;
          if (pfrom <= from && from <= pl + 1) || (from <= pfrom && pfrom <= l + 1) {
            var first := if pfrom < from then pfrom else from;
            var last := if pl > l then pl else l;
            NilMerge(s, from, l);
            assert s.here == {};
            ElemsEmpty(jpcs);
            f.code := f.code[|f.code| - 1 := LoadNil(first, last - first)];
            assert Now() == Merged(s, from, l);
            JListNone(f.code, jpc);
            return;
          }
        }
      }
      var pc := Emit(LoadNil(from, n - 1));
      ghost var sd := s.(c := f.code[..pc], here := {});
      assert Now() == sd.(c := sd.c + [LoadNil(from, n - 1)]);
      NilEmit(s, sd, Now(), from, n - 1);
      assert Emitted(s, sd, Now()) && n - 1 == l - from;
    }

    /** `luaK_dischargevars`. */
    method DischargeVars(e: ExpDesc, ghost s0: State, ghost base: nat, ghost x: Expr)
      requires Core(e, s0, base, -1, x)
      modifies f`code, `jpc, `jpcs, e`k
      ensures Core(e, s0, base, -1, x) && !e.k.VLocal? && !e.k.VUpval?
      ensures old(Has(e, s0, base, x)) ==> Has(e, s0, base, x)
      ensures old(!e.k.VLocal? && !e.k.VUpval?) ==> e.k == old(e.k) && Now() == old(Now())
    {
      hide Shape, ExprOk, JList;
      match e.k
      case VLocal(r) =>
        Renamed(s0, Now(), e.V(), VNonReloc(r), base, x);
        e.k := VNonReloc(r);
      case VUpval(_) => FetchUpval(e, s0, base, x);
      case _ =>
    }

    method FetchUpval(e: ExpDesc, ghost s0: State, ghost base: nat, ghost x: Expr)
      requires Core(e, s0, base, -1, x) && e.k.VUpval?
      modifies f`code, `jpc, `jpcs, e`k
      ensures Core(e, s0, base, -1, x) && e.k.VReloc?
    {
      hide ExprOk, Wf, Limit, ExprAt, SameJump, Kept, LinkAt;
      ghost var s, v := Now(), e.V();
      var pc := Emit(GetUpval(0, e.k.up));
      ghost var sd := s.(c := f.code[..pc], here := {});
      EmittedIs(s, VNil, sd, Now());
      EmitList(s, v.k, sd, Now(), e.t, e.ts);
      EmitList(s, v.k, sd, Now(), e.f, e.fs);
      UpvalExpr(s0, s, v, sd, Now(), base, x);
      e.k := VReloc(pc);
    }

    /** `luaK_codek`. */
    method EmitK(reg: nat, v: Value) returns (k: nat)
      requires JList(f.code, jpc, jpcs)
      modifies f, `cache, `jpc, `jpcs
      ensures jpc == NO_JUMP && jpcs == [] && old(f.k) <= f.k && k < |f.k| && f.k[k] == v
      ensures |f.code| == |old(f.code)| + 1 && f.code[|old(f.code)|] == LoadK(reg, k)
      ensures Patched(old(f.code), f.code[..|old(f.code)|], Elems(old(jpcs)), NO_REG, |old(f.code)|, |old(f.code)|)
    {
      k := AddK(v);
      var _ := Emit(LoadK(reg, k));
    }

    /** Puts the value of an expression without code for its value into a register (part of `discharge2reg`). */
    method LoadValueInto(e: ExpDesc, reg: nat) returns (ghost sd: State, ghost i: Instr)
      requires Valid() && KindOk(Now(), e.k)
      requires e.k.VTrue? || e.k.VFalse? || e.k.VK? || e.k.VKInt? || e.k.VKFlt? || e.k.VReloc? || e.k.VNonReloc?
      modifies f, `cache, `jpc, `jpcs
      ensures jpc == NO_JUMP && jpcs == []
      ensures Loads(old(Now()), f.k, e.k, i, reg) && Emitted(Body(old(Now()), e.k), sd, Now())
      ensures Now() == sd.(c := sd.c + [i], k := f.k)
    {
      ghost var s := Now();
      match e.k {
        case VTrue => var _ := Emit(LoadBool(reg, true, false));
        case VFalse => var _ := Emit(LoadBool(reg, false, false));
        case VK(k) => var _ := Emit(LoadK(reg, k));
        case VKInt(n) => var _ := EmitK(reg, Int(n));
        case VKFlt(r) => var _ := EmitK(reg, Flt(r));
        case VReloc(pc) =>
          sd, i := Body(s, e.k), Relocate(f.code[pc], reg);
          WfBody(s, e.k);
          DischargedNone(sd);
          EmptyHere(s, jpc, jpcs);
          f.code := f.code[pc := Relocate(f.code[pc], reg)];
          assert f.code == sd.c + [i];
          return;
        case VNonReloc(r) => var _ := Emit(Move(reg, r));
      }
      sd, i := s.(c := f.code[..|s.c|], here := {}), f.code[|s.c|];
      assert f.code == sd.c + [i];
    }

    /** `discharge2reg`: a comparison has no value to put anywhere yet. */
    method Discharge2Reg(e: ExpDesc, reg: nat, ghost s0: State, ghost base: nat, ghost x: Expr)
      requires Core(e, s0, base, -1, x)
      modifies f, `cache, `jpc, `jpcs, e`k
      ensures old(e.k).VJmp? ==> Core(e, s0, base, -1, x) && e.k == old(e.k) && Now() == old(Now())
      ensures !old(e.k).VJmp? ==> Core(e, s0, base, reg, x) && e.k == VNonReloc(reg)
    {
      DischargeVars(e, s0, base, x);
      if !e.k.VJmp? {
        LoadInto(e, reg, s0, base, x);
      }
    }

    /** `discharge2reg`, for an expression that has a value to load. */
    method LoadInto(e: ExpDesc, reg: nat, ghost s0: State, ghost base: nat, ghost x: Expr)
      requires Core(e, s0, base, -1, x) && !e.k.VJmp? && !e.k.VLocal? && !e.k.VUpval?
      modifies f, `cache, `jpc, `jpcs, e`k
      ensures Core(e, s0, base, reg, x) && e.k == VNonReloc(reg)
    {
      hide Wf, Body, Limit, ExprAt, ExprOk, Kept, KindOk, ListsOk, Emitted, NilAt, NilOk, CanMerge, Merged, NilCode;
      ghost var s, v := Now(), e.V();
      if e.k == VNonReloc(reg) {
        Exempt(s0, s, v, base, -1, reg, x);
      } else if e.k.VNil? {
        LoadNils(reg, 1);
        NilDone(s0, s, v, Now(), reg, base, x, e.t, e.f);
      } else {
        ghost var sd, i := LoadValueInto(e, reg);
        LoadDone(s0, s, v, sd, Now(), i, reg, base, x, e.t, e.f);
      }
      e.k := VNonReloc(reg);
    }

    /** `discharge2anyreg`. */
    method Discharge2AnyReg(e: ExpDesc, ghost s0: State, ghost base: nat, ghost x: Expr)
      requires Has(e, s0, base, x) && !e.k.VJmp? && !e.k.VLocal?
      modifies f, `cache, `jpc, `jpcs, `freereg, e`k
      ensures Has(e, s0, base, x) && e.k.VNonReloc?
    {
      if !e.k.VNonReloc? {
        ReserveRegs(1);
        Discharge2Reg(e, freereg - 1, s0, base, x);
        Exempt(s0, Now(), e.V(), base, base, -1, x);
      }
    }

    // ----- putting the value of an expression with jumps into a register -----

    /** The jump of a comparison joins the list of jumps when true; what goes on is false. */
    method JumpToList(e: ExpDesc, ghost s0: State, ghost base: nat, ghost x: Expr)
      requires Core(e, s0, base, -1, x) && e.k.VJmp?
      modifies f`code, e`t, e`ts
      ensures CoreAs(e, VFalse, s0, base, -1, x) && e.k.pc in e.ts && !Controlled(f.code, e.k.pc)
    {
      ghost var s, v, c := Now(), e.V(), f.code;
      var pc := e.k.pc;
      ListJump(s0, s, v, base, x);
      JListOne(f.code, pc);
      ListEnds(s, e.t, e.ts);
      e.t := f.Concat(e.t, pc, e.ts, [pc]);
      e.ts := e.ts + [pc];
      RelinkLists(s0, s, View(VFalse, e.ts, e.fs), Now(), base, -1, x, v.ts, e.f, jpc, jpcs);
      assert pc in [pc] && !Controlled(c, pc);
      assert f.code[pc - 1] == c[pc - 1];
    }

    /** The loads of both booleans after code that goes on when the value is false. */
    method LoadsWhenFalse(e: ExpDesc, reg: nat, ghost s0: State, ghost base: nat, ghost x: Expr)
        returns (pf: int, pt: int)
      requires CoreAs(e, VFalse, s0, base, -1, x)
      modifies f`code, `jpc, `jpcs, `lasttarget
      ensures CoreAs(e, VNonReloc(reg), s0, base, reg, x)
      ensures LoadsAt(Now(), View(VNonReloc(reg), e.ts, e.fs), reg, pf, pt)
    {
      ghost var s, v := Now(), View(VFalse, e.ts, e.fs);
      pf, pt := CodeLabels(reg);
      ghost var sd, c := s.(c := f.code[..pf], here := {}), f.code;
      PatchToHere(NO_JUMP, []);
      assert f.code == c == sd.c + Loads2(reg);
      FalseExpr(s0, s, v, sd, reg, base, x);
      FalseLists(s0, s, v, sd, reg, e.t, e.f);
      assert Now() == AfterFalse(sd, reg);
      ListEnds(s, e.t, e.ts);
      ListEnds(s, e.f, e.fs);
    }

    /** The loads of both booleans after code that has put a value into `reg`, and a jump over them. */
    method LoadsWithJump(e: ExpDesc, reg: nat, ghost s0: State, ghost base: nat, ghost x: Expr)
        returns (pf: int, pt: int)
      requires Core(e, s0, base, reg, x) && e.k == VNonReloc(reg)
      modifies f`code, `jpc, `jpcs, `lasttarget
      ensures CoreAs(e, VNonReloc(reg), s0, base, reg, x)
      ensures LoadsAt(Now(), View(VNonReloc(reg), e.ts, e.fs), reg, pf, pt)
    {
      ghost var s := Now();
      var fj; ghost var l;
      fj, l := Jump();
      ghost var c1 := f.code;
      pf, pt := CodeLabels(reg);
      PatchedNone(c1, f.code[..pf], [], NO_REG, pf, pf);
      assert f.code == c1 + Loads2(reg);
      JListKeep(c1, f.code, fj, l);
      PatchToHere(fj, l);
      assert f.code == s.c + [Jmp(c1[|s.c|].sbx)] + Loads2(reg);
      assert Elems(l) == s.here + {|s.c|};
      assert Now() == AfterJump(s, reg, c1[|s.c|].sbx);
      JumpExpr(s0, s, e.V(), reg, c1[|s.c|].sbx, base, x);
      JListKeep(s.c, f.code, e.t, e.ts);
      JListKeep(s.c, f.code, e.f, e.fs);
      ListEnds(s, e.t, e.ts);
      ListEnds(s, e.f, e.fs);
    }

    /** Two labels with the loads of false and true. */
    method CodeLabels(reg: nat) returns (pf: nat, pt: nat)
      requires JList(f.code, jpc, jpcs)
      modifies f`code, `jpc, `jpcs, `lasttarget
      ensures jpc == NO_JUMP && jpcs == []
      ensures pf == |old(f.code)| && pt == pf + 1 && |f.code| == pf + 2
      ensures f.code == f.code[..pf] + Loads2(reg)
      ensures Patched(old(f.code), f.code[..pf], Elems(old(jpcs)), NO_REG, pf, pf)
    {
      var _ := GetLabel();
      pf := Emit(LoadBool(reg, false, true));
      ghost var c := f.code;
      var _ := GetLabel();
      pt := Emit(LoadBool(reg, true, false));
      PatchedNone(c, f.code[..pt], [], NO_REG, pt, pt);
      assert f.code[..pf] == c[..pf];
    }

    /** Patches one list of an expression to the end of its code. */
    method PatchOne(e: ExpDesc, which: bool, reg: nat, dt: int, ghost need: bool, ghost s0: State, ghost base: nat,
        ghost x: Expr)
      requires CoreAs(e, VNonReloc(reg), s0, base, reg, x) && lasttarget == |f.code|
      requires PatchReady(Now(), View(VNonReloc(reg), e.ts, e.fs), reg, need)
      requires (need ==> dt == |f.code| - if which then 1 else 2)
      modifies f`code, `pend, e`t, e`f, e`ts, e`fs
      ensures CoreAs(e, VNonReloc(reg), s0, base, reg, x) && |f.code| == |old(f.code)|
      ensures if which then e.ts == [] && e.fs == old(e.fs) else e.fs == [] && e.ts == old(e.ts)
      ensures PatchReady(Now(), View(VNonReloc(reg), e.ts, e.fs), reg, need)
    {
      hide Wf, Patched, Body, Relocatable, Limit, ExprOk, SameJump, Kept, KindOk, ListsOk, Shape, DefaultOk, LinkAt,
        JList;
      ghost var s, v := Now(), View(VNonReloc(reg), e.ts, e.fs);
      ghost var l := ListOf(v, which);
      ghost var d: nat := if dt >= 0 && dt <= |f.code| then dt else 0;
      ReadyDefault(s, v, which, reg, d, need);
      f.PatchListAux(if which then e.t else e.f, |f.code|, reg, dt, l);
      pend := pend - Elems(l);
      PatchDone(s0, s, v, Now(), which, reg, d, dt, base, x, need, e.t, e.f, jpc, jpcs);
      NoJumps(f.code);
      if which {
        e.t, e.ts := NO_JUMP, [];
      } else {
        e.f, e.fs := NO_JUMP, [];
      }
    }

    /** `exp2reg`: the value of the expression comes to `reg`, whichever way the code is left. */
    method Exp2Reg(e: ExpDesc, reg: nat, ghost s0: State, ghost base: nat, ghost x: Expr)
      requires Core(e, s0, base, -1, x)
      modifies f, `cache, `jpc, `jpcs, `lasttarget, `pend, e
      ensures Core(e, s0, base, reg, x) && e.k == VNonReloc(reg) && e.t == e.f == NO_JUMP && e.ts == e.fs == []
    {
      Discharge2Reg(e, reg, s0, base, x);
      if e.k.VJmp? {
        JumpToList(e, s0, base, x);
      }
      EndJumps(e, reg, s0, base, x);
    }

    /** How `exp2reg` ends, once the jump of a comparison is in its list. */
    method EndJumps(e: ExpDesc, reg: nat, ghost s0: State, ghost base: nat, ghost x: Expr)
      requires if e.k.VJmp? then CoreAs(e, VFalse, s0, base, -1, x) && e.k.pc in e.ts && !Controlled(f.code, e.k.pc)
        else Core(e, s0, base, reg, x) && e.k == VNonReloc(reg)
      modifies f`code, `jpc, `jpcs, `lasttarget, `pend, e
      ensures Core(e, s0, base, reg, x) && e.k == VNonReloc(reg) && e.t == e.f == NO_JUMP && e.ts == e.fs == []
    {
      JumpsApart(f.code, e.t, e.ts, e.f, e.fs, s0, Now(), if e.k.VJmp? then VFalse else e.k);
      if e.HasJumps() {
        CloseJumps(e, reg, s0, base, x);
      }
      e.t, e.f, e.ts, e.fs, e.k := NO_JUMP, NO_JUMP, [], [], VNonReloc(reg);
    }

    /** Puts the value into the register for all jumps of the lists. */
    method CloseJumps(e: ExpDesc, reg: nat, ghost s0: State, ghost base: nat, ghost x: Expr)
      requires if e.k.VJmp? then CoreAs(e, VFalse, s0, base, -1, x) && e.k.pc in e.ts && !Controlled(f.code, e.k.pc)
        else Core(e, s0, base, reg, x) && e.k == VNonReloc(reg)
      modifies f`code, `jpc, `jpcs, `lasttarget, `pend, e`t, e`f, e`ts, e`fs
      ensures CoreAs(e, VNonReloc(reg), s0, base, reg, x) && e.ts == e.fs == []
    {
      var pf, pt := NO_JUMP, NO_JUMP;
      var need := f.NeedValue(e.t, e.ts);
      if !need {
        need := f.NeedValue(e.f, e.fs);
      }
      if need {
        if e.k.VJmp? {
          pf, pt := LoadsWhenFalse(e, reg, s0, base, x);
        } else {
          pf, pt := LoadsWithJump(e, reg, s0, base, x);
        }
      } else {
        JumpNeeds(s0, Now(), e.V());
      }
      Finish(e, reg, pf, pt, need, s0, base, x);
    }

    /** The end of the expression: both lists are patched. */
    method Finish(e: ExpDesc, reg: nat, pf: int, pt: int, ghost need: bool, ghost s0: State, ghost base: nat,
        ghost x: Expr)
      requires CoreAs(e, VNonReloc(reg), s0, base, reg, x)
      requires if need then LoadsAt(Now(), View(VNonReloc(reg), e.ts, e.fs), reg, pf, pt)
        else forall p :: p in e.ts || p in e.fs ==> Controlled(f.code, p)
      modifies f`code, `lasttarget, `pend, e`t, e`f, e`ts, e`fs
      ensures CoreAs(e, VNonReloc(reg), s0, base, reg, x) && e.ts == e.fs == []
    {
      LabelExpr(s0, Now(), View(VNonReloc(reg), e.ts, e.fs), base, reg, x);
      var final := GetLabel();
      PatchOne(e, false, reg, pf, need, s0, base, x);
      PatchOne(e, true, reg, pt, need, s0, base, x);
    }

    /** `luaK_exp2nextreg`. */
    method Exp2NextReg(e: ExpDesc, ghost s0: State, ghost base: nat, ghost x: Expr)
      requires Has(e, s0, base, x)
      modifies f, `cache, `jpc, `jpcs, `lasttarget, `pend, `freereg, e
      ensures Has(e, s0, base, x) && e.k == VNonReloc(base) && e.t == e.f == NO_JUMP && e.ts == e.fs == []
      ensures freereg == base + 1
    {
      hide Shape, ExprOk, JList;
      DischargeVars(e, s0, base, x);
      TakeNextReg(e, base);
      Exp2Reg(e, freereg - 1, s0, base, x);
      Exempt(s0, Now(), e.V(), base, base, -1, x);
    }

    /** `luaK_exp2anyreg`. */
    method Exp2AnyReg(e: ExpDesc, ghost s0: State, ghost base: nat, ghost x: Expr) returns (r: nat)
      requires Has(e, s0, base, x)
      modifies f, `cache, `jpc, `jpcs, `lasttarget, `pend, `freereg, e
      ensures Has(e, s0, base, x) && e.k == VNonReloc(r) && e.ts == e.fs == []
    {
      DischargeVars(e, s0, base, x);
      if e.k.VNonReloc? {
        JumpsApart(f.code, e.t, e.ts, e.f, e.fs, s0, Now(), e.k);
        if !e.HasJumps() {
          return e.k.reg;
        }
        if e.k.reg >= nactvar {
          Exp2Reg(e, e.k.reg, s0, base, x);
          Exempt(s0, Now(), e.V(), base, base, -1, x);
          return e.k.reg;
        }
      }
      Exp2NextReg(e, s0, base, x);
      return e.k.reg;
    }

    /** `luaK_exp2val`. */
    method Exp2Val(e: ExpDesc, ghost s0: State, ghost base: nat, ghost x: Expr)
      requires Has(e, s0, base, x)
      modifies f, `cache, `jpc, `jpcs, `lasttarget, `pend, `freereg, e
      ensures Has(e, s0, base, x) && e.ts == e.fs == []
    {
      JumpsApart(f.code, e.t, e.ts, e.f, e.fs, s0, Now(), e.k);
      if e.HasJumps() {
        var _ := Exp2AnyReg(e, s0, base, x);
      } else {
        DischargeVars(e, s0, base, x);
      }
    }

    /** A constant operand, if its index fits. */
    method ConstOperand(e: ExpDesc, v: Value, ghost s0: State, ghost base: nat, ghost x: Expr)
      requires Core(e, s0, base, -1, x) && Fits(e.k, base, freereg, nactvar)
      requires e.k.VTrue? || e.k.VFalse? || e.k.VNil? || e.k.VKInt? || e.k.VKFlt?
      requires forall env: Env, regs: Regs :: Denotes(env, Now(), e.k, regs) == v
      modifies f`k, `cache, e`k
      ensures Core(e, s0, base, -1, x) && Fits(e.k, base, freereg, nactvar)
      ensures e.k.VK? && e.k.info < |f.k| <= |old(f.k)| + 1 && f.k[e.k.info] == v
    {
      ghost var s, w := Now(), e.V();
      var i := AddK(v);
      Grown(s0, s, w, f.k, VK(i), base, x);
      e.k := VK(i);
    }

    /** `luaK_exp2RK`. */
    method Exp2RK(e: ExpDesc, ghost s0: State, ghost base: nat, ghost x: Expr) returns (o: Operand)
      requires Has(e, s0, base, x)
      modifies f, `cache, `jpc, `jpcs, `lasttarget, `pend, `freereg, e
      ensures Core(e, s0, base, -1, x) && Fits(e.k, base, freereg, nactvar) && IsOperand(e.V(), o)
      ensures o.Kst? ==> o.k <= MAXINDEXRK
    {
      Exp2Val(e, s0, base, x);
      if (e.k.VTrue? || e.k.VFalse? || e.k.VNil?) && |f.k| <= MAXINDEXRK {
        ConstOperand(e, if e.k.VNil? then Nil else Bool(e.k.VTrue?), s0, base, x);
        return Kst(e.k.info);
      } else if e.k.VKInt? {
        ConstOperand(e, Int(e.k.ival), s0, base, x);
      } else if e.k.VKFlt? {
        ConstOperand(e, Flt(e.k.nval), s0, base, x);
      }
      if e.k.VK? && e.k.info <= MAXINDEXRK {
        return Kst(e.k.info);
      }
      var r := Exp2AnyReg(e, s0, base, x);
      return Reg(r);
    }

    /** `luaK_exp2RK` of what is an operand already. */
    method OperandAgain(e: ExpDesc, ghost o1: Operand) returns (o: Operand)
      requires IsOperand(e.V(), o1)
      ensures o == o1
    {
      match e.k
      case VK(i) => return Kst(i);
      case VNonReloc(r) => return Reg(r);
    }

    // ----- conditions -----

    /** The code may go on or leave through the lists, one of them with jump `pc` that is not linked yet. */
    ghost predicate Halfway(e: ExpDesc, pc: int, which: bool, s0: State, base: nat, x: Expr)
      reads this, f, e
    {
      && Valid() && JList(f.code, e.t, e.ts) && JList(f.code, e.f, e.fs) && nactvar <= base == freereg
      && (pc != NO_JUMP ==>
        0 <= pc < |f.code| && f.code[pc] == Jmp(NO_JUMP) && pc in pend && pc !in e.ts && pc !in e.fs)
      && var v := e.V(); var ts := if pc == NO_JUMP then e.ts else TrueList(v, which, pc);
      var fs := if pc == NO_JUMP then e.fs else FalseList(v, which, pc);
      Shape(s0, Now(), View(VTrue, ts, fs)) && SplitOk(s0, Now(), ts, fs, which, base, x)
    }

    /** The code goes on if the truth of `x` is `which`; the descriptor has the list of the jumps that leave. */
    ghost predicate Branched(e: ExpDesc, which: bool, s0: State, base: nat, x: Expr)
      reads this, f, e
    {
      && Valid() && JList(f.code, e.t, e.ts) && JList(f.code, e.f, e.fs) && nactvar <= base == freereg
      && (if which then e.ts == [] && e.t == NO_JUMP else e.fs == [] && e.f == NO_JUMP)
      && Shape(s0, Now(), View(VTrue, e.ts, e.fs))
      && CondOk(s0, Now(), if which then e.fs else e.ts, which, base, x)
    }

    /** `invertjump`. */
    method InvertJump(e: ExpDesc)
      requires e.k.VJmp? && e.k.pc + 1 == |f.code| && e.k.pc > 0 && f.code[e.k.pc - 1].Cmp?
      modifies f`code
      ensures Now() == Inverted(old(Now()))
    {
      var pc := f.GetJumpControl(e.k.pc);
      f.code := f.code[pc := f.code[pc].(accept := !f.code[pc].accept)];
    }

    /** `condjump`: a test and the jump that it controls. */
    method CondJump(i: Instr) returns (pc: int)
      requires JList(f.code, jpc, jpcs)
      modifies f`code, `jpc, `jpcs, `pend
      ensures jpc == NO_JUMP && jpcs == []
      ensures pc == |old(f.code)| + 1 && |f.code| == pc + 1 && f.code == f.code[..pc - 1] + [i, Jmp(NO_JUMP)]
      ensures Patched(old(f.code), f.code[..pc - 1], Elems(old(jpcs)), NO_REG, pc - 1, pc - 1)
      ensures pend == old(pend) + {pc}
    {
      var at := Emit(i);
      ghost var c, l := f.code, [];
      pc, l := Jump();
      assert f.code == c + [Jmp(NO_JUMP)];
      assert f.code[..at] == c[..at];
      pend := pend + {pc};
    }

    /** `jumponcond`: a jump when the truth of the value is not `which`. */
    method JumpOnCond(e: ExpDesc, which: bool, ghost s0: State, ghost base: nat, ghost x: Expr) returns (pc: int)
      requires Has(e, s0, base, x) && !e.k.VJmp? && !e.k.VLocal? && !e.k.VUpval?
      modifies f, `cache, `jpc, `jpcs, `pend, `freereg, e`k
      ensures Halfway(e, pc, which, s0, base, x) && pc != NO_JUMP
    {
      if e.k.VReloc? && f.code[e.k.at].Not? {
        pc := JumpOnNot(e, which, s0, base, x);
        return;
      }
      Discharge2AnyReg(e, s0, base, x);
      FreeExp(e, base);
      pc := TestAndJump(e, TestSet(NO_REG, e.k.reg, !which), which, s0, base, x);
    }

    /** The OP_NOT is taken back, and its operand is tested. */
    method JumpOnNot(e: ExpDesc, which: bool, ghost s0: State, ghost base: nat, ghost x: Expr) returns (pc: int)
      requires Has(e, s0, base, x) && e.k.VReloc? && f.code[e.k.at].Not?
      modifies f`code, `jpc, `jpcs, `pend
      ensures Halfway(e, pc, which, s0, base, x) && pc != NO_JUMP
    {
      ghost var s, v := Now(), e.V();
      var i := Test(f.code[e.k.at].b, which);
      NoHere(s, jpcs);
      JListBody(s, v.k, jpc, jpcs);
      WfBody(s, v.k);
      f.code := f.code[..|f.code| - 1];
      pc := CondJump(i);
      ghost var sd := Body(s, v.k).(c := f.code[..pc - 1], here := {});
      Tested(s0, s, v, sd, Now(), i, which, base, x, e.t, e.f);
    }

    method TestAndJump(e: ExpDesc, i: Instr, which: bool, ghost s0: State, ghost base: nat, ghost x: Expr)
        returns (pc: int)
      requires Core(e, s0, base, -1, x) && freereg == base && e.k.VNonReloc? && i == TestSet(NO_REG, e.k.reg, !which)
      modifies f`code, `jpc, `jpcs, `pend
      ensures Halfway(e, pc, which, s0, base, x) && pc != NO_JUMP
    {
      ghost var s, v := Now(), e.V();
      pc := CondJump(i);
      ghost var sd := s.(c := f.code[..pc - 1], here := {});
      Tested(s0, s, v, sd, Now(), i, which, base, x, e.t, e.f);
    }

    /** The new jump is linked to its list. */
    method LinkJump(e: ExpDesc, pc: int, which: bool, ghost s0: State, ghost base: nat, ghost x: Expr)
      requires Halfway(e, pc, which, s0, base, x)
      modifies f`code, e`t, e`f, e`ts, e`fs
      ensures Halfway(e, NO_JUMP, which, s0, base, x)
    {
      if pc != NO_JUMP {
        ghost var s, v := Now(), e.V();
        JListOne(f.code, pc);
        ghost var own, other := if which then e.fs else e.ts, if which then e.ts else e.fs;
        var joined := f.Concat(if which then e.f else e.t, pc, own, [pc]);
        Linked(s0, s, v, which, pc, base, x, Now(), if which then e.t else e.f, jpc, jpcs);
        if which {
          e.f, e.fs := joined, own + [pc];
        } else {
          e.t, e.ts := joined, own + [pc];
        }
      }
    }

    /** The list of the jumps that are not to leave any more ends here. */
    method EndList(e: ExpDesc, which: bool, ghost s0: State, ghost base: nat, ghost x: Expr)
      requires Halfway(e, NO_JUMP, which, s0, base, x)
      modifies f`code, `jpc, `jpcs, `lasttarget, `pend, e`t, e`f, e`ts, e`fs
      ensures Branched(e, which, s0, base, x)
    {
      ghost var s, v := Now(), View(VTrue, e.ts, e.fs);
      HereApart(s0, s, v, jpcs);
      PatchToHere(if which then e.t else e.f, if which then e.ts else e.fs);
      pend := pend - Elems(if which then e.ts else e.fs);
      Ended(s0, s, v, which, base, x, Now(), jpcs, if which then e.f else e.t);
      if which {
        e.t, e.ts := NO_JUMP, [];
      } else {
        e.f, e.fs := NO_JUMP, [];
      }
    }

    /** How `luaK_goiftrue` and `luaK_goiffalse` end. */
    method CloseBranch(e: ExpDesc, pc: int, which: bool, ghost s0: State, ghost base: nat, ghost x: Expr)
      requires Halfway(e, pc, which, s0, base, x)
      modifies f`code, `jpc, `jpcs, `lasttarget, `pend, e`t, e`f, e`ts, e`fs
      ensures Branched(e, which, s0, base, x)
    {
      LinkJump(e, pc, which, s0, base, x);
      EndList(e, which, s0, base, x);
    }

    /** `luaK_goiftrue`. */
    method GoIfTrue(e: ExpDesc, ghost s0: State, ghost base: nat, ghost x: Expr)
      requires Has(e, s0, base, x)
      modifies f, `cache, `jpc, `jpcs, `lasttarget, `pend, `freereg, e
      ensures Branched(e, true, s0, base, x)
    {
      hide ExprOk, JList;
      DischargeVars(e, s0, base, x);
      var pc := NO_JUMP;
      if e.k.VJmp? {
        InvertBranch(e, true, s0, base, x);
        pc := e.k.pc;
      } else if e.k.VK? || e.k.VKFlt? || e.k.VKInt? || e.k.VTrue? {
        ConstSplit(s0, Now(), e.V(), true, base, x);
      } else {
        pc := JumpOnCond(e, true, s0, base, x);
      }
      CloseBranch(e, pc, true, s0, base, x);
    }

    /** `luaK_goiffalse`. */
    method GoIfFalse(e: ExpDesc, ghost s0: State, ghost base: nat, ghost x: Expr)
      requires Has(e, s0, base, x)
      modifies f, `cache, `jpc, `jpcs, `lasttarget, `pend, `freereg, e
      ensures Branched(e, false, s0, base, x)
    {
      hide ExprOk, JList;
      DischargeVars(e, s0, base, x);
      var pc := NO_JUMP;
      if e.k.VJmp? {
        InvertBranch(e, false, s0, base, x);
        pc := e.k.pc;
      } else if e.k.VNil? || e.k.VFalse? {
        ConstSplit(s0, Now(), e.V(), false, base, x);
      } else {
        pc := JumpOnCond(e, false, s0, base, x);
      }
      CloseBranch(e, pc, false, s0, base, x);
    }

    /** The jump of a comparison is used as it is, or inverted when the code is to go on when true. */
    method InvertBranch(e: ExpDesc, which: bool, ghost s0: State, ghost base: nat, ghost x: Expr)
      requires Has(e, s0, base, x) && e.k.VJmp?
      modifies f`code
      ensures Halfway(e, e.k.pc, which, s0, base, x)
    {
      ghost var s, v := Now(), e.V();
      if which {
        InvertJump(e);
      }
      JumpSplit(s0, s, v, Now(), which, base, x);
      InvertKeepsLists(s, v.k, e.t, e.ts);
      InvertKeepsLists(s, v.k, e.f, e.fs);
      InvertKeepsLists(s, v.k, jpc, jpcs);
    }

    // ----- not -----

    /** The descriptor stands for the negation of `x`, with the lists still those of `x`. */
    ghost predicate Flipped(e: ExpDesc, s0: State, base: nat, x: Expr)
      reads this, f, e
    {
      && Valid() && JList(f.code, e.t, e.ts) && JList(f.code, e.f, e.fs) && nactvar <= base == freereg
        && !e.k.VNonReloc? && !e.k.VLocal? && !e.k.VK?
      && Shape(s0, Now(), e.V()) && FlipOk(s0, Now(), e.V(), base, x)
    }

    method NotValue(e: ExpDesc, ghost s0: State, ghost base: nat, ghost x: Expr)
      requires Has(e, s0, base, x) && (e.k.VReloc? || e.k.VNonReloc?)
      modifies f, `cache, `jpc, `jpcs, `freereg, e`k
      ensures Flipped(e, s0, base, x)
    {
      Discharge2AnyReg(e, s0, base, x);
      FreeExp(e, base);
      EmitNot(e, s0, base, x);
    }

    method EmitNot(e: ExpDesc, ghost s0: State, ghost base: nat, ghost x: Expr)
      requires Core(e, s0, base, -1, x) && freereg == base && e.k.VNonReloc?
      modifies f`code, `jpc, `jpcs, e`k
      ensures Flipped(e, s0, base, x)
    {
      ghost var s, v := Now(), e.V();
      var pc := Emit(Not(0, e.k.reg));
      ghost var sd := s.(c := f.code[..pc], here := {});
      assert f.code == sd.c + [Not(0, e.k.reg)];
      FlipNot(s0, s, v, sd, Now(), base, x);
      EmitList(s, v.k, sd, Now(), e.t, e.ts);
      EmitList(s, v.k, sd, Now(), e.f, e.fs);
      e.k := VReloc(pc);
    }

    method NotJump(e: ExpDesc, ghost s0: State, ghost base: nat, ghost x: Expr)
      requires Has(e, s0, base, x) && e.k.VJmp?
      modifies f`code
      ensures Flipped(e, s0, base, x)
    {
      ghost var s, v := Now(), e.V();
      InvertJump(e);
      FlipJump(s0, s, v, base, x);
      InvertKeepsLists(s, v.k, e.t, e.ts);
      InvertKeepsLists(s, v.k, e.f, e.fs);
      InvertKeepsLists(s, v.k, jpc, jpcs);
    }

    /** `codenot`. */
    method CodeNot(e: ExpDesc, ghost s0: State, ghost base: nat, ghost x: Expr)
      requires Has(e, s0, base, x)
      modifies f, `cache, `jpc, `jpcs, `freereg, e
      ensures Has(e, s0, base, ENot(x))
    {
      DischargeVars(e, s0, base, x);
      if e.k.VNil? || e.k.VFalse? {
        NotConst(e, VTrue, s0, base, x);
      } else if e.k.VK? || e.k.VKFlt? || e.k.VKInt? || e.k.VTrue? {
        NotConst(e, VFalse, s0, base, x);
      } else if e.k.VJmp? {
        NotJump(e, s0, base, x);
      } else {
        NotValue(e, s0, base, x);
      }
      SwapLists(e, s0, base, x);
    }

    method NotConst(e: ExpDesc, k: Kind, ghost s0: State, ghost base: nat, ghost x: Expr)
      requires Has(e, s0, base, x)
      requires if k.VTrue? then e.k.VNil? || e.k.VFalse?
        else k.VFalse? && (e.k.VK? || e.k.VKFlt? || e.k.VKInt? || e.k.VTrue?)
      modifies e`k
      ensures Flipped(e, s0, base, x)
    {
      FlipConst(s0, Now(), e.V(), base, x, k);
      e.k := k;
    }

    /** The lists are exchanged, and their jumps leave no values any more. */
    method SwapLists(e: ExpDesc, ghost s0: State, ghost base: nat, ghost x: Expr)
      requires Flipped(e, s0, base, x)
      modifies f`code, e`t, e`f, e`ts, e`fs
      ensures Has(e, s0, base, ENot(x))
    {
      ghost var s, v := Now(), e.V();
      e.t, e.f, e.ts, e.fs := e.f, e.t, e.fs, e.ts;
      f.RemoveValues(e.f, e.fs);
      ghost var c := f.code;
      ClearedLists(s.c, c, e.fs, e.t, e.ts);
      f.RemoveValues(e.t, e.ts);
      ClearedTwice(s, c, Now(), v.ts, v.fs);
      ClearedLists(c, f.code, e.ts, e.f, e.fs);
      ClearedLists(s.c, c, v.ts, jpc, jpcs);
      ClearedLists(c, f.code, v.fs, jpc, jpcs);
      NotExpr(s0, s, v, Now(), base, x);
    }

    // ----- binary operators -----

    /** `codecomp`: the operands are there, and the comparison with its jump is emitted. */
    method CodeComp(op: BinCmp, e1: ExpDesc, e2: ExpDesc, ghost o: Operand, ghost s0: State, ghost s1: State,
        ghost base: nat, ghost base2: nat, ghost xa: Expr, ghost xb: Expr)
      requires e1 != e2 && Has(e2, s1, base2, xb)
      requires e1.t == e1.f == NO_JUMP && Shape(s0, s1, e1.V()) && ExprOk(s0, s1, e1.V(), base, -1, xa)
      requires IsOperand(e1.V(), o)
      requires Fits(e1.k, base, base2, nactvar) && nactvar <= base && LocalsBelow(xb, base)
      modifies f, `cache, `jpc, `jpcs, `lasttarget, `pend, `freereg, e1, e2
      ensures Has(e1, s0, base, ECmp(op, xa, xb))
    {
      hide Shape, ExprOk, JList;
      var o1 := OperandAgain(e1, o);
      var o2 := Exp2RK(e2, s1, base2, xb);
      FreeExp(e2, base2);
      FreeExp(e1, base);
      EmitComp(op, o1, o2, e1, e2.V(), s0, s1, base, base2, xa, xb);
    }

    method EmitComp(op: BinCmp, o1: Operand, o2: Operand, e1: ExpDesc, ghost v2: View, ghost s0: State, ghost s1: State,
        ghost base: nat, ghost base2: nat, ghost xa: Expr, ghost xb: Expr)
      requires Valid() && nactvar <= base == freereg && base <= base2 && (o1.Reg? ==> o1.r < base2)
      requires LocalsBelow(xb, base)
      requires e1.t == e1.f == NO_JUMP && Shape(s0, s1, e1.V()) && ExprOk(s0, s1, e1.V(), base, -1, xa)
      requires IsOperand(e1.V(), o1)
      requires Shape(s1, Now(), v2) && ExprOk(s1, Now(), v2, base2, -1, xb) && IsOperand(v2, o2)
      modifies f`code, `jpc, `jpcs, `pend, e1
      ensures Has(e1, s0, base, ECmp(op, xa, xb))
    {
      hide Shape, ExprOk, JList;
      ghost var s := Now();
      var pc := CondJump(CmpInstr(op, o1, o2));
      ghost var sd := s.(c := f.code[..pc - 1], here := {});
      Compared(s0, s1, e1.V(), s, v2, sd, Now(), op, o1, o2, base, base2, xa, xb);
      e1.k, e1.t, e1.f, e1.ts, e1.fs := VJmp(pc), NO_JUMP, NO_JUMP, [], [];
    }

    /** The list of the first operand, at the point where the second began. */
    ghost predicate Waiting(e: ExpDesc, which: bool, s0: State, s1: State, base: nat, x: Expr)
      reads e
    {
      && Shape(s0, s1, View(VTrue, e.ts, e.fs)) && JList(s1.c, if which then e.f else e.t, if which then e.fs else e.ts)
      && (if which then e.ts == [] else e.fs == [])
      && CondOk(s0, s1, if which then e.fs else e.ts, which, base, x)
    }

    /** `and` and `or` in `luaK_posfix`: the list of the first operand joins that of the second. */
    method JoinLists(which: bool, e1: ExpDesc, e2: ExpDesc, ghost s0: State, ghost s1: State, ghost base: nat,
        ghost xa: Expr, ghost xb: Expr)
      requires e1 != e2 && Has(e2, s1, base, xb) && LocalsBelow(xb, base)
      requires Waiting(e1, which, s0, s1, base, xa)
      modifies f`code, `jpc, `jpcs, e1, e2
      ensures Has(e1, s0, base, if which then EAnd(xa, xb) else EOr(xa, xb))
    {
      hide Shape, ExprOk, JList;
      DischargeVars(e2, s1, base, xb);
      LinkLists(which, e1, e2, s0, s1, base, xa, xb);
      e1.k, e1.t, e1.f, e1.ts, e1.fs := e2.k, e2.t, e2.f, e2.ts, e2.fs;
    }

    method LinkLists(which: bool, e1: ExpDesc, e2: ExpDesc, ghost s0: State, ghost s1: State, ghost base: nat,
        ghost xa: Expr, ghost xb: Expr)
      requires e1 != e2 && Has(e2, s1, base, xb) && LocalsBelow(xb, base) && Waiting(e1, which, s0, s1, base, xa)
      modifies f`code, e2
      ensures Has(e2, s0, base, if which then EAnd(xa, xb) else EOr(xa, xb))
    {
      ghost var s, v2, l1 := Now(), e2.V(), if which then e1.fs else e1.ts;
      ListsApart(s0, s1, s, v2, if which then e1.f else e1.t, l1, which);
      var joined := f.Concat(if which then e2.f else e2.t, if which then e1.f else e1.t, if which then e2.fs
        else e2.ts, l1);
      Joined(s0, s1, l1, which, s, v2, Now(), base, xa, xb, if which then e2.t else e2.f, jpc, jpcs);
      if which {
        e2.f, e2.fs := joined, e2.fs + l1;
      } else {
        e2.t, e2.ts := joined, e2.ts + l1;
      }
    }

    // ----- expressions -----

    /** An expression that needs no code yet (`simpleexp`). */
    method SimpleExp(x: Expr, e: ExpDesc)
      requires Valid() && LocalsBelow(x, nactvar) && !x.ENot? && !x.EAnd? && !x.EOr? && !x.ECmp?
      modifies f`k, `cache, e
      ensures Has(e, old(Now()), old(freereg), x)
    {
      ghost var s := Now();
      e.t, e.f, e.ts, e.fs := NO_JUMP, NO_JUMP, [], [];
      match x {
        case ENil => e.k := VNil;
        case ETrue => e.k := VTrue;
        case EFalse => e.k := VFalse;
        case EInt(i) => e.k := VKInt(i);
        case EFlt(r) => e.k := VKFlt(r);
        case EStr(str) =>
          var i := AddK(Str(str));
          e.k := VK(i);
        case ELocal(r) => e.k := VLocal(r);
        case EUpval(u) => e.k := VUpval(u);
      }
      Init(s, f.k, e.k, freereg, x);
    }

    /** `subexpr`, on an expression whose structure is known: emits the code for it. */
    method GenExpr(x: Expr, e: ExpDesc)
      requires Valid() && LocalsBelow(x, nactvar)
      modifies f, `cache, `jpc, `jpcs, `lasttarget, `pend, `freereg, e
      ensures Has(e, old(Now()), old(freereg), x)
      decreases x, 1
    {
      match x
      case ENot(y) =>
        GenExpr(y, e);
        CodeNot(e, old(Now()), old(freereg), y);
      case EAnd(l, r) => GenLogic(true, l, r, e);
      case EOr(l, r) => GenLogic(false, l, r, e);
      case ECmp(op, l, r) => GenComp(op, l, r, e);
      case _ => SimpleExp(x, e);
    }

    /** `and` and `or` in `luaK_infix`. */
    method Infix(which: bool, e: ExpDesc, ghost s0: State, ghost base: nat, ghost x: Expr)
      requires Has(e, s0, base, x)
      modifies f, `cache, `jpc, `jpcs, `lasttarget, `pend, `freereg, e
      ensures Valid() && nactvar <= base == freereg && Waiting(e, which, s0, Now(), base, x)
    {
      if which {
        GoIfTrue(e, s0, base, x);
      } else {
        GoIfFalse(e, s0, base, x);
      }
    }

    method GenLogic(which: bool, l: Expr, r: Expr, e: ExpDesc)
      requires Valid() && LocalsBelow(l, nactvar) && LocalsBelow(r, nactvar)
      modifies f, `cache, `jpc, `jpcs, `lasttarget, `pend, `freereg, e
      ensures Has(e, old(Now()), old(freereg), if which then EAnd(l, r) else EOr(l, r))
      decreases if which then EAnd(l, r) else EOr(l, r), 0
    {
      hide Shape, ExprOk, JList;
      ghost var s0, base := Now(), freereg;
      GenExpr(l, e);
      GenRest(which, r, e, s0, base, l);
    }

    method GenRest(which: bool, r: Expr, e: ExpDesc, ghost s0: State, ghost base: nat, ghost l: Expr)
      requires Has(e, s0, base, l) && LocalsBelow(r, nactvar)
      modifies f, `cache, `jpc, `jpcs, `lasttarget, `pend, `freereg, e
      ensures Has(e, s0, base, if which then EAnd(l, r) else EOr(l, r))
      decreases r, 3
    {
      Infix(which, e, s0, base, l);
      GenSecond(which, r, e, s0, base, l);
    }

    method GenSecond(which: bool, r: Expr, e: ExpDesc, ghost s0: State, ghost base: nat, ghost l: Expr)
      requires Valid() && LocalsBelow(r, nactvar) && nactvar <= base == freereg && Waiting(e, which, s0, Now(), base, l)
      modifies f, `cache, `jpc, `jpcs, `lasttarget, `pend, `freereg, e
      ensures Has(e, s0, base, if which then EAnd(l, r) else EOr(l, r))
      decreases r, 2
    {
      ghost var s1 := Now();
      var e2 := new ExpDesc();
      GenExpr(r, e2);
      Below(r, nactvar, base);
      JoinLists(which, e, e2, s0, s1, base, l, r);
    }

    method GenComp(op: BinCmp, l: Expr, r: Expr, e: ExpDesc)
      requires Valid() && LocalsBelow(l, nactvar) && LocalsBelow(r, nactvar)
      modifies f, `cache, `jpc, `jpcs, `lasttarget, `pend, `freereg, e
      ensures Has(e, old(Now()), old(freereg), ECmp(op, l, r))
      decreases ECmp(op, l, r), 0
    {
      hide ExprAt, Distinct, LinkAt, Meant, Valid, Has;
      ghost var s0, base := Now(), freereg;
      GenExpr(l, e);
      var o := Exp2RK(e, s0, base, l);
      JumpsApart(f.code, e.t, e.ts, e.f, e.fs, s0, Now(), e.k);
      GenCompared(op, r, e, o, s0, base, l);
    }

    method GenCompared(op: BinCmp, r: Expr, e: ExpDesc, ghost o: Operand, ghost s0: State, ghost base: nat,
        ghost l: Expr)
      requires Valid() && LocalsBelow(r, nactvar) && e.t == e.f == NO_JUMP
      requires Shape(s0, Now(), e.V()) && ExprOk(s0, Now(), e.V(), base, -1, l) && IsOperand(e.V(), o)
      requires Fits(e.k, base, freereg, nactvar) && nactvar <= base
      modifies f, `cache, `jpc, `jpcs, `lasttarget, `pend, `freereg, e
      ensures Has(e, s0, base, ECmp(op, l, r))
      decreases r, 2
    {
      ghost var s1, base2 := Now(), freereg;
      var e2 := new ExpDesc();
      GenExpr(r, e2);
      Below(r, nactvar, base);
      CodeComp(op, e, e2, o, s0, s1, base, base2, l, r);
    }

    // ----- statements -----

    /** `v = x` for a local `v` (`luaK_storevar`). */
    method StoreLocal(x: Expr, reg: nat)
      requires Valid() && LocalsBelow(x, nactvar) && reg < nactvar
      modifies f, `cache, `jpc, `jpcs, `lasttarget, `pend, `freereg
      ensures Valid() && freereg == old(freereg) && pend == old(pend)
      ensures Computes(old(Now()), Now(), x, reg, freereg)
    {
      ghost var s0, base := Now(), freereg;
      var e := new ExpDesc();
      GenExpr(x, e);
      FreeExp(e, base);
      Exp2Reg(e, reg, s0, base, x);
      Computed(s0, Now(), x, reg, base);
    }

    /** `local v = x`: the value comes to the next register. */
    method LoadNext(x: Expr)
      requires Valid() && LocalsBelow(x, nactvar)
      modifies f, `cache, `jpc, `jpcs, `lasttarget, `pend, `freereg
      ensures Valid() && freereg == old(freereg) + 1 && pend == old(pend)
      ensures Computes(old(Now()), Now(), x, old(freereg), old(freereg))
    {
      ghost var s0, base := Now(), freereg;
      var e := new ExpDesc();
      GenExpr(x, e);
      Exp2NextReg(e, s0, base, x);
      Exempt(s0, Now(), e.V(), base, -1, base, x);
      Computed(s0, Now(), x, base, base);
    }

    /**
     The condition of an `if`: the code goes on when it is true, and leaves through the list of `e` when it is not.
     */
    method GenCondition(x: Expr, e: ExpDesc)
      requires Valid() && LocalsBelow(x, nactvar)
      modifies f, `cache, `jpc, `jpcs, `lasttarget, `pend, `freereg, e
      ensures Valid() && JList(f.code, e.f, e.fs) && freereg == old(freereg)
      ensures pend == old(pend) + Elems(e.fs) && CondOk(old(Now()), Now(), e.fs, true, freereg, x)
    {
      ghost var s0, base := Now(), freereg;
      GenExpr(x, e);
      GoIfTrue(e, s0, base, x);
      OnlyList(s0, Now(), e.fs);
    }
  }

  ghost predicate ComputesAt(env: Env, s0: State, s: State, x: Expr, reg: nat, base: nat, a: nat, regs: Regs) {
    a <= |s0.c| && a <= |s.c| &&
      match Run(env, s0, a, regs)
      case Stuck => false
      case Jump(p, r) => Run(env, s, a, regs) == Jump(p, r)
      case Here(r0) => var e := Run(env, s, a, regs);
        e.Here? && e.regs(reg) == Eval(env, x, r0) && forall r: nat {:trigger e.regs(r)} :: r < base && r != reg ==>
          e.regs(r) == r0(r)
  }

  /** From wherever one came to the end of the old code, the new code comes to its end with the value in `reg`. */
  ghost predicate Computes(s0: State, s: State, x: Expr, reg: nat, base: nat) {
    forall env: Env, a: nat, regs: Regs {:trigger ComputesAt(env, s0, s, x, reg, base, a, regs)} ::
      a <= Limit(s0) && Entry(s0.c, a) ==> ComputesAt(env, s0, s, x, reg, base, a, regs)
  }

  lemma Computed(s0: State, s: State, x: Expr, reg: nat, base: nat)
    requires Shape(s0, s, View(VNonReloc(reg), [], [])) && ExprOk(s0, s, View(VNonReloc(reg), [], []), base, reg, x)
    ensures Computes(s0, s, x, reg, base) && s.pend == s0.pend
  {
    forall env: Env, a: nat, regs: Regs | a <= Limit(s0) && Entry(s0.c, a)
      ensures ComputesAt(env, s0, s, x, reg, base, a, regs)
    {
      assert ExprAt(env, s0, s, View(VNonReloc(reg), [], []), base, reg, x, a, regs);
      NeverStuck(env, s0, a, regs);
    }
    forall p ensures p in s.pend <==> p in s0.pend {
    }
  }

  lemma OnlyList(s0: State, s: State, l: seq<int>)
    requires Shape(s0, s, View(VTrue, [], l))
    ensures s.pend == s0.pend + Elems(l)
  {
    forall p ensures p in s.pend <==> p in s0.pend || p in l {
    }
  }

  /** The code for an expression with `n` locals: run from its start, it leaves the value in the next register. */
  method Compile(n: nat, x: Expr) returns (code: seq<Instr>, consts: seq<Value>, ghost s: State)
    requires LocalsBelow(x, n)
    ensures s.c == code && s.k == consts && s.pend == {}
    ensures forall env: Env, regs: Regs {:trigger Run(env, s, 0, regs)} :: var e := Run(env, s, 0, regs);
      e.Here? && e.regs(n) == Eval(env, x, regs) && forall r: nat :: r < n ==> e.regs(r) == regs(r)
  {
    var fs := new FuncState();
    fs.nactvar, fs.freereg := n, n;
    ghost var s0 := fs.Now();
    fs.LoadNext(x);
    code, consts, s := fs.f.code, fs.f.k, fs.Now();
    forall env: Env, regs: Regs
      ensures var e := Run(env, s, 0, regs);
        e.Here? && e.regs(n) == Eval(env, x, regs) && forall r: nat :: r < n ==> e.regs(r) == regs(r)
    {
      assert ComputesAt(env, s0, s, x, n, n, 0, regs);
      assert Run(env, s0, 0, regs) == Here(regs);
    }
  }

  lemma Compared(s0: State, s1: State, v1: View, s2: State, v2: View, sd: State, s3: State, op: BinCmp, o1: Operand,
      o2: Operand,
      base: nat, base2: nat, xa: Expr, xb: Expr)
    requires Shape(s0, s1, v1) && ExprOk(s0, s1, v1, base, -1, xa) && IsOperand(v1, o1)
    requires Shape(s1, s2, v2) && ExprOk(s1, s2, v2, base2, -1, xb) && IsOperand(v2, o2)
    requires CmpEmitted(s2, sd, s3, CmpInstr(op, o1, o2))
    requires base <= base2 && (o1.Reg? ==> o1.r < base2) && LocalsBelow(xb, base)
    ensures var v3 := View(VJmp(|sd.c| + 1), [], []);
      Shape(s0, s3, v3) && ExprOk(s0, s3, v3, base, -1, ECmp(op, xa, xb))
    ensures JList(s3.c, NO_JUMP, [])
  {
    CmpShape(s0, s1, v1, s2, v2, sd, s3, op, o1, o2);
    CmpExpr(s0, s1, v1, s2, v2, sd, s3, op, o1, o2, base, base2, xa, xb);
  }

  lemma Below(x: Expr, n: nat, m: nat)
    requires LocalsBelow(x, n) && n <= m
    ensures LocalsBelow(x, m)
  {
  }

  /** Clearing tests does not touch lists. */
  lemma ClearedLists(c: seq<Instr>, c1: seq<Instr>, l: seq<int>, h: int, l1: seq<int>)
    requires TestsCleared(c, c1, l) && JList(c, h, l1)
    ensures JList(c1, h, l1)
  {
    forall i | 0 <= i < |l1| ensures LinkAt(c1, l1, i) {
      assert LinkAt(c, l1, i);
    }
  }

  lemma ClearedTwice(s: State, c: seq<Instr>, s1: State, ts: seq<int>, fs: seq<int>)
    requires TestsCleared(s.c, c, ts) && TestsCleared(c, s1.c, fs) && s1 == s.(c := s1.c)
    ensures Unvalued(s, s1, Elems(ts) + Elems(fs))
  {
  }

  lemma ListsApart(s0: State, s1: State, s: State, v2: View, h: int, l1: seq<int>, which: bool)
    requires Shape(s0, s1, View(VTrue, if which then [] else l1, if which then l1 else []))
    requires Shape(s1, s, v2) && JList(s1.c, h, l1)
    ensures JList(s.c, h, l1) && forall p :: p in l1 ==> p !in v2.ts && p !in v2.fs
  {
    ListEnds(s1, h, l1);
    forall i | 0 <= i < |l1| ensures LinkAt(s.c, l1, i) {
      assert LinkAt(s1.c, l1, i) && l1[i] in l1;
      assert l1[i] in s1.pend && SameJump(s1.c, s.c, l1[i]);
    }
  }

  lemma Joined(s0: State, s1: State, l1: seq<int>, which: bool, s: State, v2: View, s3: State, base: nat, xa: Expr,
      xb: Expr,
      h: int, hj: int, js: seq<int>)
    requires Shape(s0, s1, View(VTrue, if which then [] else l1, if which then l1 else []))
    requires CondOk(s0, s1, l1, which, base, xa)
    requires Shape(s1, s, v2) && ExprOk(s1, s, v2, base, -1, xb) && LocalsBelow(xb, base)
    requires s3 == s.(c := s3.c) && |s3.c| == |s.c| && forall i {:trigger s3.c[i]} :: 0 <= i < |s.c| ==>
      s3.c[i] == s.c[i] || (i in (if which then v2.fs else v2.ts) && s.c[i].Jmp? && s3.c[i].Jmp?)
    requires JList(s.c, h, if which then v2.ts else v2.fs) && JList(s.c, hj, js) && s.here == Elems(js)
    ensures Shape(s0, s3, Both(v2, l1, which))
    ensures ExprOk(s0, s3, Both(v2, l1, which), base, -1, if which then EAnd(xa, xb) else EOr(xa, xb))
    ensures JList(s3.c, h, if which then v2.ts else v2.fs) && JList(s3.c, hj, js)
  {
    var own, other := if which then v2.fs else v2.ts, if which then v2.ts else v2.fs;
    var l := Elems(own);
    assert Relinked(s, s3, l);
    forall p | p in l ensures p in s.pend && |s1.c| <= p && p !in other && s.c[p].Jmp? {
      assert if which then p in v2.fs else p in v2.ts;
    }
    BothExpr(s0, s1, l1, which, s, v2, s3, l, base, xa, xb);
    HereApart(s1, s, v2, js);
    forall p | p in other && 0 <= p < |s.c| ensures s3.c[p] == s.c[p] {
      assert p in own ==> p in l;
    }
    forall p | p in js && 0 <= p < |s.c| ensures s3.c[p] == s.c[p] {
    }
    JListKeep(s.c, s3.c, h, other);
    JListKeep(s.c, s3.c, hj, js);
  }

  lemma NoHere(s: State, l: seq<int>)
    requires s.here == Elems(l) == {}
    ensures l == []
  {
    ElemsEmpty(l);
  }

  lemma JListBody(s: State, k: Kind, h: int, l: seq<int>)
    requires JList(s.c, h, l) && l == []
    ensures JList(Body(s, k).c, h, l)
  {
  }

  lemma InvertKeepsLists(s: State, k: Kind, h: int, l: seq<int>)
    requires k.VJmp? && KindOk(s, k) && JList(s.c, h, l)
    ensures JList(Inverted(s).c, h, l)
  {
    forall i | 0 <= i < |l| ensures LinkAt(Inverted(s).c, l, i) {
      assert LinkAt(s.c, l, i);
    }
  }

  lemma Tested(s0: State, s: State, v: View, sd: State, s1: State, i: Instr, which: bool, base: nat, x: Expr, ht: int,
      hf: int)
    requires Shape(s0, s, v) && ExprOk(s0, s, v, base, -1, x) && Tests(s, v.k, which, i)
    requires TestEmitted(s, v.k, sd, s1, i)
    requires JList(s.c, ht, v.ts) && JList(s.c, hf, v.fs)
    ensures var pc := |sd.c| + 1;
      && SplitOk(s0, s1, TrueList(v, which, pc), FalseList(v, which, pc), which, base, x)
      && Shape(s0, s1, View(VTrue, TrueList(v, which, pc), FalseList(v, which, pc)))
      && JList(s1.c, ht, v.ts) && JList(s1.c, hf, v.fs) && pc !in v.ts && pc !in v.fs
  {
    TestShape(s0, s, v, sd, s1, i, which);
    TestExpr(s0, s, v, sd, s1, i, which, base, x);
    EmitTestLists(s, v.k, sd, s1, i, ht, v.ts);
    EmitTestLists(s, v.k, sd, s1, i, hf, v.fs);
    ListEnds(s, ht, v.ts);
    ListEnds(s, hf, v.fs);
    forall p | p in v.ts || p in v.fs ensures p < |sd.c| {
      assert p in s.pend && s.c[p].Jmp?;
    }
  }

  lemma EmitTestLists(s: State, k: Kind, sd: State, s1: State, i: Instr, h: int, l: seq<int>)
    requires Wf(s) && KindOk(s, k) && TestEmitted(s, k, sd, s1, i) && JList(s.c, h, l)
    requires forall p :: p in l ==> p in s.pend
    ensures JList(s1.c, h, l)
  {
    EmitList(s, k, sd, s1, h, l);
  }

  lemma HereApart(s0: State, s: State, v: View, js: seq<int>)
    requires Shape(s0, s, v) && s.here == Elems(js)
    ensures forall p :: p in js ==> p !in v.ts && p !in v.fs && p !in s.pend
  {
    forall p | p in js ensures p !in s.pend {
      assert p in s.here;
    }
  }

  lemma Linked(s0: State, s: State, v: View, which: bool, pc: int, base: nat, x: Expr, s1: State, h: int, hj: int,
      js: seq<int>)
    requires Shape(s0, s, View(VTrue, TrueList(v, which, pc), FalseList(v, which, pc)))
    requires SplitOk(s0, s, TrueList(v, which, pc), FalseList(v, which, pc), which, base, x)
    requires s1 == s.(c := s1.c) && |s1.c| == |s.c| && forall i {:trigger s1.c[i]} :: 0 <= i < |s.c| ==>
      s1.c[i] == s.c[i] || (i in (if which then v.fs else v.ts) && s.c[i].Jmp? && s1.c[i].Jmp?)
    requires JList(s.c, h, if which then v.ts else v.fs) && JList(s.c, hj, js) && s.here == Elems(js)
    ensures Shape(s0, s1, View(VTrue, TrueList(v, which, pc), FalseList(v, which, pc)))
    ensures SplitOk(s0, s1, TrueList(v, which, pc), FalseList(v, which, pc), which, base, x)
    ensures JList(s1.c, h, if which then v.ts else v.fs) && JList(s1.c, hj, js)
  {
    var own, other := if which then v.fs else v.ts, if which then v.ts else v.fs;
    var ts, fs := TrueList(v, which, pc), FalseList(v, which, pc);
    assert Relinked(s, s1, Elems(own));
    forall p | p in Elems(own) ensures p in s.pend && |s0.c| <= p && p !in other {
      assert p in own + [pc];
      assert if which then p in fs else p in ts;
    }
    RelinkSplit(s0, s, ts, fs, which, base, x, s1, Elems(own));
    HereApart(s0, s, View(VTrue, ts, fs), js);
    forall p | p in other && 0 <= p < |s.c| ensures s1.c[p] == s.c[p] {
      assert p in own ==> p in Elems(own);
    }
    forall p | p in js && 0 <= p < |s.c| ensures s1.c[p] == s.c[p] {
      assert p in own ==> p in Elems(own);
    }
    JListKeep(s.c, s1.c, h, other);
    JListKeep(s.c, s1.c, hj, js);
  }

  lemma Ended(s0: State, s: State, v: View, which: bool, base: nat, x: Expr, s2: State, js: seq<int>, h: int)
    requires Shape(s0, s, View(VTrue, v.ts, v.fs)) && SplitOk(s0, s, v.ts, v.fs, which, base, x)
    requires var closed := if which then v.ts else v.fs;
      && |s2.c| == |s.c| && s2 == State(s2.c, s.k, Elems(js), s.pend - Elems(closed), |s.c|)
      && Elems(js) == s.here + Elems(closed)
    requires forall i {:trigger s2.c[i]} :: 0 <= i < |s.c| ==>
      s2.c[i] == s.c[i] || (i in s.here && s.c[i].Jmp? && s2.c[i].Jmp?)
    requires JList(s.c, h, if which then v.fs else v.ts)
    ensures CondOk(s0, s2, if which then v.fs else v.ts, which, base, x)
    ensures Shape(s0, s2, View(VTrue, if which then [] else v.ts, if which then v.fs else []))
    ensures JList(s2.c, h, if which then v.fs else v.ts)
  {
    var s1 := s.(c := s2.c);
    var closed, open := if which then v.ts else v.fs, if which then v.fs else v.ts;
    assert Relinked(s, s1, s.here);
    SplitDone(s0, s, v.ts, v.fs, which, base, x, s1, s.here);
    assert s2 == ToHere(s1, Elems(closed));
    forall p | p in open && 0 <= p < |s.c| ensures s2.c[p] == s.c[p] {
      assert p in s.pend;
    }
    JListKeep(s.c, s2.c, h, open);
  }

  /** Either the loads are there, or no jump needs them. */
  ghost predicate PatchReady(s: State, v: View, reg: nat, need: bool) {
    if need then LoadsAt(s, v, reg, |s.c| - 2, |s.c| - 1)
    else forall p {:trigger Controlled(s.c, p)} :: p in v.ts || p in v.fs ==> Controlled(s.c, p)
  }

  lemma ReadyDefault(s: State, v: View, which: bool, reg: nat, d: nat, need: bool)
    requires PatchReady(s, v, reg, need) && (need ==> d == |s.c| - if which then 1 else 2)
    ensures DefaultOk(s, ListOf(v, which), which, reg, d)
    ensures !need ==> forall p :: p in ListOf(v, which) ==> Controlled(s.c, p)
  {
    forall p | p in ListOf(v, which) ensures (need ==> p < |s.c| - 2) && (!need ==> Controlled(s.c, p)) {
      assert if which then p in v.ts else p in v.fs;
      assert !need ==> Controlled(s.c, p);
    }
  }

  lemma NoJumps(c: seq<Instr>)
    ensures JList(c, NO_JUMP, [])
  {
  }

  lemma PatchDone(s0: State, s: State, v: View, s1: State, which: bool, reg: nat, d: nat, dt: int, base: nat, x: Expr,
      need: bool,
      ht: int, hf: int, hj: int, js: seq<int>)
    requires Shape(s0, s, v) && ExprOk(s0, s, v, base, reg, x) && v.k == VNonReloc(reg)
    requires s.lasttarget == |s.c| && PatchReady(s, v, reg, need)
    requires DefaultOk(s, ListOf(v, which), which, reg, d) && d <= |s.c| && (need ==> d == dt)
    requires !need ==> forall p :: p in ListOf(v, which) ==> Controlled(s.c, p)
    requires Patched(s.c, s1.c, Elems(ListOf(v, which)), reg, |s.c|, dt)
    requires s1 == s.(c := s1.c, pend := s.pend - Elems(ListOf(v, which)))
    requires JList(s.c, ht, v.ts) && JList(s.c, hf, v.fs) && JList(s.c, hj, js) && s.here == Elems(js)
    ensures Shape(s0, s1, Without(v, which)) && ExprOk(s0, s1, Without(v, which), base, reg, x)
    ensures PatchReady(s1, Without(v, which), reg, need)
    ensures JList(s1.c, hj, js) && if which then JList(s1.c, hf, v.fs) else JList(s1.c, ht, v.ts)
  {
    var l := ListOf(v, which);
    forall i | 0 <= i < |s.c| ensures PatchedAt(s.c, s1.c, Elems(l), reg, |s.c|, d, i) {
      assert PatchedAt(s.c, s1.c, Elems(l), reg, |s.c|, dt, i);
    }
    PatchExpr(s0, s, v, s1, which, reg, d, base, x);
    PatchRestKeeps(s0, s, v, s1, which, reg, d, need);
    PatchedList(s, s1, Elems(l), reg, d, if which then hf else ht, if which then v.fs else v.ts) by {
      OtherList(s0, s, v, which);
    }
    PatchedList(s, s1, Elems(l), reg, d, hj, js) by {
      HereElsewhere(s0, s, v, which, js);
    }
  }

  lemma OtherList(s0: State, s: State, v: View, which: bool)
    requires Shape(s0, s, v)
    ensures forall p :: p in (if which then v.fs else v.ts) ==> p !in Elems(ListOf(v, which))
  {
  }

  lemma HereElsewhere(s0: State, s: State, v: View, which: bool, js: seq<int>)
    requires Shape(s0, s, v) && s.here == Elems(js)
    ensures forall p :: p in js ==> p !in Elems(ListOf(v, which))
  {
    ListPending(s0, s, v, which);
    forall p | p in js ensures p !in Elems(ListOf(v, which)) {
      assert p in s.here;
    }
  }

  lemma PatchedList(s: State, s1: State, l: set<int>, reg: nat, d: nat, h: int, l1: seq<int>)
    requires Patched(s.c, s1.c, l, reg, |s.c|, d) && JList(s.c, h, l1) && forall p :: p in l1 ==> p !in l
    ensures JList(s1.c, h, l1)
  {
    forall i | 0 <= i < |l1| ensures LinkAt(s1.c, l1, i) {
      assert LinkAt(s.c, l1, i) && l1[i] in l1;
      assert PatchedAt(s.c, s1.c, l, reg, |s.c|, d, l1[i]);
    }
  }

  lemma PatchRestKeeps(s0: State, s: State, v: View, s1: State, which: bool, reg: nat, d: nat, need: bool)
    requires PatchesList(s0, s, v, s1, which, reg, d) && PatchReady(s, v, reg, need)
    ensures PatchReady(s1, Without(v, which), reg, need)
  {
    var l, v1 := ListOf(v, which), Without(v, which);
    ListCanPatch(s0, s, v, s1, which, reg, d);
    ListPending(s0, s, v, which);
    if need {
      assert PatchedAt(s.c, s1.c, Elems(l), reg, |s.c|, d, |s.c| - 2)
        && PatchedAt(s.c, s1.c, Elems(l), reg, |s.c|, d, |s.c| - 1);
    } else {
      forall p | p in v1.ts || p in v1.fs ensures Controlled(s1.c, p) {
        assert p in s.pend && p !in l;
        PatchKeeps(s, s1, Elems(l), reg, Default(s, l, d), p);
        assert Controlled(s.c, p);
      }
    }
  }

  /** `hasjumps`: the two lists are empty, or begin with different jumps. */
  lemma JumpsApart(c: seq<Instr>, ht: int, ts: seq<int>, hf: int, fs: seq<int>, s0: State, s: State, k: Kind)
    requires JList(c, ht, ts) && JList(c, hf, fs) && Shape(s0, s, View(k, ts, fs))
    ensures ht == hf ==> ts == [] && fs == []
  {
    if ts != [] {
      assert LinkAt(c, ts, 0) && ts[0] in ts;
    }
    if fs != [] {
      assert LinkAt(c, fs, 0) && fs[0] in fs;
    }
  }

  /** The jump of a comparison never leaves a value. */
  lemma JumpNeeds(s0: State, s: State, v: View)
    requires forall p :: p in v.ts || p in v.fs ==> Controlled(s.c, p)
    requires v.k.VJmp? ==> v.k.pc in v.ts && !Controlled(s.c, v.k.pc)
    ensures !v.k.VJmp?
  {
  }

  /** The loads of the booleans are at the end of the code. */
  ghost predicate LoadsAt(s: State, v: View, reg: nat, pf: int, pt: int) {
    && |s.c| >= 2 && pf == |s.c| - 2 && pt == |s.c| - 1 && s.lasttarget == |s.c|
    && s.c[pf] == LoadBool(reg, false, true) && s.c[pt] == LoadBool(reg, true, false)
    && forall p :: p in v.ts || p in v.fs ==> p < pf
  }

  /** The last jump of a list. */
  lemma ListEnds(s: State, h: int, l: seq<int>)
    requires JList(s.c, h, l)
    ensures forall p :: p in l ==> 0 <= p < |s.c|
  {
    HeldElsewhere(s.c, h, l);
  }

  lemma RelinkLists(s0: State, s: State, v: View, s1: State, base: nat, exc: int, x: Expr, l1: seq<int>, hf: int,
      hj: int, js: seq<int>)
    requires Shape(s0, s, v) && ExprOk(s0, s, v, base, exc, x) && !v.k.VJmp? && !v.k.VReloc?
    requires s1 == s.(c := s1.c) && |s1.c| == |s.c| && s.here == Elems(js)
    requires forall i {:trigger s1.c[i]} :: 0 <= i < |s.c| ==>
      s1.c[i] == s.c[i] || (i in l1 && s1.c[i].Jmp? && s.c[i].Jmp?)
    requires forall p :: p in l1 ==> p in v.ts
    requires JList(s.c, hf, v.fs) && JList(s.c, hj, js)
    ensures Shape(s0, s1, v) && ExprOk(s0, s1, v, base, exc, x)
    ensures JList(s1.c, hf, v.fs) && JList(s1.c, hj, js)
  {
    assert Relinked(s, s1, Elems(l1));
    forall p | p in Elems(l1) ensures p in s.pend && |s0.c| <= p {
      assert p in v.ts;
    }
    RelinkExpr(s0, s, v, s1, Elems(l1), base, exc, x);
    forall p | p in v.fs && 0 <= p < |s.c| ensures s1.c[p] == s.c[p] {
    }
    forall p | p in js && 0 <= p < |s.c| ensures s1.c[p] == s.c[p] {
      assert p in s.here;
    }
    JListKeep(s.c, s1.c, hf, v.fs);
    JListKeep(s.c, s1.c, hj, js);
  }

  lemma FalseLists(s0: State, s: State, v: View, sd: State, reg: nat, ht: int, hf: int)
    requires Shape(s0, s, v) && v.k.VFalse? && Discharged(s, sd) && JList(s.c, ht, v.ts) && JList(s.c, hf, v.fs)
    ensures JList(AfterFalse(sd, reg).c, ht, v.ts) && JList(AfterFalse(sd, reg).c, hf, v.fs)
  {
    FalseShape(s0, s, v, sd, reg);
    EmitList(s, v.k, sd, AfterFalse(sd, reg), ht, v.ts);
    EmitList(s, v.k, sd, AfterFalse(sd, reg), hf, v.fs);
  }

  lemma NilDone(s0: State, s: State, v: View, s1: State, reg: nat, base: nat, x: Expr, ht: int, hf: int)
    requires Shape(s0, s, v) && ExprOk(s0, s, v, base, -1, x) && v.k.VNil? && Wf(s1)
    requires NilCode(s, s1, reg, reg) && NilOk(s, s1, reg, reg) && JList(s.c, ht, v.ts) && JList(s.c, hf, v.fs)
    ensures Shape(s0, s1, View(VNonReloc(reg), v.ts, v.fs))
    ensures ExprOk(s0, s1, View(VNonReloc(reg), v.ts, v.fs), base, reg, x)
    ensures JList(s1.c, ht, v.ts) && JList(s1.c, hf, v.fs)
  {
    if CanMerge(s, reg, reg) && s1 == Merged(s, reg, reg) && s.here == {} {
      MergeKept(s0, s, reg, reg);
      MergeLists(s, s1, reg, v.ts, ht);
      MergeLists(s, s1, reg, v.fs, hf);
      NilShape(s0, s, v, s1, reg);
    } else {
      var sd :| Emitted(s, sd, s1) && s1 == sd.(c := sd.c + [LoadNil(reg, 0)]);
      LoadDone(s0, s, v, sd, s1, LoadNil(reg, 0), reg, base, x, ht, hf);
    }
    forall p | p in s.pend ensures SameJump(s.c, s1.c, p) && (p > 0 ==> (TMode(s1.c[p - 1]) <==> TMode(s.c[p - 1]))) {
      NilKeeps(s, s1, reg, p);
    }
    NilExpr(s0, s, v, s1, reg, base, x);
  }

  lemma NilKeeps(s: State, s1: State, reg: nat, p: int)
    requires Wf(s) && NilCode(s, s1, reg, reg) && p in s.pend
    ensures SameJump(s.c, s1.c, p) && (p > 0 ==> (TMode(s1.c[p - 1]) <==> TMode(s.c[p - 1])))
  {
    if CanMerge(s, reg, reg) && s1 == Merged(s, reg, reg) && s.here == {} {
      assert s.c[p].Jmp?;
    } else {
      var sd :| Emitted(s, sd, s1) && s1 == sd.(c := sd.c + [LoadNil(reg, 0)]);
      DischargedKeeps(s, sd, p);
      if p > 0 {
        assert PatchedAt(s.c, sd.c, s.here, NO_REG, |s.c|, |s.c|, p - 1);
      }
    }
  }

  lemma MergeLists(s: State, s1: State, reg: nat, l: seq<int>, h: int)
    requires Wf(s) && CanMerge(s, reg, reg) && s1 == Merged(s, reg, reg) && JList(s.c, h, l)
    ensures JList(s1.c, h, l)
  {
    forall i | 0 <= i < |l| ensures LinkAt(s1.c, l, i) {
      assert LinkAt(s.c, l, i);
    }
  }

  lemma LoadDone(s0: State, s: State, v: View, sd: State, s1: State, i: Instr, reg: nat, base: nat, x: Expr, ht: int,
      hf: int)
    requires Shape(s0, s, v) && ExprOk(s0, s, v, base, -1, x) && !v.k.VJmp? && Loads(s, s1.k, v.k, i, reg)
    requires Emitted(Body(s, v.k), sd, s1) && s1 == sd.(c := sd.c + [i], k := s1.k)
    requires JList(s.c, ht, v.ts) && JList(s.c, hf, v.fs)
    ensures Shape(s0, s1, View(VNonReloc(reg), v.ts, v.fs))
    ensures ExprOk(s0, s1, View(VNonReloc(reg), v.ts, v.fs), base, reg, x)
    ensures JList(s1.c, ht, v.ts) && JList(s1.c, hf, v.fs)
  {
    LoadShape(s0, s, v, sd, s1, i, reg);
    LoadExpr(s0, s, v, sd, s1, i, reg, base, x);
    EmitList(s, v.k, sd, s1, ht, v.ts);
    EmitList(s, v.k, sd, s1, hf, v.fs);
  }

  lemma DischargedNone(b: State)
    requires b.here == {}
    ensures Discharged(b, b)
  {
    forall i | 0 <= i < |b.c| ensures PatchedAt(b.c, b.c, b.here, NO_REG, |b.c|, |b.c|, i) {
    }
  }

  lemma EmptyHere(s: State, h: int, l: seq<int>)
    requires s.here == Elems(l) == {} && JList(s.c, h, l)
    ensures l == [] && h == NO_JUMP
  {
    ElemsEmpty(l);
  }

  /** Emitting one instruction, seen as new code. */
  lemma EmittedIs(s: State, k: Kind, sd: State, s1: State)
    requires Wf(s) && !k.VReloc? && Discharged(s, sd) && sd.c <= s1.c && s1.here == {} && s.k <= s1.k
    requires s1.pend == s.pend
    ensures Emitted(Body(s, k), sd, s1)
  {
  }

  /** What OP_LOADNIL does to the code: it is emitted, or merged. */
  ghost predicate NilCode(s: State, s1: State, from: nat, to: int) {
    || (exists sd {:trigger Emitted(s, sd, s1)} ::
          Emitted(s, sd, s1) && from <= to && s1 == sd.(c := sd.c + [LoadNil(from, to - from)]))
    || (CanMerge(s, from, to) && s1 == Merged(s, from, to) && s.here == {})
  }

  lemma JListNone(c: seq<Instr>, h: int)
    requires h == NO_JUMP
    ensures JList(c, h, [])
  {
  }

  lemma HeldElsewhere(c: seq<Instr>, h: int, l: seq<int>)
    requires JList(c, h, l)
    ensures forall p :: p in l ==> 0 <= p < |c|
  {
    forall p | p in l ensures 0 <= p < |c| {
      var i :| 0 <= i < |l| && l[i] == p;
      assert LinkAt(c, l, i);
    }
  }
}
