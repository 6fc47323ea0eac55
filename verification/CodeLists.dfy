/**
 Patch lists (lcode.c): jumps that wait for their target are linked through their own offsets. A
 list is known by its first jump; the ghost sequences say which jumps are in it.
 */
module CodeLists {
  import opened Bytecode
  import opened CodeExpr
  import opened CodeSteps
  import opened CodeValues
  import opened CodeRegisters

  function Link(l: seq<int>, i: nat): int
    requires i < |l|
  {
    if i + 1 < |l| then l[i + 1] - l[i] - 1 else NO_JUMP
  }

  ghost predicate Distinct(l: seq<int>) {
    forall i, j :: 0 <= i < j < |l| ==> l[i] != l[j]
  }

  predicate LinkAt(c: seq<Instr>, l: seq<int>, i: nat)
    requires i < |l|
  {
    0 <= l[i] < |c| && c[l[i]] == Jmp(Link(l, i))
  }

  /** The list that begins with `head` has the jumps `l`, in this order. */
  ghost predicate JList(c: seq<Instr>, head: int, l: seq<int>) {
    && head == (if l == [] then NO_JUMP else l[0])
    && (forall i {:trigger LinkAt(c, l, i)} :: 0 <= i < |l| ==> LinkAt(c, l, i))
    && Distinct(l)
  }

  lemma JListKeep(c: seq<Instr>, c1: seq<Instr>, head: int, l: seq<int>)
    requires JList(c, head, l) && |c| <= |c1| && forall p :: p in l && 0 <= p < |c| ==> c1[p] == c[p]
    ensures JList(c1, head, l)
  {
    forall i | 0 <= i < |l| ensures LinkAt(c1, l, i) {
      assert LinkAt(c, l, i) && l[i] in l;
    }
  }

  /** Two lists become one when the last jump of the first is linked to the second. */
  lemma JListConcat(c: seq<Instr>, h1: int, l1: seq<int>, h2: int, l2: seq<int>)
    requires JList(c, h1, l1) && JList(c, h2, l2) && |l1| > 0 && |l2| > 0 && forall p :: p in l1 ==> p !in l2
    ensures 0 <= l1[|l1| - 1] < |c|
    ensures JList(c[l1[|l1| - 1] := Jmp(h2 - l1[|l1| - 1] - 1)], h1, l1 + l2)
  {
    var last := l1[|l1| - 1];
    assert last in l1 && l2[0] in l2 && LinkAt(c, l1, |l1| - 1);
    var c1, l := c[last := Jmp(h2 - last - 1)], l1 + l2;
    forall i | 0 <= i < |l| ensures LinkAt(c1, l, i) {
      if i < |l1| {
        assert LinkAt(c, l1, i);
      } else {
        assert LinkAt(c, l2, i - |l1|) && l2[i - |l1|] in l2;
      }
    }
    forall i, j | 0 <= i < j < |l| ensures l[i] != l[j] {
      if i < |l1| <= j {
        assert l1[i] in l1 && l2[j - |l1|] in l2;
      }
    }
  }

  lemma JListOne(c: seq<Instr>, p: nat)
    requires p < |c| && c[p] == Jmp(NO_JUMP)
    ensures JList(c, p, [p])
  {
    assert LinkAt(c, [p], 0);
  }

  class ExpDesc {
    var k: Kind
    var t: int
    var f: int
    ghost var ts: seq<int>
    ghost var fs: seq<int>

    constructor ()
      ensures k == VNil && t == f == NO_JUMP && ts == fs == []
    {
      k, t, f, ts, fs := VNil, NO_JUMP, NO_JUMP, [], [];
    }

    ghost function V(): View
      reads this
    {
      View(k, ts, fs)
    }

    predicate HasJumps()
      reads this
    {
      t != f
    }
  }

  /** The function header with the code and the constants, and the operations on the jumps of the code. */
  class Proto {
    var code: seq<Instr>
    var k: seq<Value>

    constructor ()
      ensures code == [] && k == []
    {
      code, k := [], [];
    }

    method GetJump(pc: nat, ghost l: seq<int>, ghost i: nat) returns (next: int)
      requires i < |l| && l[i] == pc && LinkAt(code, l, i) && Distinct(l)
      ensures next == if i + 1 < |l| then l[i + 1] else NO_JUMP
    {
      var offset := code[pc].sbx;
      if offset == NO_JUMP {
        return NO_JUMP;
      }
      return pc + 1 + offset;
    }

    method FixJump(pc: nat, dest: int)
      requires pc < |code| && code[pc].Jmp? && dest != NO_JUMP
      modifies `code
      ensures code == old(code)[pc := Jmp(dest - pc - 1)]
    {
      code := code[pc := Jmp(dest - (pc + 1))];
    }

    /** `getjumpcontrol`: the test that controls a jump, or the jump itself. */
    method GetJumpControl(pc: nat) returns (i: nat)
      requires pc < |code|
      ensures i == if pc >= 1 && TMode(code[pc - 1]) then pc - 1 else pc
    {
      if pc >= 1 && TMode(code[pc - 1]) {
        return pc - 1;
      }
      return pc;
    }

    /** Whether the list has a jump that does not produce a value. */
    method NeedValue(head: int, ghost l: seq<int>) returns (b: bool)
      requires JList(code, head, l)
      ensures b <==> exists p :: p in l && !Controlled(code, p)
    {
      var list := head;
      ghost var i := 0;
      while list != NO_JUMP
        invariant i <= |l| && list == if i < |l| then l[i] else NO_JUMP
        invariant forall p :: p in l[..i] ==> Controlled(code, p)
        invariant i < |l| ==> LinkAt(code, l, i)
        decreases |l| - i
      {
        assert LinkAt(code, l, i) && l[i] in l;
        var ctl := GetJumpControl(list);
        if !code[ctl].TestSet? {
          return true;
        }
        assert l[..i + 1] == l[..i] + [l[i]];
        list := GetJump(list, l, i);
        i := i + 1;
      }
      assert l[..i] == l;
      return false;
    }

    /** `patchtestreg`: whether the jump leaves a value, which is sent to `reg`. */
    method PatchTestReg(pc: nat, reg: int) returns (value: bool)
      requires pc < |code| && code[pc].Jmp?
      modifies `code
      ensures value == Controlled(old(code), pc)
      ensures code == if value then old(code)[pc - 1 := Retarget(old(code)[pc - 1], reg)] else old(code)
    {
      var i := GetJumpControl(pc);
      if !code[i].TestSet? {
        return false;
      }
      if reg != NO_REG && reg != code[i].b {
        code := code[i := code[i].(target := reg)];
      } else {
        code := code[i := Test(code[i].b, code[i].cond)];
      }
      return true;
    }

    method RemoveValues(head: int, ghost l: seq<int>)
      requires JList(code, head, l)
      modifies `code
      ensures TestsCleared(old(code), code, l) && JList(code, head, l)
    {
      var list := head;
      ghost var i := 0;
      while list != NO_JUMP
        invariant i <= |l| && list == if i < |l| then l[i] else NO_JUMP
        invariant TestsCleared(old(code), code, l[..i])
        invariant JList(code, head, l) && (i < |l| ==> LinkAt(code, l, i))
        decreases |l| - i
      {
        ghost var c := code;
        assert LinkAt(code, l, i);
        var _ := PatchTestReg(list, NO_REG);
        ClearedStep(old(code), c, code, l, i, head);
        assert LinkAt(code, l, i);
        list := GetJump(list, l, i);
        i := i + 1;
      }
      assert l[..i] == l;
    }

    method PatchListAux(head: int, vtarget: int, reg: int, dtarget: int, ghost l: seq<int>)
      requires JList(code, head, l) && vtarget != NO_JUMP
      requires (exists p :: p in l && !Controlled(code, p)) ==> dtarget != NO_JUMP
      modifies `code
      ensures Patched(old(code), code, Elems(l), reg, vtarget, dtarget)
    {
      var list := head;
      ghost var i := 0;
      while list != NO_JUMP
        invariant i <= |l| && list == if i < |l| then l[i] else NO_JUMP
        invariant Patched(old(code), code, Elems(l[..i]), reg, vtarget, dtarget)
        invariant i < |l| ==> LinkAt(old(code), l, i)
        decreases |l| - i
      {
        PatchRest(old(code), code, l, i, head, reg, vtarget, dtarget);
        var next := GetJump(list, l, i);
        ghost var c := code;
        var value := PatchTestReg(list, reg);
        if value {
          FixJump(list, vtarget);
        } else {
          FixJump(list, dtarget);
        }
        PatchStep(old(code), c, code, l, i, head, reg, vtarget, dtarget);
        list := next;
        i := i + 1;
      }
      assert l[..i] == l;
    }

    /** `luaK_concat`. */
    method Concat(h1: int, h2: int, ghost l1: seq<int>, ghost l2: seq<int>) returns (h: int)
      requires JList(code, h1, l1) && JList(code, h2, l2) && forall p :: p in l1 ==> p !in l2
      modifies `code
      ensures JList(code, h, l1 + l2)
      ensures |code| == |old(code)| && forall i {:trigger code[i]} :: 0 <= i < |code| ==>
        code[i] == old(code)[i] || (i in l1 && l2 != [] && code[i].Jmp? && old(code)[i].Jmp?)
    {
      assert l1 == [] ==> l1 + l2 == l2;
      assert l2 == [] ==> l1 + l2 == l1;
      assert (l1 != [] ==> LinkAt(code, l1, 0)) && (l2 != [] ==> LinkAt(code, l2, 0));
      if h2 == NO_JUMP {
        return h1;
      }
      if h1 == NO_JUMP {
        return h2;
      }
      var list := h1;
      ghost var i := 0;
      assert LinkAt(code, l1, 0);
      var next := GetJump(list, l1, 0);
      while next != NO_JUMP
        invariant i < |l1| && list == l1[i] && next == (if i + 1 < |l1| then l1[i + 1] else NO_JUMP)
        invariant code == old(code) && (i + 1 < |l1| ==> LinkAt(code, l1, i + 1))
        decreases |l1| - i
      {
        list := next;
        i := i + 1;
        assert LinkAt(code, l1, i);
        next := GetJump(list, l1, i);
      }
      JListConcat(code, h1, l1, h2, l2);
      assert LinkAt(code, l1, i) && l1[i] in l1;
      FixJump(list, h2);
      return h1;
    }
  }

  ghost predicate TestsCleared(c: seq<Instr>, c1: seq<Instr>, l: seq<int>) {
    && |c1| == |c|
    && forall i {:trigger c1[i]} :: 0 <= i < |c| ==>
      c1[i] == if i + 1 in l && c[i].TestSet? then Test(c[i].b, c[i].cond) else c[i]
  }

  lemma ClearedStep(c0: seq<Instr>, c: seq<Instr>, c1: seq<Instr>, l: seq<int>, i: nat, head: int)
    requires JList(c, head, l) && i < |l| && LinkAt(c, l, i) && TestsCleared(c0, c, l[..i])
    requires c1 == if Controlled(c, l[i]) then c[l[i] - 1 := Retarget(c[l[i] - 1], NO_REG)] else c
    ensures TestsCleared(c0, c1, l[..i + 1]) && JList(c1, head, l)
  {
    assert LinkAt(c, l, i) && l[..i + 1] == l[..i] + [l[i]];
    forall p | p in l ensures 0 <= p < |c| && c1[p] == c[p] {
      var x :| 0 <= x < |l| && l[x] == p;
      assert LinkAt(c, l, x);
    }
    JListKeep(c, c1, head, l);
  }

  /** The jumps that are still to be patched are as they were. */
  lemma PatchRest(c0: seq<Instr>, c: seq<Instr>, l: seq<int>, i: nat, head: int, reg: int, vt: int, dt: int)
    requires JList(c0, head, l) && i < |l| && Patched(c0, c, Elems(l[..i]), reg, vt, dt)
    ensures LinkAt(c, l, i) && LinkAt(c0, l, i) && (Controlled(c, l[i]) <==> Controlled(c0, l[i]))
    ensures l[i] !in Elems(l[..i])
    ensures Controlled(c0, l[i]) ==> c[l[i] - 1] == c0[l[i] - 1]
  {
    var p := l[i];
    assert LinkAt(c0, l, i) && p !in l[..i];
    assert PatchedAt(c0, c, Elems(l[..i]), reg, vt, dt, p);
    if p > 0 {
      assert PatchedAt(c0, c, Elems(l[..i]), reg, vt, dt, p - 1);
      if p - 1 in l[..i] {
        var x :| 0 <= x < i && l[x] == p - 1;
        assert LinkAt(c0, l, x);
      }
    }
  }

  lemma PatchStep(c0: seq<Instr>, c: seq<Instr>, c1: seq<Instr>, l: seq<int>, i: nat, head: int, reg: int, vt: int,
      dt: int)
    requires JList(c0, head, l) && i < |l| && LinkAt(c, l, i) && Patched(c0, c, Elems(l[..i]), reg, vt, dt)
    requires var c' := if Controlled(c, l[i]) then c[l[i] - 1 := Retarget(c[l[i] - 1], reg)] else c;
      c1 == c'[l[i] := Jmp((if Controlled(c, l[i]) then vt else dt) - l[i] - 1)]
    ensures Patched(c0, c1, Elems(l[..i + 1]), reg, vt, dt)
  {
    PatchRest(c0, c, l, i, head, reg, vt, dt);
    assert l[..i + 1] == l[..i] + [l[i]];
    var done := Elems(l[..i + 1]);
    assert done == Elems(l[..i]) + {l[i]};
    forall x | 0 <= x < |c0| ensures PatchedAt(c0, c1, done, reg, vt, dt, x) {
      assert PatchedAt(c0, c, Elems(l[..i]), reg, vt, dt, x);
    }
  }
}
