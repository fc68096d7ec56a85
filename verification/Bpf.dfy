/** Classic BPF as the capture filters use it: an interpreter of resolved programs, an interpreter
    of labelled programs, and the two-pass assembler between them (cf_bpf.c). */
module Bpf {
  import opened Bytes

  const MAX_INSNS := 96
  const MAX_FIXUPS := 96
  const MAX_LABELS := 32
  const FALLTHROUGH := -1

  /** The instruction codes the emitters use. */
  datatype Code =
    | LdHAbs    // BPF_LD | BPF_H | BPF_ABS
    | LdBAbs    // BPF_LD | BPF_B | BPF_ABS
    | LdHInd    // BPF_LD | BPF_H | BPF_IND
    | LdxMsh    // BPF_LDX | BPF_B | BPF_MSH
    | LdxImm    // BPF_LDX | BPF_IMM
    | Jeq       // BPF_JMP | BPF_JEQ | BPF_K
    | Jset      // BPF_JMP | BPF_JSET | BPF_K
    | Ret       // BPF_RET | BPF_K

  /** A resolved instruction: jt and jf are relative to the next instruction. */
  datatype Insn = Insn(code: Code, jt: byte, jf: byte, k: u32)

  /** A labelled instruction: targets are label ids or FALLTHROUGH. */
  datatype LInsn = LInsn(code: Code, k: u32, jt: int, jf: int)

  datatype Outcome = Returned(value: u32) | RanOff

  datatype Effect = Next(a: nat, x: nat) | Branch(taken: bool) | Done(value: u32)

  function BitAnd(a: nat, b: nat): (r: nat)
    decreases a
  {
    if a == 0 || b == 0 then 0 else (a % 2) * (b % 2) + 2 * BitAnd(a / 2, b / 2)
  }

  /** What one instruction does to the registers; a load outside the packet rejects it. */
  function Execute(code: Code, k: u32, pkt: seq<byte>, a: nat, x: nat): Effect {
    match code
    case LdHAbs => if k + 2 <= |pkt| then Next(Be16(pkt, k), x) else Done(0)
    case LdBAbs => if k < |pkt| then Next(pkt[k], x) else Done(0)
    case LdHInd => var off := (x + k) % 0x1_0000_0000;
                   if off + 2 <= |pkt| then Next(Be16(pkt, off), x) else Done(0)
    case LdxMsh => if k < |pkt| then Next(a, 4 * (pkt[k] % 16)) else Done(0)
    case LdxImm => Next(a, k)
    case Jeq => Branch(a == k)
    case Jset => Branch(BitAnd(a, k) != 0)
    case Ret => Done(k)
  }

  /** The kernel's interpreter: jumps only go forward, so the program counter always increases. */
  function Run(prog: seq<Insn>, pkt: seq<byte>, pc: nat, a: nat, x: nat): (r: Outcome)
    decreases |prog| - pc
  {
    if pc >= |prog| then RanOff
    else match Execute(prog[pc].code, prog[pc].k, pkt, a, x)
      case Next(a', x') => Run(prog, pkt, pc + 1, a', x')
      case Branch(taken) => Run(prog, pkt, pc + 1 + (if taken then prog[pc].jt else prog[pc].jf), a, x)
      case Done(v) => Returned(v)
  }

  /** Where a labelled jump at pc goes; negative when the label is unusable. */
  function Target(labels: seq<int>, pc: nat, lab: int): (t: int) {
    if lab == FALLTHROUGH then pc + 1
    else if 0 <= lab < |labels| then labels[lab]
    else -1
  }

  /** The labelled program, jumping to absolute label positions: None when the step budget runs
      out or a label was never placed. */
  function RunLabelled(src: seq<LInsn>, labels: seq<int>, pkt: seq<byte>, pc: nat, a: nat, x: nat, steps: nat): (r: MaybeOutcome)
    decreases steps
  {
    if steps == 0 then None
    else if pc >= |src| then Some(RanOff)
    else match Execute(src[pc].code, src[pc].k, pkt, a, x)
      case Next(a', x') => RunLabelled(src, labels, pkt, pc + 1, a', x', steps - 1)
      case Branch(taken) =>
        var t := Target(labels, pc, if taken then src[pc].jt else src[pc].jf);
        if t < 0 then None else RunLabelled(src, labels, pkt, t, a, x, steps - 1)
      case Done(v) => Some(Returned(v))
  }

  datatype MaybeOutcome = None | Some(o: Outcome)

  // ---------------------------------------------------------------- resolution

  datatype Fixup = Fixup(insn: nat, isJt: bool, lab: int)

  /** A label placed ahead of the jump at i, within reach of an 8-bit offset. */
  predicate TargetOk(labels: seq<int>, i: nat, lab: int) {
    0 <= lab < |labels| && labels[lab] >= 0 && 0 <= labels[lab] - (i + 1) <= 255
  }

  predicate OperandOk(labels: seq<int>, i: nat, lab: int) {
    lab == FALLTHROUGH || TargetOk(labels, i, lab)
  }

  ghost predicate Resolvable(src: seq<LInsn>, labels: seq<int>) {
    forall i :: 0 <= i < |src| ==> OperandOk(labels, i, src[i].jt) && OperandOk(labels, i, src[i].jf)
  }

  function Offset(labels: seq<int>, i: nat, lab: int): (d: byte) {
    if TargetOk(labels, i, lab) then labels[lab] - (i + 1) else 0
  }

  function ResolveOne(labels: seq<int>, i: nat, s: LInsn): (r: Insn) {
    Insn(s.code, Offset(labels, i, s.jt), Offset(labels, i, s.jf), s.k)
  }

  function Resolve(src: seq<LInsn>, labels: seq<int>): (r: seq<Insn>)
    ensures |r| == |src|
  {
    seq(|src|, i requires 0 <= i < |src| => ResolveOne(labels, i, src[i]))
  }

  /** Resolving labels preserves meaning: the relative program returns what the labelled one does,
      and the labelled one always terminates. */
  lemma {:induction false} ResolutionPreservesMeaning(src: seq<LInsn>, labels: seq<int>, pkt: seq<byte>, pc: nat, a: nat, x: nat, steps: nat)
    requires Resolvable(src, labels) && steps > |src| - pc && steps > 0
    ensures RunLabelled(src, labels, pkt, pc, a, x, steps) == Some(Run(Resolve(src, labels), pkt, pc, a, x))
    decreases steps
  {
    if pc < |src| {
      match Execute(src[pc].code, src[pc].k, pkt, a, x) {
        case Next(a', x') => ResolutionPreservesMeaning(src, labels, pkt, pc + 1, a', x', steps - 1);
        case Branch(taken) =>
          var lab := if taken then src[pc].jt else src[pc].jf;
          var t := Target(labels, pc, lab);
          assert OperandOk(labels, pc, lab);
          assert t == pc + 1 + Offset(labels, pc, lab);
          ResolutionPreservesMeaning(src, labels, pkt, t, a, x, steps - 1);
        case Done(v) =>
      }
    }
  }

  /** An unresolved program: every offset is still zero. */
  function Raw(src: seq<LInsn>): (r: seq<Insn>)
    ensures |r| == |src|
  {
    seq(|src|, i requires 0 <= i < |src| => Insn(src[i].code, 0, 0, src[i].k))
  }

  function FixupsAt(i: nat, s: LInsn): (f: seq<Fixup>) {
    (if s.jt == FALLTHROUGH then [] else [Fixup(i, true, s.jt)])
    + (if s.jf == FALLTHROUGH then [] else [Fixup(i, false, s.jf)])
  }

  function FixupsOf(src: seq<LInsn>): (f: seq<Fixup>)
    ensures forall j :: 0 <= j < |f| ==> f[j].insn < |src|
  {
    if src == [] then []
    else FixupsOf(src[..|src| - 1]) + FixupsAt(|src| - 1, src[|src| - 1])
  }

  function PatchOne(p: seq<Insn>, f: Fixup, labels: seq<int>): (r: seq<Insn>)
    requires f.insn < |p|
    ensures |r| == |p|
  {
    var d := Offset(labels, f.insn, f.lab);
    p[f.insn := if f.isJt then p[f.insn].(jt := d) else p[f.insn].(jf := d)]
  }

  function Patch(p: seq<Insn>, fs: seq<Fixup>, labels: seq<int>): (r: seq<Insn>)
    requires forall j :: 0 <= j < |fs| ==> fs[j].insn < |p|
    ensures |r| == |p|
  {
    if fs == [] then p
    else PatchOne(Patch(p, fs[..|fs| - 1], labels), fs[|fs| - 1], labels)
  }

  lemma {:induction false} PatchIgnoresTail(p: seq<Insn>, last: Insn, fs: seq<Fixup>, labels: seq<int>)
    requires forall j :: 0 <= j < |fs| ==> fs[j].insn < |p|
    ensures Patch(p + [last], fs, labels) == Patch(p, fs, labels) + [last]
  {
    if fs != [] {
      PatchIgnoresTail(p, last, fs[..|fs| - 1], labels);
    }
  }

  lemma PatchAppend(p: seq<Insn>, fs: seq<Fixup>, f: Fixup, labels: seq<int>)
    requires (forall j :: 0 <= j < |fs| ==> fs[j].insn < |p|) && f.insn < |p|
    ensures Patch(p, fs + [f], labels) == PatchOne(Patch(p, fs, labels), f, labels)
  {
    assert (fs + [f])[..|fs|] == fs;
  }

  /** Patching the fixups of the last instruction resolves it. */
  lemma {:induction false} PatchLast(p: seq<Insn>, s: LInsn, fs: seq<Fixup>, labels: seq<int>)
    requires forall j :: 0 <= j < |fs| ==> fs[j].insn < |p|
    requires OperandOk(labels, |p|, s.jt) && OperandOk(labels, |p|, s.jf)
    ensures var raw := Insn(s.code, 0, 0, s.k);
            Patch(p + [raw], fs + FixupsAt(|p|, s), labels) == Patch(p, fs, labels) + [ResolveOne(labels, |p|, s)]
  {
    var n := |p|;
    var raw := Insn(s.code, 0, 0, s.k);
    PatchIgnoresTail(p, raw, fs, labels);
    var jt, jf := Fixup(n, true, s.jt), Fixup(n, false, s.jf);
    if s.jt == FALLTHROUGH && s.jf == FALLTHROUGH {
      assert fs + FixupsAt(n, s) == fs;
    } else if s.jf == FALLTHROUGH {
      assert fs + FixupsAt(n, s) == fs + [jt];
      PatchAppend(p + [raw], fs, jt, labels);
    } else if s.jt == FALLTHROUGH {
      assert fs + FixupsAt(n, s) == fs + [jf];
      PatchAppend(p + [raw], fs, jf, labels);
    } else {
      assert fs + FixupsAt(n, s) == fs + [jt] + [jf];
      PatchAppend(p + [raw], fs, jt, labels);
      PatchAppend(p + [raw], fs + [jt], jf, labels);
    }
  }

  lemma ResolvablePrefix(src: seq<LInsn>, labels: seq<int>)
    requires src != []
    ensures var n := |src| - 1;
            Resolvable(src, labels) <==>
            Resolvable(src[..n], labels) && OperandOk(labels, n, src[n].jt) && OperandOk(labels, n, src[n].jf)
  {
    var n := |src| - 1;
    assert forall i :: 0 <= i < n ==> src[..n][i] == src[i];
  }

  /** Patching every fixup in the order it was recorded resolves the whole program. */
  lemma {:induction false} PatchResolves(src: seq<LInsn>, labels: seq<int>)
    requires Resolvable(src, labels)
    ensures Patch(Raw(src), FixupsOf(src), labels) == Resolve(src, labels)
  {
    if src != [] {
      var n := |src| - 1;
      var pre, last := src[..n], src[n];
      ResolvablePrefix(src, labels);
      PatchResolves(pre, labels);
      assert Raw(src) == Raw(pre) + [Insn(last.code, 0, 0, last.k)];
      PatchLast(Raw(pre), last, FixupsOf(pre), labels);
      assert Resolve(src, labels) == Resolve(pre, labels) + [ResolveOne(labels, n, last)];
    }
  }

  ghost predicate AllOk(fs: seq<Fixup>, labels: seq<int>) {
    forall j :: 0 <= j < |fs| ==> TargetOk(labels, fs[j].insn, fs[j].lab)
  }

  lemma AllOkConcat(f: seq<Fixup>, g: seq<Fixup>, labels: seq<int>)
    ensures AllOk(f + g, labels) <==> AllOk(f, labels) && AllOk(g, labels)
  {
    assert forall j :: 0 <= j < |g| ==> (f + g)[|f| + j] == g[j];
    assert forall j :: 0 <= j < |f| ==> (f + g)[j] == f[j];
  }

  lemma AllOkAt(i: nat, s: LInsn, labels: seq<int>)
    ensures AllOk(FixupsAt(i, s), labels) <==> OperandOk(labels, i, s.jt) && OperandOk(labels, i, s.jf)
  {
    var g := FixupsAt(i, s);
    if s.jt != FALLTHROUGH { assert g[0] == Fixup(i, true, s.jt); }
    if s.jf != FALLTHROUGH { assert g[|g| - 1] == Fixup(i, false, s.jf); }
  }

  lemma {:induction false} FixupsOkIffResolvable(src: seq<LInsn>, labels: seq<int>)
    ensures Resolvable(src, labels) <==> AllOk(FixupsOf(src), labels)
  {
    if src != [] {
      var n := |src| - 1;
      FixupsOkIffResolvable(src[..n], labels);
      ResolvablePrefix(src, labels);
      AllOkConcat(FixupsOf(src[..n]), FixupsAt(n, src[n]), labels);
      AllOkAt(n, src[n], labels);
    }
  }

  // ---------------------------------------------------------------- the assembler

  lemma PatchNothing(p: seq<Insn>, labels: seq<int>)
    ensures Patch(p, [], labels) == p
  {
  }

  class Assembler {
    const insns: array<Insn>
    var n: nat
    const labelPos: array<int>
    const fixups: array<Fixup>
    var nFixups: nat
    var error: bool
    ghost var src: seq<LInsn>   // the labelled program emitted so far

    ghost predicate Sized()
      reads this
    {
      && insns.Length == MAX_INSNS && labelPos.Length == MAX_LABELS && fixups.Length == MAX_FIXUPS
      && n <= MAX_INSNS && nFixups <= MAX_FIXUPS
    }

    /** Until an error or a call of Finish, the arrays hold the first pass over src. */
    ghost predicate Valid()
      reads this, insns, fixups
    {
      && Sized()
      && (!error ==> insns[..n] == Raw(src) && fixups[..nFixups] == FixupsOf(src))
    }

    constructor ()
      ensures Valid() && !error && src == [] && n == 0 && nFixups == 0
      ensures labelPos[..] == seq(MAX_LABELS, _ => -1)
      ensures fresh(insns) && fresh(labelPos) && fresh(fixups)
    {
      insns := new Insn[MAX_INSNS](_ => Insn(LdHAbs, 0, 0, 0));
      labelPos := new int[MAX_LABELS](_ => 0);
      fixups := new Fixup[MAX_FIXUPS](_ => Fixup(0, false, 0));
      n, nFixups, error := 0, 0, false;
      src := [];
      new;
      for i := 0 to MAX_LABELS
        modifies labelPos
        invariant forall j :: 0 <= j < i ==> labelPos[j] == -1
      {
        labelPos[i] := -1;
      }
    }

    /** Marks the current position as label; the last mark of a label wins. */
    method Label(lab: int)
      requires Valid()
      modifies this`error, labelPos
      ensures Valid() && (error <==> old(error) || !(0 <= lab < MAX_LABELS))
      ensures labelPos[..] == if 0 <= lab < MAX_LABELS then old(labelPos[..])[lab := n] else old(labelPos[..])
    {
      if lab < 0 || lab >= MAX_LABELS {
        error := true;
        return;
      }
      labelPos[lab] := n;
    }

    method Stmt(code: Code, k: u32)
      requires Valid()
      modifies this`n, this`error, this`src, insns
      ensures Valid() && (error <==> old(error) || old(n) >= MAX_INSNS)
      ensures !error ==> n == old(n) + 1 && src == old(src) + [LInsn(code, k, FALLTHROUGH, FALLTHROUGH)]
    {
      if n >= MAX_INSNS {
        error := true;
        return;
      }
      insns[n] := Insn(code, 0, 0, k);
      n := n + 1;
      src := src + [LInsn(code, k, FALLTHROUGH, FALLTHROUGH)];
      assert src[..|src| - 1] == old(src);
    }

    method Jump(code: Code, k: u32, jtLabel: int, jfLabel: int)
      requires Valid()
      modifies this`n, this`nFixups, this`error, this`src, insns, fixups
      ensures Valid()
      ensures error <==> old(error) || old(n) >= MAX_INSNS
                         || old(nFixups) + |FixupsAt(old(n), LInsn(code, k, jtLabel, jfLabel))| > MAX_FIXUPS
      ensures !error ==> n == old(n) + 1 && src == old(src) + [LInsn(code, k, jtLabel, jfLabel)]
      ensures !error ==> nFixups == old(nFixups) + |FixupsAt(old(n), LInsn(code, k, jtLabel, jfLabel))|
    {
      if n >= MAX_INSNS {
        error := true;
        return;
      }
      var idx := n;
      insns[idx] := Insn(code, 0, 0, k);
      n := n + 1;
      src := src + [LInsn(code, k, jtLabel, jfLabel)];
      assert src[..|src| - 1] == old(src);
      if jtLabel != FALLTHROUGH {
        if nFixups >= MAX_FIXUPS {
          error := true;
          return;
        }
        fixups[nFixups] := Fixup(idx, true, jtLabel);
        nFixups := nFixups + 1;
      }
      if jfLabel != FALLTHROUGH {
        if nFixups >= MAX_FIXUPS {
          error := true;
          return;
        }
        fixups[nFixups] := Fixup(idx, false, jfLabel);
        nFixups := nFixups + 1;
      }
    }

    /** The second pass: 0 exactly when no call failed and every label is placed ahead of each of its
        jumps and within reach, and then the program is resolved in place. */
    method Finish() returns (rc: int)
      requires Valid()
      modifies insns
      ensures rc == 0 || rc == -1
      ensures rc == 0 <==> !error && Resolvable(src, labelPos[..])
      ensures rc == 0 ==> insns[..n] == Resolve(src, labelPos[..])
    {
      hide Patch;
      hide Resolve;
      hide Resolvable;
      if error {
        return -1;
      }
      ghost var labels, fs := labelPos[..], fixups[..nFixups];
      FixupsOkIffResolvable(src, labels);
      assert fs[..0] == [];
      PatchNothing(Raw(src), labels);
      for i := 0 to nFixups
        invariant fixups[..nFixups] == fs && labelPos[..] == labels
        invariant AllOk(fs[..i], labels)
        invariant insns[..n] == Patch(Raw(src), fs[..i], labels)
      {
        assert fixups[i] == fs[i];
        assert AllOk(fs, labels) ==> TargetOk(labels, fs[i].insn, fs[i].lab);
        var insn, lab := fixups[i].insn, fixups[i].lab;
        if lab < 0 || lab >= MAX_LABELS {
          assert !AllOk(fs, labels);
          return -1;
        }
        var target := labelPos[lab];
        assert target == labels[lab];
        if target < 0 {
          assert !AllOk(fs, labels);
          return -1;
        }
        var delta := target - (insn + 1);
        if delta < 0 || delta > 255 {
          assert !AllOk(fs, labels);
          return -1;
        }
        assert fs[..i + 1] == fs[..i] + [fs[i]];
        PatchAppend(Raw(src), fs[..i], fs[i], labels);
        if fixups[i].isJt {
          insns[insn] := insns[insn].(jt := delta);
        } else {
          insns[insn] := insns[insn].(jf := delta);
        }
      }
      assert fs[..nFixups] == fs;
      PatchResolves(src, labels);
      return 0;
    }
  }
}
