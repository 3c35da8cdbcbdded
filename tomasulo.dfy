/** The `Tomasulo` object: its tables are arrays updated in place, and its
    per-cycle phases are methods.  Each phase is proved to leave every table
    it may change equal to that table in the snapshot the matching function
    of `Machine` computes from the snapshot (`State()`) before the call. */
module Simulator {
  import opened Decoder
  import opened Machine

  class Tomasulo {
    var rs: array<Station>
    var rsNext: array<Station>
    var lb: array<LoadBuffer>
    var lbNext: array<LoadBuffer>
    var fu: array<Unit>
    var fuNext: array<Unit>
    var regState: array<int>
    var regStateNext: array<int>
    var reg: array<int>
    var pc: int
    var jumping: bool
    var jumpPc: int
    var jumpVal: int
    var insts: seq<Inst>

    /** The machine's contents as a value of `Machine.Tables`. */
    ghost function State(): Tables
      reads this, rs, rsNext, lb, lbNext, fu, fuNext, regState, regStateNext, reg
    {
      Tables(rs[..], rsNext[..], lb[..], lbNext[..], fu[..], fuNext[..],
             regState[..], regStateNext[..], reg[..], pc, jumping, jumpPc, jumpVal, insts)
    }

    /** Each table and its shadow are distinct arrays (so are the two status
        tables and the register file), and every array has its fixed size. */
    ghost predicate Valid()
      reads this
    {
      && rs != rsNext && lb != lbNext && fu != fuNext
      && regState != regStateNext && regState != reg && regStateNext != reg
      && rs.Length == RsCount && rsNext.Length == RsCount
      && lb.Length == LbCount && lbNext.Length == LbCount
      && fu.Length == FuCount && fuNext.Length == FuCount
      && regState.Length == RegCount && regStateNext.Length == RegCount
      && reg.Length == RegCount
    }

    constructor ()
      ensures Valid()
      ensures rs[..] == Initial().rs
      ensures rsNext[..] == Initial().rsNext
      ensures lb[..] == Initial().lb
      ensures lbNext[..] == Initial().lbNext
      ensures fu[..] == Initial().fu
      ensures fuNext[..] == Initial().fuNext
      ensures regState[..] == Initial().regState
      ensures regStateNext[..] == Initial().regStateNext
      ensures reg[..] == Initial().reg
      ensures pc == 0 && !jumping && jumpPc == 0 && jumpVal == 0 && insts == []
    {
      rs := new Station[RsCount](_ => Station(false, 0, 0, 0, 0, 0));
      rsNext := new Station[RsCount](_ => Station(false, 0, 0, 0, 0, 0));
      lb := new LoadBuffer[LbCount](_ => LoadBuffer(false, 0));
      lbNext := new LoadBuffer[LbCount](_ => LoadBuffer(false, 0));
      fu := new Unit[FuCount](_ => Unit(0, 0));
      fuNext := new Unit[FuCount](_ => Unit(0, 0));
      regState := new int[RegCount](_ => 0);
      regStateNext := new int[RegCount](_ => 0);
      reg := new int[RegCount](_ => 0);
      pc := 0;
      jumping := false;
      jumpPc := 0;
      jumpVal := 0;
      insts := [];
    }

    /** `copy`: the shadow stations and load buffers become copies of the
        current ones, and the first 3 units and 8 register statuses too. */
    method Copy()
      requires Valid()
      modifies rsNext, lbNext, fuNext, regStateNext
      ensures Valid()
      ensures rsNext[..] == CopyStep(old(State())).rsNext
      ensures lbNext[..] == CopyStep(old(State())).lbNext
      ensures fuNext[..] == CopyStep(old(State())).fuNext
      ensures regStateNext[..] == CopyStep(old(State())).regStateNext
    {
      forall j | 0 <= j < RsCount {
        rsNext[j] := rs[j];
      }
      forall j | 0 <= j < LbCount {
        lbNext[j] := lb[j];
      }
      forall j | 0 <= j < FuCopied {
        fuNext[j] := fu[j];
      }
      forall j | 0 <= j < RegStateCopied {
        regStateNext[j] := regState[j];
      }
      assert fuNext[..] == old(fu[..])[..FuCopied] + old(fuNext[..])[FuCopied..];
      assert regStateNext[..] == old(regState[..])[..RegStateCopied] + old(regStateNext[..])[RegStateCopied..];
    }

    /** `sync`: each table trades places with its shadow. */
    method Sync()
      requires Valid()
      modifies this`rs, this`rsNext, this`lb, this`lbNext, this`fu, this`fuNext,
               this`regState, this`regStateNext
      ensures Valid()
      ensures rs[..] == SyncStep(old(State())).rs
      ensures rsNext[..] == SyncStep(old(State())).rsNext
      ensures lb[..] == SyncStep(old(State())).lb
      ensures lbNext[..] == SyncStep(old(State())).lbNext
      ensures fu[..] == SyncStep(old(State())).fu
      ensures fuNext[..] == SyncStep(old(State())).fuNext
      ensures regState[..] == SyncStep(old(State())).regState
      ensures regStateNext[..] == SyncStep(old(State())).regStateNext
    {
      rs, rsNext := rsNext, rs;
      lb, lbNext := lbNext, lb;
      fu, fuNext := fuNext, fu;
      regState, regStateNext := regStateNext, regState;
    }

    /** The countdown: every shadow unit with cycles left loses one. */
    method CountDown()
      requires Valid()
      modifies fuNext
      ensures Valid()
      ensures fuNext[..] == CountDownStep(old(State())).fuNext
    {
      var i := 0;
      while i < FuCount
        invariant 0 <= i <= FuCount
        invariant forall j :: 0 <= j < i ==> fuNext[j] == Tick(old(fuNext[j]))
        invariant forall j :: i <= j < FuCount ==> fuNext[j] == old(fuNext[j])
      {
        if fuNext[i].count > 0 {
          fuNext[i] := fuNext[i].(count := fuNext[i].count - 1);
        }
        i := i + 1;
      }
      assert fuNext[..] == Ticked(old(fuNext[..]));
    }

    /** The lowest station in `[lo, hi)` of the current table that is not busy. */
    method FindFreeRs(lo: int, hi: int) returns (i: int, found: bool)
      requires 0 <= lo <= hi <= rs.Length
      ensures i == FreeRs(rs[..], lo, hi) && found == (i < hi)
    {
      found := false;
      i := lo;
      while i < hi
        invariant lo <= i <= hi
        invariant FreeRs(rs[..], i, hi) == FreeRs(rs[..], lo, hi)
      {
        if !rs[i].busy {
          found := true;
          break;
        }
        i := i + 1;
      }
    }

    /** The lowest load buffer of the current table that is not busy. */
    method FindFreeLb() returns (i: int, found: bool)
      requires lb.Length == LbCount
      ensures i == FreeLb(lb[..], 0, LbCount) && found == (i < LbCount)
    {
      found := false;
      i := 0;
      while i < LbCount
        invariant 0 <= i <= LbCount
        invariant FreeLb(lb[..], i, LbCount) == FreeLb(lb[..], 0, LbCount)
      {
        if !lb[i].busy {
          found := true;
          break;
        }
        i := i + 1;
      }
    }

    /** The lowest unit in `[lo, hi)` of the current unit table with no cycles left. */
    method FindIdleFu(lo: int, hi: int) returns (i: int, found: bool)
      requires 0 <= lo <= hi <= fu.Length
      ensures i == IdleFu(fu[..], lo, hi) && found == (i < hi)
    {
      found := false;
      i := lo;
      while i < hi
        invariant lo <= i <= hi
        invariant IdleFu(fu[..], i, hi) == IdleFu(fu[..], lo, hi)
      {
        if fu[i].count == 0 {
          found := true;
          break;
        }
        i := i + 1;
      }
    }

    /** The issue phase for the command at `pc`, which the program supplies. */
    method Issue(prog: seq<Command>)
      requires Valid() && 0 <= pc < |prog| && IssueDefined(State(), prog)
      modifies this`pc, this`jumping, this`jumpPc, this`jumpVal, this`insts,
               rsNext, lbNext, regStateNext
      ensures Valid()
      ensures rsNext[..] == IssueStep(old(State()), prog).rsNext
      ensures lbNext[..] == IssueStep(old(State()), prog).lbNext
      ensures regStateNext[..] == IssueStep(old(State()), prog).regStateNext
      ensures pc == IssueStep(old(State()), prog).pc && insts == IssueStep(old(State()), prog).insts
      ensures jumping == IssueStep(old(State()), prog).jumping && jumpPc == IssueStep(old(State()), prog).jumpPc && jumpVal == IssueStep(old(State()), prog).jumpVal
    {
      if jumping {
        return;
      }
      var cmd := prog[pc];
      match cmd.kind {
        case Add => IssueToRs(prog, 0, 6, OpAddMul);
        case Sub => IssueToRs(prog, 0, 6, OpSubDiv);
        case Mul => IssueToRs(prog, 6, 9, OpAddMul);
        case Div => IssueToRs(prog, 6, 9, OpSubDiv);
        case Load => IssueToLb(prog);
        case Jump => IssueJumpToRs(prog);
      }
    }

    /** Issue of an arithmetic command to the lowest free station in `[lo, hi)`. */
    method IssueToRs(prog: seq<Command>, lo: int, hi: int, op: int)
      requires Valid() && 0 <= pc < |prog| && IssueDefined(State(), prog)
      requires !jumping && prog[pc].kind != Load && prog[pc].kind != Jump
      requires lo == RsLo(prog[pc].kind) && hi == RsHi(prog[pc].kind) && op == OpOf(prog[pc].kind)
      modifies this`pc, this`jumping, this`jumpPc, this`jumpVal, this`insts,
               rsNext, lbNext, regStateNext
      ensures rsNext[..] == IssueStep(old(State()), prog).rsNext
      ensures lbNext[..] == IssueStep(old(State()), prog).lbNext
      ensures regStateNext[..] == IssueStep(old(State()), prog).regStateNext
      ensures pc == IssueStep(old(State()), prog).pc && insts == IssueStep(old(State()), prog).insts
      ensures jumping == IssueStep(old(State()), prog).jumping && jumpPc == IssueStep(old(State()), prog).jumpPc && jumpVal == IssueStep(old(State()), prog).jumpVal
    {
      var cmd := prog[pc];
      var i, found := FindFreeRs(lo, hi);
      if found {
        insts := insts + [Inst(Issued, pc, i, -1)];
        pc := pc + 1;
        var r := rsNext[i].(busy := true, op := op);
        if regState[cmd.op1] < 0 {
          r := r.(vj := reg[cmd.op1], qj := 0);
        } else {
          r := r.(qj := regState[cmd.op1]);
        }
        if regState[cmd.op2] < 0 {
          r := r.(vj := reg[cmd.op2], qj := 0);
        } else {
          r := r.(qj := regState[cmd.op2]);
        }
        rsNext[i] := r;
        regStateNext[cmd.op0] := i;
      }
    }

    /** Issue of a load to the lowest free load buffer. */
    method IssueToLb(prog: seq<Command>)
      requires Valid() && 0 <= pc < |prog| && IssueDefined(State(), prog)
      requires !jumping && prog[pc].kind == Load
      modifies this`pc, this`jumping, this`jumpPc, this`jumpVal, this`insts,
               rsNext, lbNext, regStateNext
      ensures rsNext[..] == IssueStep(old(State()), prog).rsNext
      ensures lbNext[..] == IssueStep(old(State()), prog).lbNext
      ensures regStateNext[..] == IssueStep(old(State()), prog).regStateNext
      ensures pc == IssueStep(old(State()), prog).pc && insts == IssueStep(old(State()), prog).insts
      ensures jumping == IssueStep(old(State()), prog).jumping && jumpPc == IssueStep(old(State()), prog).jumpPc && jumpVal == IssueStep(old(State()), prog).jumpVal
    {
      var cmd := prog[pc];
      var i, found := FindFreeLb();
      if found {
        insts := insts + [Inst(Issued, pc, i, -1)];
        pc := pc + 1;
        lbNext[i] := lbNext[i].(busy := true, addr := cmd.op1);
        regStateNext[cmd.op0] := i;
      }
    }

    /** Issue of a jump to the lowest free station in 0..5: the jump becomes
        pending and `pc` stays. */
    method IssueJumpToRs(prog: seq<Command>)
      requires Valid() && 0 <= pc < |prog| && IssueDefined(State(), prog)
      requires !jumping && prog[pc].kind == Jump
      modifies this`pc, this`jumping, this`jumpPc, this`jumpVal, this`insts,
               rsNext, lbNext, regStateNext
      ensures rsNext[..] == IssueStep(old(State()), prog).rsNext
      ensures lbNext[..] == IssueStep(old(State()), prog).lbNext
      ensures regStateNext[..] == IssueStep(old(State()), prog).regStateNext
      ensures pc == IssueStep(old(State()), prog).pc && insts == IssueStep(old(State()), prog).insts
      ensures jumping == IssueStep(old(State()), prog).jumping && jumpPc == IssueStep(old(State()), prog).jumpPc && jumpVal == IssueStep(old(State()), prog).jumpVal
    {
      var cmd := prog[pc];
      var i, found := FindFreeRs(0, 6);
      if found {
        insts := insts + [Inst(Issued, pc, i, -1)];
        jumping := true;
        jumpPc := cmd.op2;
        jumpVal := cmd.op0;
        var r := rsNext[i].(busy := true, op := OpJump);
        if regState[cmd.op1] < 0 {
          r := r.(vj := reg[cmd.op1], qj := 0);
        } else {
          r := r.(qj := regState[cmd.op1]);
        }
        rsNext[i] := r;
        regStateNext[cmd.op0] := i;
      }
    }

    /** The dispatch phase for in-flight instruction `k`, whose command the
        program supplies. */
    method Dispatch(prog: seq<Command>, k: int)
      requires Valid() && Inv(State()) && 0 <= k < |insts| && DispatchDefined(State(), prog, k)
      modifies this`insts, fuNext
      ensures Valid()
      ensures fuNext[..] == DispatchStep(old(State()), prog, k).fuNext
      ensures insts == DispatchStep(old(State()), prog, k).insts
    {
      var p := insts[k];
      if p.state != Issued {
        return;
      }
      var kind := prog[p.id].kind;
      var r := rs[p.rsId];
      if kind == Load || (r.qj == 0 && r.qk == 0) {
        var count := 3;
        var lo, hi := 0, 3;
        if kind == Mul || kind == Div {
          count := if kind == Div && r.vk == 0 then 1 else 4;
          lo, hi := 4, 6;
        } else if kind == Load {
          lo, hi := 6, 7;
        }
        var i, found := FindIdleFu(lo, hi);
        if found {
          fuNext[i] := Unit(p.id, count);
          insts := insts[k := p.(state := Executing, fuId := i)];
        }
      }
    }
  }
}
