/** The tables of the Tomasulo scheduler and one step of each of its per-cycle
    phases, as functions on a snapshot of the whole machine.  The class in
    `Simulator` updates the tables in place and is proved to move from one
    snapshot to the next exactly as these functions say; the lemmas here state
    what each phase promises. */
module Machine {
  import opened Decoder

  const RsCount := 9
  const LbCount := 3
  const FuCount := 7
  const RegCount := 32
  /** `copy` moves `32 * sizeof(bool)` bytes of the `int` register status
      table: with a 4-byte `int` that is its first 8 entries. */
  const RegStateCopied := 8
  /** `copy` moves the first 3 of the 7 function units. */
  const FuCopied := 3

  /** The `op` a reservation station records. */
  const OpAddMul := 0
  const OpSubDiv := 1
  const OpJump := 2

  /** A reservation station: `qj`/`qk` name the station producing an operand,
      0 meaning ready (or not needed). */
  datatype Station = Station(busy: bool, op: int, vj: int, vk: int, qj: int, qk: int)

  datatype LoadBuffer = LoadBuffer(busy: bool, addr: int)

  /** A function unit: the instruction it runs and the cycles it has left. */
  datatype Unit = Unit(id: int, count: int)

  datatype Phase = Pending | Issued | Executing | Executed | Written

  /** An in-flight instruction: its position in the program, the station (or
      load buffer) it was issued to, and the unit it runs on (-1 for none). */
  datatype Inst = Inst(state: Phase, id: int, rsId: int, fuId: int)

  /** Everything the per-cycle phases read or write: each table and its
      shadow copy (the `Next` one, which the phases write), the register file,
      the program counter, the pending jump and the in-flight list. */
  datatype Tables = Tables(
    rs: seq<Station>, rsNext: seq<Station>,
    lb: seq<LoadBuffer>, lbNext: seq<LoadBuffer>,
    fu: seq<Unit>, fuNext: seq<Unit>,
    regState: seq<int>, regStateNext: seq<int>,
    reg: seq<int>,
    pc: int, jumping: bool, jumpPc: int, jumpVal: int,
    insts: seq<Inst>)

  predicate Shaped(m: Tables) {
    && |m.rs| == RsCount && |m.rsNext| == RsCount
    && |m.lb| == LbCount && |m.lbNext| == LbCount
    && |m.fu| == FuCount && |m.fuNext| == FuCount
    && |m.regState| == RegCount && |m.regStateNext| == RegCount
    && |m.reg| == RegCount
  }

  predicate CountsNonNegative(fu: seq<Unit>) {
    forall j :: 0 <= j < |fu| ==> fu[j].count >= 0
  }

  /** An in-flight instruction as issue and dispatch leave it. */
  predicate WellFormed(x: Inst, pc: int) {
    && 0 <= x.id <= pc
    && 0 <= x.rsId < RsCount
    && ((x.state == Issued && x.fuId == -1) || (x.state == Executing && 0 <= x.fuId < FuCount))
  }

  /** What every phase keeps: the table sizes, no negative cycle count, and
      well-formed in-flight instructions issued at or before `pc`. */
  predicate Inv(m: Tables) {
    && Shaped(m) && 0 <= m.pc
    && CountsNonNegative(m.fu) && CountsNonNegative(m.fuNext)
    && forall k :: 0 <= k < |m.insts| ==> WellFormed(m.insts[k], m.pc)
  }

  /** The machine as the constructor leaves it: every table zeroed. */
  function Initial(): Tables {
    var st := seq(RsCount, _ => Station(false, 0, 0, 0, 0, 0));
    var lb := seq(LbCount, _ => LoadBuffer(false, 0));
    var fu := seq(FuCount, _ => Unit(0, 0));
    var zeros := seq(RegCount, _ => 0);
    Tables(st, st, lb, lb, fu, fu, zeros, zeros, zeros, 0, false, 0, 0, [])
  }

  lemma InitialInv()
    ensures Inv(Initial())
    ensures forall k :: 0 <= k < RegCount ==> Initial().regState[k] == 0
  {
  }

  // ---------------------------------------------------------------------
  // Slot searches
  // ---------------------------------------------------------------------

  /** The lowest station in `[lo, hi)` that is not busy, or `hi` if none is. */
  function FreeRs(rs: seq<Station>, lo: int, hi: int): (i: int)
    requires 0 <= lo <= hi <= |rs|
    ensures lo <= i <= hi
    ensures i < hi ==> !rs[i].busy
    ensures forall j :: lo <= j < i ==> rs[j].busy
    decreases hi - lo
  {
    if lo == hi then hi else if !rs[lo].busy then lo else FreeRs(rs, lo + 1, hi)
  }

  /** The lowest load buffer in `[lo, hi)` that is not busy, or `hi`.  The
      same search as `FreeRs`, over the load-buffer table: the simulator
      scans the two tables in separate loops over separate record types. */
  function FreeLb(lb: seq<LoadBuffer>, lo: int, hi: int): (i: int)
    requires 0 <= lo <= hi <= |lb|
    ensures lo <= i <= hi
    ensures i < hi ==> !lb[i].busy
    ensures forall j :: lo <= j < i ==> lb[j].busy
    decreases hi - lo
  {
    if lo == hi then hi else if !lb[lo].busy then lo else FreeLb(lb, lo + 1, hi)
  }

  /** The lowest unit in `[lo, hi)` with no cycles left, or `hi`. */
  function IdleFu(fu: seq<Unit>, lo: int, hi: int): (i: int)
    requires 0 <= lo <= hi <= |fu|
    ensures lo <= i <= hi
    ensures i < hi ==> fu[i].count == 0
    ensures forall j :: lo <= j < i ==> fu[j].count != 0
    decreases hi - lo
  {
    if lo == hi then hi else if fu[lo].count == 0 then lo else IdleFu(fu, lo + 1, hi)
  }

  // ---------------------------------------------------------------------
  // Issue
  // ---------------------------------------------------------------------

  /** The stations an opcode issues to: 0..5 for add, sub and jump, 6..8 for
      mul and div (a load goes to a load buffer instead). */
  function RsLo(k: Opcode): int {
    if k == Mul || k == Div then 6 else 0
  }

  function RsHi(k: Opcode): int {
    if k == Mul || k == Div then 9 else 6
  }

  /** The `op` recorded for an opcode. */
  function OpOf(k: Opcode): int {
    match k
    case Add => OpAddMul
    case Mul => OpAddMul
    case Sub => OpSubDiv
    case Div => OpSubDiv
    case _ => OpJump
  }

  /** The slot an issue of `k` takes in the current tables: a station, or a
      load buffer for a load; the range's end when every one is busy. */
  function Slot(m: Tables, k: Opcode): int
    requires Shaped(m)
  {
    if k == Load then FreeLb(m.lb, 0, LbCount) else FreeRs(m.rs, RsLo(k), RsHi(k))
  }

  function SlotEnd(k: Opcode): int {
    if k == Load then LbCount else RsHi(k)
  }

  predicate HasSlot(m: Tables, k: Opcode)
    requires Shaped(m)
  {
    Slot(m, k) < SlotEnd(k)
  }

  predicate RegIndex(r: int) {
    0 <= r < RegCount
  }

  /** The operands an issue of `cmd` uses to index the register tables: the
      destination always, the sources of an arithmetic operation, and the one
      source of a jump. */
  predicate Indexes(cmd: Command) {
    match cmd.kind
    case Load => RegIndex(cmd.op0)
    case Jump => RegIndex(cmd.op0) && RegIndex(cmd.op1)
    case _ => RegIndex(cmd.op0) && RegIndex(cmd.op1) && RegIndex(cmd.op2)
  }

  /** An issue of the command at `pc` indexes the register tables in range
      whenever it happens. */
  predicate IssueDefined(m: Tables, prog: seq<Command>)
    requires Shaped(m) && 0 <= m.pc < |prog|
  {
    m.jumping || !HasSlot(m, prog[m.pc].kind) || Indexes(prog[m.pc])
  }

  /** Reading source register `r` into the `j` operand of a station: its value
      when the status table says it is ready (`< 0`), its producer's tag
      otherwise. */
  function ReadSource(st: Station, r: int, regState: seq<int>, reg: seq<int>): Station
    requires 0 <= r < |regState| && r < |reg|
  {
    if regState[r] < 0 then st.(vj := reg[r], qj := 0) else st.(qj := regState[r])
  }

  /** The station an arithmetic issue writes: both sources are read into `vj`/`qj`. */
  function ArithStation(st: Station, op: int, cmd: Command, regState: seq<int>, reg: seq<int>): Station
    requires RegIndex(cmd.op1) && RegIndex(cmd.op2) && |regState| == RegCount && |reg| == RegCount
  {
    ReadSource(ReadSource(st.(busy := true, op := op), cmd.op1, regState, reg), cmd.op2, regState, reg)
  }

  /** The station a jump issue writes: its one source is read into `vj`/`qj`. */
  function JumpStation(st: Station, cmd: Command, regState: seq<int>, reg: seq<int>): Station
    requires RegIndex(cmd.op1) && |regState| == RegCount && |reg| == RegCount
  {
    ReadSource(st.(busy := true, op := OpJump), cmd.op1, regState, reg)
  }

  function IssueArith(m: Tables, cmd: Command, i: int): Tables
    requires Shaped(m) && 0 <= i < RsCount && Indexes(cmd) && cmd.kind != Load && cmd.kind != Jump
  {
    m.(insts := m.insts + [Inst(Issued, m.pc, i, -1)],
       pc := m.pc + 1,
       rsNext := m.rsNext[i := ArithStation(m.rsNext[i], OpOf(cmd.kind), cmd, m.regState, m.reg)],
       regStateNext := m.regStateNext[cmd.op0 := i])
  }

  function IssueLoad(m: Tables, cmd: Command, i: int): Tables
    requires Shaped(m) && 0 <= i < LbCount && RegIndex(cmd.op0)
  {
    m.(insts := m.insts + [Inst(Issued, m.pc, i, -1)],
       pc := m.pc + 1,
       lbNext := m.lbNext[i := m.lbNext[i].(busy := true, addr := cmd.op1)],
       regStateNext := m.regStateNext[cmd.op0 := i])
  }

  function IssueJump(m: Tables, cmd: Command, i: int): Tables
    requires Shaped(m) && 0 <= i < RsCount && RegIndex(cmd.op0) && RegIndex(cmd.op1)
  {
    m.(insts := m.insts + [Inst(Issued, m.pc, i, -1)],
       jumping := true, jumpPc := cmd.op2, jumpVal := cmd.op0,
       rsNext := m.rsNext[i := JumpStation(m.rsNext[i], cmd, m.regState, m.reg)],
       regStateNext := m.regStateNext[cmd.op0 := i])
  }

  /** The issue phase of one cycle: nothing while a jump is pending or when
      every slot for the command at `pc` is busy; otherwise that command is
      issued to the lowest free slot. */
  function IssueStep(m: Tables, prog: seq<Command>): Tables
    requires Shaped(m) && 0 <= m.pc < |prog| && IssueDefined(m, prog)
  {
    var cmd := prog[m.pc];
    if m.jumping || !HasSlot(m, cmd.kind) then m
    else if cmd.kind == Load then IssueLoad(m, cmd, Slot(m, cmd.kind))
    else if cmd.kind == Jump then IssueJump(m, cmd, Slot(m, cmd.kind))
    else IssueArith(m, cmd, Slot(m, cmd.kind))
  }

  /** Issue changes nothing exactly when a jump is pending or no slot is free. */
  lemma IssueStalls(m: Tables, prog: seq<Command>)
    requires Shaped(m) && 0 <= m.pc < |prog| && IssueDefined(m, prog)
    ensures IssueStep(m, prog) == m <==> m.jumping || !HasSlot(m, prog[m.pc].kind)
  {
    var r := IssueStep(m, prog);
    if !m.jumping && HasSlot(m, prog[m.pc].kind) {
      assert |r.insts| == |m.insts| + 1;
    }
  }

  /** Issue reads the current tables and never writes them, nor the units. */
  lemma IssueFrame(m: Tables, prog: seq<Command>)
    requires Shaped(m) && 0 <= m.pc < |prog| && IssueDefined(m, prog)
    ensures var r := IssueStep(m, prog);
      && r.rs == m.rs && r.lb == m.lb && r.regState == m.regState && r.reg == m.reg
      && r.fu == m.fu && r.fuNext == m.fuNext
  {
  }

  /** A successful issue appends the command at `pc` as an issued instruction
      on the lowest free slot of its range, and every lower slot is busy. */
  lemma IssueAppends(m: Tables, prog: seq<Command>)
    requires Shaped(m) && 0 <= m.pc < |prog| && IssueDefined(m, prog)
    requires !m.jumping && HasSlot(m, prog[m.pc].kind)
    ensures var k := prog[m.pc].kind; var i := Slot(m, k);
      && IssueStep(m, prog).insts == m.insts + [Inst(Issued, m.pc, i, -1)]
      && (k == Load ==> 0 <= i < LbCount && !m.lb[i].busy && forall j :: 0 <= j < i ==> m.lb[j].busy)
      && (k != Load ==> RsLo(k) <= i < RsHi(k) && !m.rs[i].busy
                        && forall j :: RsLo(k) <= j < i ==> m.rs[j].busy)
  {
  }

  /** Issuing an arithmetic operation or a load advances `pc` by one; issuing
      a jump leaves `pc` and records the pending jump instead. */
  lemma IssuePc(m: Tables, prog: seq<Command>)
    requires Shaped(m) && 0 <= m.pc < |prog| && IssueDefined(m, prog)
    requires !m.jumping && HasSlot(m, prog[m.pc].kind)
    ensures var cmd := prog[m.pc]; var r := IssueStep(m, prog);
      && (cmd.kind != Jump ==> r.pc == m.pc + 1 && !r.jumping && r.jumpPc == m.jumpPc && r.jumpVal == m.jumpVal)
      && (cmd.kind == Jump ==> r.pc == m.pc && r.jumping && r.jumpPc == cmd.op2 && r.jumpVal == cmd.op0)
  {
  }

  /** What a successful issue writes into the shadow tables: the slot becomes
      busy with the opcode's `op` (or the load's address), the destination's
      status names the slot, and the other shadow table is untouched. */
  lemma IssueWrites(m: Tables, prog: seq<Command>)
    requires Shaped(m) && 0 <= m.pc < |prog| && IssueDefined(m, prog)
    requires !m.jumping && HasSlot(m, prog[m.pc].kind)
    ensures var cmd := prog[m.pc]; var i := Slot(m, cmd.kind); var r := IssueStep(m, prog);
      && RegIndex(cmd.op0)
      && r.regStateNext == m.regStateNext[cmd.op0 := i]
      && (cmd.kind == Load ==>
            && r.rsNext == m.rsNext
            && r.lbNext == m.lbNext[i := LoadBuffer(true, cmd.op1)])
      && (cmd.kind != Load ==>
            && r.lbNext == m.lbNext
            && |r.rsNext| == RsCount
            && (forall j :: 0 <= j < RsCount && j != i ==> r.rsNext[j] == m.rsNext[j])
            && r.rsNext[i].busy && r.rsNext[i].op == OpOf(cmd.kind)
            && r.rsNext[i].vk == m.rsNext[i].vk && r.rsNext[i].qk == m.rsNext[i].qk)
      && (cmd.kind == Jump ==>
            && r.rsNext[i].qj == Tag(m.regState, cmd.op1)
            && (m.regState[cmd.op1] < 0 ==> r.rsNext[i].vj == m.reg[cmd.op1]))
  {
  }

  /** The tag an operand gets from source register `r`: 0 when it is ready,
      else the register's status. */
  function Tag(regState: seq<int>, r: int): int
    requires 0 <= r < |regState|
  {
    if regState[r] < 0 then 0 else regState[r]
  }

  /** An arithmetic issue reads both sources into `vj`/`qj`, so the station's
      `qj` comes from the second source alone, and when that source is ready
      the first source leaves no trace at all; `vk` and `qk` are never written. */
  lemma IssueSecondSourceWins(m: Tables, prog: seq<Command>)
    requires Shaped(m) && 0 <= m.pc < |prog| && IssueDefined(m, prog)
    requires !m.jumping && HasSlot(m, prog[m.pc].kind)
    requires prog[m.pc].kind in {Add, Sub, Mul, Div}
    ensures var cmd := prog[m.pc]; var i := Slot(m, cmd.kind); var st := IssueStep(m, prog).rsNext[i];
      && st.qj == Tag(m.regState, cmd.op2)
      && (m.regState[cmd.op2] < 0 ==> st.vj == m.reg[cmd.op2])
      && (m.regState[cmd.op2] < 0 ==>
            forall other: int :: RegIndex(other) ==>
              st == ArithStation(m.rsNext[i], OpOf(cmd.kind), cmd.(op1 := other), m.regState, m.reg))
  {
  }

  /** Register tags are slot indices starting at 0, while 0 in `qj` means
      ready: a source whose status is 0 (as the zeroed table starts, or as an
      issue to slot 0 leaves it) reads as ready without its value being read. */
  lemma TagZeroLooksReady(st: Station, r: int, regState: seq<int>, reg: seq<int>)
    requires 0 <= r < |regState| && r < |reg| && regState[r] == 0
    ensures ReadSource(st, r, regState, reg).qj == 0
    ensures ReadSource(st, r, regState, reg).vj == st.vj
  {
  }

  lemma IssueKeepsInv(m: Tables, prog: seq<Command>)
    requires Inv(m) && m.pc < |prog| && IssueDefined(m, prog)
    ensures Inv(IssueStep(m, prog))
  {
    var r := IssueStep(m, prog);
    if !m.jumping && HasSlot(m, prog[m.pc].kind) {
      forall k | 0 <= k < |r.insts|
        ensures WellFormed(r.insts[k], r.pc)
      {
        if k < |m.insts| {
          assert r.insts[k] == m.insts[k];
        }
      }
    }
  }

  // ---------------------------------------------------------------------
  // Dispatch
  // ---------------------------------------------------------------------

  /** The units an opcode runs on: 0..2 for add, sub and jump, 4..5 for mul
      and div, 6 for a load. */
  function FuLo(k: Opcode): int {
    match k
    case Mul => 4
    case Div => 4
    case Load => 6
    case _ => 0
  }

  function FuHi(k: Opcode): int {
    match k
    case Mul => 6
    case Div => 6
    case Load => 7
    case _ => 3
  }

  /** Cycles an instruction occupies its unit: 3 for add, sub, jump and load,
      4 for mul and div, but 1 for a div whose `vk` is 0. */
  function Latency(k: Opcode, st: Station): int {
    match k
    case Mul => 4
    case Div => if st.vk == 0 then 1 else 4
    case _ => 3
  }

  /** An instruction is considered for dispatch when it is a load or both of
      its station's tags are 0. */
  predicate Ready(k: Opcode, st: Station) {
    k == Load || (st.qj == 0 && st.qk == 0)
  }

  /** Dispatch of instruction `k` reads only defined entries: its command is
      in the program, and a load never needs to look past unit 6. */
  predicate DispatchDefined(m: Tables, prog: seq<Command>, k: int)
    requires Inv(m) && 0 <= k < |m.insts|
  {
    m.insts[k].id < |prog|
    && (m.insts[k].state == Issued && prog[m.insts[k].id].kind == Load ==> m.fu[6].count == 0)
  }

  /** The dispatch phase for in-flight instruction `k`: an issued, ready
      instruction takes the lowest idle unit of its range in the current unit
      table, which the shadow unit table records with the instruction's id and
      latency; anything else changes nothing. */
  function DispatchStep(m: Tables, prog: seq<Command>, k: int): Tables
    requires Inv(m) && 0 <= k < |m.insts| && DispatchDefined(m, prog, k)
  {
    var x := m.insts[k];
    var kind := prog[x.id].kind;
    var st := m.rs[x.rsId];
    if x.state != Issued || !Ready(kind, st) then m
    else
      var i := IdleFu(m.fu, FuLo(kind), FuHi(kind));
      if i == FuHi(kind) then m
      else m.(fuNext := m.fuNext[i := Unit(x.id, Latency(kind, st))],
              insts := m.insts[k := x.(state := Executing, fuId := i)])
  }

  /** Whether `k` was dispatched. */
  predicate Dispatches(m: Tables, prog: seq<Command>, k: int)
    requires Inv(m) && 0 <= k < |m.insts| && DispatchDefined(m, prog, k)
  {
    var x := m.insts[k];
    var kind := prog[x.id].kind;
    && x.state == Issued && Ready(kind, m.rs[x.rsId])
    && IdleFu(m.fu, FuLo(kind), FuHi(kind)) < FuHi(kind)
  }

  /** Dispatch happens exactly to an issued, ready instruction with an idle
      unit in its range; otherwise nothing changes. */
  lemma DispatchWhen(m: Tables, prog: seq<Command>, k: int)
    requires Inv(m) && 0 <= k < |m.insts| && DispatchDefined(m, prog, k)
    ensures Dispatches(m, prog, k) <==> DispatchStep(m, prog, k).insts[k].state != m.insts[k].state
    ensures !Dispatches(m, prog, k) ==> DispatchStep(m, prog, k) == m
  {
  }

  /** A dispatched instruction runs on the lowest idle unit of its range for
      its opcode's latency, and only that unit and the instruction change. */
  lemma DispatchWrites(m: Tables, prog: seq<Command>, k: int)
    requires Inv(m) && 0 <= k < |m.insts| && DispatchDefined(m, prog, k)
    requires Dispatches(m, prog, k)
    ensures var x := m.insts[k]; var kind := prog[x.id].kind; var r := DispatchStep(m, prog, k);
      var i := r.insts[k].fuId;
      && FuLo(kind) <= i < FuHi(kind) && m.fu[i].count == 0
      && (forall j :: FuLo(kind) <= j < i ==> m.fu[j].count != 0)
      && r.insts[k] == Inst(Executing, x.id, x.rsId, i)
      && r.fuNext == m.fuNext[i := Unit(x.id, Latency(kind, m.rs[x.rsId]))]
      && r == m.(fuNext := r.fuNext, insts := m.insts[k := r.insts[k]])
  {
  }

  /** A load, whose precondition puts unit 6 idle, always dispatches to it. */
  lemma LoadDispatchesToSix(m: Tables, prog: seq<Command>, k: int)
    requires Inv(m) && 0 <= k < |m.insts| && DispatchDefined(m, prog, k)
    requires m.insts[k].state == Issued && prog[m.insts[k].id].kind == Load
    ensures Dispatches(m, prog, k) && DispatchStep(m, prog, k).insts[k].fuId == 6
  {
  }

  /** Dispatch tests the current unit table but writes the shadow one, so if
      the dispatch branch runs on two ready instructions of one class with no
      `sync` between them, both claim the same unit. */
  lemma DispatchDoubleClaim(m: Tables, prog: seq<Command>, k1: int, k2: int)
    requires Inv(m) && 0 <= k1 < |m.insts| && 0 <= k2 < |m.insts| && k1 != k2
    requires DispatchDefined(m, prog, k1) && DispatchDefined(m, prog, k2)
    requires Dispatches(m, prog, k1) && Dispatches(m, prog, k2)
    requires FuLo(prog[m.insts[k1].id].kind) == FuLo(prog[m.insts[k2].id].kind)
    ensures var m1 := DispatchStep(m, prog, k1);
      && Inv(m1) && DispatchDefined(m1, prog, k2) && Dispatches(m1, prog, k2)
      && DispatchStep(m1, prog, k2).insts[k1].fuId == DispatchStep(m1, prog, k2).insts[k2].fuId
  {
    var m1 := DispatchStep(m, prog, k1);
    DispatchKeepsInv(m, prog, k1);
    assert m1.insts[k2] == m.insts[k2];
    DispatchWrites(m, prog, k1);
    DispatchWrites(m1, prog, k2);
  }

  lemma DispatchKeepsInv(m: Tables, prog: seq<Command>, k: int)
    requires Inv(m) && 0 <= k < |m.insts| && DispatchDefined(m, prog, k)
    ensures Inv(DispatchStep(m, prog, k))
  {
    var r := DispatchStep(m, prog, k);
    if Dispatches(m, prog, k) {
      DispatchWrites(m, prog, k);
      assert forall j :: 0 <= j < |r.insts| && j != k ==> r.insts[j] == m.insts[j];
    }
  }

  // ---------------------------------------------------------------------
  // Countdown
  // ---------------------------------------------------------------------

  /** One cycle of a unit: a positive count goes down by one. */
  function Tick(u: Unit): Unit {
    if u.count > 0 then u.(count := u.count - 1) else u
  }

  function Ticked(fu: seq<Unit>): seq<Unit> {
    seq(|fu|, j requires 0 <= j < |fu| => Tick(fu[j]))
  }

  /** The countdown phase: every shadow unit ticks. */
  function CountDownStep(m: Tables): Tables {
    m.(fuNext := Ticked(m.fuNext))
  }

  /** The countdown decrements each positive count by exactly one, leaves the
      other counts and every unit's id alone, and so never makes a count
      negative; nothing but the shadow units changes. */
  lemma CountDownExact(m: Tables, j: int)
    requires 0 <= j < |m.fuNext|
    ensures var r := CountDownStep(m);
      && |r.fuNext| == |m.fuNext| && r.fuNext[j].id == m.fuNext[j].id
      && (m.fuNext[j].count > 0 ==> r.fuNext[j].count == m.fuNext[j].count - 1)
      && (m.fuNext[j].count <= 0 ==> r.fuNext[j].count == m.fuNext[j].count)
      && r == m.(fuNext := r.fuNext)
  {
  }

  function CountDownN(fu: seq<Unit>, n: nat): seq<Unit> {
    if n == 0 then fu else Ticked(CountDownN(fu, n - 1))
  }

  function Max(a: int, b: int): int {
    if a < b then b else a
  }

  /** After `n` countdowns a unit with `c >= 0` cycles left has `max(c - n, 0)`. */
  lemma {:induction false} CountAfter(fu: seq<Unit>, n: nat, j: int)
    requires 0 <= j < |fu| && fu[j].count >= 0
    ensures |CountDownN(fu, n)| == |fu|
    ensures CountDownN(fu, n)[j] == Unit(fu[j].id, Max(fu[j].count - n, 0))
  {
    if n > 0 {
      CountAfter(fu, n - 1, j);
    }
  }

  /** A unit dispatched with latency `L` is idle again after exactly `L` countdowns. */
  lemma IdleAfterLatency(fu: seq<Unit>, j: int, id: int, latency: int, n: nat)
    requires 0 <= j < |fu| && latency >= 1
    ensures var d := fu[j := Unit(id, latency)];
      |CountDownN(d, n)| == |fu| && (CountDownN(d, n)[j].count == 0 <==> n >= latency)
  {
    CountAfter(fu[j := Unit(id, latency)], n, j);
  }

  lemma CountDownKeepsInv(m: Tables)
    requires Inv(m)
    ensures Inv(CountDownStep(m))
  {
  }

  // ---------------------------------------------------------------------
  // Copy and sync
  // ---------------------------------------------------------------------

  /** `copy`: the shadow stations and load buffers become the current ones;
      only the first 3 units and the first 8 register statuses are copied. */
  function CopyStep(m: Tables): Tables
    requires Shaped(m)
  {
    m.(rsNext := m.rs, lbNext := m.lb,
       fuNext := m.fu[..FuCopied] + m.fuNext[FuCopied..],
       regStateNext := m.regState[..RegStateCopied] + m.regStateNext[RegStateCopied..])
  }

  /** `sync`: each table trades places with its shadow. */
  function SyncStep(m: Tables): Tables {
    m.(rs := m.rsNext, rsNext := m.rs, lb := m.lbNext, lbNext := m.lb,
       fu := m.fuNext, fuNext := m.fu, regState := m.regStateNext, regStateNext := m.regState)
  }

  /** After `copy` the station and load-buffer shadows equal the current
      tables, but a unit or register status is copied only below 3 and 8;
      the others keep their shadow values, and nothing else changes. */
  lemma CopyAgrees(m: Tables)
    requires Shaped(m)
    ensures var r := CopyStep(m);
      && Shaped(r) && r.rsNext == r.rs && r.lbNext == r.lb
      && (forall j :: 0 <= j < FuCount ==> r.fuNext[j] == (if j < FuCopied then m.fu[j] else m.fuNext[j]))
      && (forall j :: 0 <= j < RegCount ==>
            r.regStateNext[j] == (if j < RegStateCopied then m.regState[j] else m.regStateNext[j]))
      && r == m.(rsNext := r.rsNext, lbNext := r.lbNext, fuNext := r.fuNext, regStateNext := r.regStateNext)
  {
  }

  /** Copying twice is copying once. */
  lemma CopyIdempotent(m: Tables)
    requires Shaped(m)
    ensures CopyStep(CopyStep(m)) == CopyStep(m)
  {
    var r := CopyStep(m);
    assert r.fu[..FuCopied] + r.fuNext[FuCopied..] == r.fuNext;
    assert r.regState[..RegStateCopied] + r.regStateNext[RegStateCopied..] == r.regStateNext;
  }

  /** One sync swaps each table with its shadow and changes nothing else;
      syncing twice restores every table. */
  lemma SyncInvolution(m: Tables)
    ensures SyncStep(SyncStep(m)) == m
    ensures SyncStep(m).rs == m.rsNext && SyncStep(m).rsNext == m.rs
    ensures SyncStep(m).lb == m.lbNext && SyncStep(m).lbNext == m.lb
    ensures SyncStep(m).fu == m.fuNext && SyncStep(m).fuNext == m.fu
    ensures SyncStep(m).regState == m.regStateNext && SyncStep(m).regStateNext == m.regState
    ensures var r := SyncStep(m);
      r.reg == m.reg && r.pc == m.pc && r.jumping == m.jumping && r.jumpPc == m.jumpPc
      && r.jumpVal == m.jumpVal && r.insts == m.insts
  {
  }

  /** A `copy` followed by `sync` keeps the current stations and load buffers,
      but the current units from 3 on and statuses from 8 on become the old
      shadow values, while those below are the old current ones. */
  lemma CopyThenSync(m: Tables)
    requires Shaped(m)
    ensures var r := SyncStep(CopyStep(m));
      && r.rs == m.rs && r.lb == m.lb && r.fuNext == m.fu && r.regStateNext == m.regState
      && (forall j :: FuCopied <= j < FuCount ==> r.fu[j] == m.fuNext[j])
      && (forall j :: 0 <= j < FuCopied ==> r.fu[j] == m.fu[j])
      && (forall j :: RegStateCopied <= j < RegCount ==> r.regState[j] == m.regStateNext[j])
      && (forall j :: 0 <= j < RegStateCopied ==> r.regState[j] == m.regState[j])
  {
  }

  lemma CopyKeepsInv(m: Tables)
    requires Inv(m)
    ensures Inv(CopyStep(m))
  {
    var r := CopyStep(m);
    forall j | 0 <= j < FuCount
      ensures r.fuNext[j].count >= 0
    {
      if j < FuCopied {
        assert r.fuNext[j] == m.fu[j];
      } else {
        assert r.fuNext[j] == m.fuNext[j];
      }
    }
  }

  lemma SyncKeepsInv(m: Tables)
    requires Inv(m)
    ensures Inv(SyncStep(m))
  {
  }
}
