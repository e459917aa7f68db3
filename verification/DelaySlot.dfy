/** The interpreter's branch state machine and the architecture it has to follow.
    The interpreter keeps a program counter and five branch fields; the architecture has the
    pair (pc, next pc). Effects of instructions that neither branch nor jump stay abstract. */
module DelaySlot {
  import opened Common
  import opened Bits

  type regnum = x: int | 0 <= x < 32
  type target26 = x: int | 0 <= x < 0x400_0000
  type Gprs = s: seq<u64> | |s| == 32 witness seq(32, _ => 0)

  /** Addition of Int64 bit patterns. */
  function Plus(a: u64, k: int): u64 { (a + k) % TWO64 }

  lemma PlusPlus(a: u64, j: int, k: int)
    ensures Plus(Plus(a, j), k) == Plus(a, j + k)
  {}

  function Low32(x: u64): u32 { x % TWO32 }
  function Signed32(x: u64): int { if Low32(x) < 0x8000_0000 then Low32(x) else Low32(x) - TWO32 }
  function Signed64(x: u64): int { if x < 0x8000_0000_0000_0000 then x else x - TWO64 }
  function Signed16(x: u16): int { if x < 0x8000 then x else x - 0x1_0000 }

  datatype Condition = Equal | NotEqual | LessOrEqualZero | GreaterZero | GreaterOrEqualZero | LessZero
                     | Cop1True | Cop1False

  datatype Instr =
    | Branch(cond: Condition, rs: regnum, rt: regnum, immediate: u16, likely: bool, link: bool)
    | Jump(target: target26, link: bool)
    | JumpRegister(rs: regnum, rd: regnum)
    | Other(word: u32)

  /** Registers, and everything else that instructions may change. */
  datatype Data<M> = Data(gpr: Gprs, rest: M)

  /** The parts of the machine that are not modelled: decoding memory at an address, the effect of
      other instructions, the operating mode and the floating-point condition. */
  datatype Env<!M> = Env(fetch: (Data<M>, u64) -> Instr, effect: (Data<M>, Instr, u64) -> Data<M>,
                         mode64: M -> bool, condition: M -> bool)

  function WriteGpr<M>(d: Data<M>, index: regnum, value: u64): Data<M> {
    if index > 0 then d.(gpr := d.gpr[index := value]) else d
  }

  /* -------- what the branch handlers compute -------- */

  function Taken<M>(env: Env<M>, d: Data<M>, i: Instr): bool
    requires i.Branch?
  {
    var rs, rt := d.gpr[i.rs], d.gpr[i.rt];
    if env.mode64(d.rest) then
      match i.cond
      case Equal => rs == rt
      case NotEqual => rs != rt
      case LessOrEqualZero => rs <= rt
      case GreaterZero => Signed64(rs) > 0
      case GreaterOrEqualZero => Signed64(rs) >= 0
      case LessZero => Signed64(rs) < 0
      case Cop1True => env.condition(d.rest)
      case Cop1False => env.condition(d.rest)
    else
      match i.cond
      case Equal => Low32(rs) == Low32(rt)
      case NotEqual => Low32(rs) != Low32(rt)
      case LessOrEqualZero => Low32(rs) <= Low32(rt)
      case GreaterZero => Signed32(rs) > 0
      case GreaterOrEqualZero => Signed32(rs) >= 0
      case LessZero => Signed32(rs) < 0
      case Cop1True => env.condition(d.rest)
      case Cop1False => env.condition(d.rest)
  }

  function BranchComputeTargetAddress(pc: u64, immediate: u16): u64 {
    Plus(Plus(pc, 4), Signed16(immediate) * 4)
  }

  /** `(Target << 2) | ((Address + 4) & 0xFFFF0000)`, the shift in 32 bits and the mask zero-extended. */
  function JumpTarget(target: target26, address: u64): int {
    Or(target * 4 % TWO32, And(Plus(address, 4), 0xFFFF_0000))
  }

  lemma MaskedFits(high: nat, low: nat, mask: nat, other: nat, p: nat)
    requires p == Pow2(32) && low < p && mask < p && other < p
    ensures 0 <= Or(other, And(high * p + low, mask)) < p
  {
    assert And(high * p + low, mask) == And(low, mask) && 0 <= And(low, mask) < p by {
      AndSplit(high, 0, 32, low, mask);
      AndZero(high);
    }
    OrSplit(0, 0, 32, other, And(low, mask));
  }

  lemma JumpTargetFits(target: target26, address: u64)
    ensures 0 <= JumpTarget(target, address) < TWO32
  {
    var a := Plus(address, 4);
    assert Pow2(32) == TWO32 by { Pow2Values(); }
    MaskedFits(a / TWO32, a % TWO32, 0xFFFF_0000, target * 4 % TWO32, TWO32);
  }

  /** Where a control transfer at `address` goes. */
  function Destination<M>(d: Data<M>, i: Instr, address: u64): u64
    requires !i.Other?
  {
    match i
    case Branch(_, _, _, immediate, _, _) => BranchComputeTargetAddress(address, immediate)
    case Jump(target, _) => JumpTargetFits(target, address); JumpTarget(target, address)
    case JumpRegister(rs, _) => d.gpr[rs]
  }

  /** Data after a control transfer at `address`: only the link register may change. */
  function Linked<M>(d: Data<M>, i: Instr, address: u64): Data<M>
    requires !i.Other?
  {
    match i
    case Branch(_, _, _, _, _, link) => if link then WriteGpr(d, 31, Plus(address, 8)) else d
    case Jump(_, link) => if link then WriteGpr(d, 31, Plus(address, 8)) else d
    case JumpRegister(_, rd) => WriteGpr(d, rd, Plus(address, 8))
  }

  /* -------- the interpreter -------- */

  datatype Core<M> = Core(pc: u64, branchEnabled: bool, branchDelaySlot: u64, branchTarget: u64,
                          nullifyEnabled: bool, count: u32, data: Data<M>)

  function DoJump<M>(c: Core<M>, target: u64): Core<M> {
    c.(branchEnabled := true, branchDelaySlot := Plus(c.pc, 4), branchTarget := target)
  }

  function DoBranch<M>(c: Core<M>, condition: bool, i: Instr, address: u64): Core<M>
    requires i.Branch?
  {
    DoJump(c, if condition then BranchComputeTargetAddress(address, i.immediate) else Plus(c.pc, 8))
  }

  /** Executing an instruction fetched from `address`. */
  function CallInstruction<M>(env: Env<M>, c: Core<M>, i: Instr, address: u64): Core<M> {
    match i
    case Branch(_, _, _, _, likely, _) =>
      var taken := Taken(env, c.data, i);
      var c1 := if likely then c.(nullifyEnabled := !taken) else c;
      DoBranch(c1, taken, i, address).(data := Linked(c.data, i, address))
    case Other(_) => c.(data := env.effect(c.data, i, address))
    case _ => DoJump(c, Destination(c.data, i, address)).(data := Linked(c.data, i, address))
  }

  function Step<M>(env: Env<M>, c: Core<M>): Core<M> {
    var c0 := c.(count := (c.count + 1) % TWO32);
    if c.branchEnabled then
      var c1 := c0.(pc := c.branchTarget);
      if !c.nullifyEnabled then
        CallInstruction(env, c1, env.fetch(c.data, c.branchDelaySlot), c.branchDelaySlot).(branchEnabled := false)
      else
        c1.(nullifyEnabled := false, branchEnabled := false)
    else
      var c1 := CallInstruction(env, c0, env.fetch(c.data, c.pc), c.pc);
      c1.(pc := Plus(c1.pc, if c1.branchEnabled then 8 else 4))
  }

  /* -------- the architecture -------- */

  datatype Arch<M> = Arch(pc: u64, npc: u64, data: Data<M>)

  /** Two's complement values of 16, 32 and 64 bits. */
  function Halfword(x: u16): int { (x + 0x8000) % 0x1_0000 - 0x8000 }
  function Word(x: u64): int { (x + 0x8000_0000) % TWO32 - 0x8000_0000 }
  function Doubleword(x: u64): int { (x + 0x8000_0000_0000_0000) % TWO64 - 0x8000_0000_0000_0000 }

  /** A register at the width of the operating mode, signed and unsigned. */
  function Operand<M>(env: Env<M>, d: Data<M>, r: regnum): int {
    if env.mode64(d.rest) then Doubleword(d.gpr[r]) else Word(d.gpr[r])
  }

  function Unsigned<M>(env: Env<M>, d: Data<M>, r: regnum): nat {
    if env.mode64(d.rest) then d.gpr[r] else d.gpr[r] % TWO32
  }

  /** Whether the instruction set takes the branch. */
  function ArchTaken<M>(env: Env<M>, d: Data<M>, i: Instr): bool
    requires i.Branch?
  {
    var rs, rt := Operand(env, d, i.rs), Operand(env, d, i.rt);
    match i.cond
    case Equal => rs == rt
    case NotEqual => rs != rt
    case LessOrEqualZero => rs <= 0
    case GreaterZero => rs > 0
    case GreaterOrEqualZero => rs >= 0
    case LessZero => rs < 0
    case Cop1True => env.condition(d.rest)
    case Cop1False => !env.condition(d.rest)
  }

  /** Where the instruction set sends a taken transfer: the slot's address plus the signed offset in words,
      the slot's 256 MB segment with the target field, or the register. */
  function ArchDestination<M>(d: Data<M>, i: Instr, address: u64): u64
    requires !i.Other?
  {
    match i
    case Branch(_, _, _, immediate, _, _) => (address + 4 + 4 * Halfword(immediate)) % TWO64
    case Jump(target, _) => ArchitecturalTarget(target, address)
    case JumpRegister(rs, _) => d.gpr[rs]
  }

  /** The architecture's jump target: the high bits of the slot's address over the shifted field. */
  function ArchitecturalTarget(target: target26, address: u64): (r: int)
    ensures 0 <= r < TWO64
  {
    (address + 4) % TWO64 / 0x1000_0000 * 0x1000_0000 + target * 4
  }

  /** The register that gets the return address, 0 for none. */
  function LinkRegister(i: Instr): regnum {
    match i
    case Branch(_, _, _, _, _, link) => if link then 31 else 0
    case Jump(_, link) => if link then 31 else 0
    case JumpRegister(_, rd) => rd
    case Other(_) => 0
  }

  /** A register afterwards: the return address is that of the instruction behind the slot; register 0 stays. */
  function ArchRegister<M>(d: Data<M>, i: Instr, address: u64, r: regnum): u64 {
    if r > 0 && r == LinkRegister(i) then (address + 8) % TWO64 else d.gpr[r]
  }

  function ArchLinked<M>(d: Data<M>, i: Instr, address: u64): Data<M> {
    Data(seq<u64>(32, r requires 0 <= r < 32 => ArchRegister(d, i, address, r)), d.rest)
  }

  function ArchStep<M>(env: Env<M>, a: Arch<M>): Arch<M> {
    var i := env.fetch(a.data, a.pc);
    if i.Other? then Arch(a.npc, Plus(a.npc, 4), env.effect(a.data, i, a.pc))
    else
      var data := ArchLinked(a.data, i, a.pc);
      if i.Branch? && !ArchTaken(env, a.data, i) then
        if i.likely then Arch(Plus(a.npc, 4), Plus(a.npc, 8), data) else Arch(a.npc, Plus(a.npc, 4), data)
      else Arch(a.npc, ArchDestination(a.data, i, a.pc), data)
  }

  /** The architectural state that a core stands for. */
  function Abs<M>(c: Core<M>): Arch<M> {
    if !c.branchEnabled then Arch(c.pc, Plus(c.pc, 4), c.data)
    else if c.nullifyEnabled then Arch(c.branchTarget, Plus(c.branchTarget, 4), c.data)
    else Arch(c.branchDelaySlot, c.branchTarget, c.data)
  }

  /* -------- the handlers against the architecture -------- */

  /** When the handler's condition is the right one: BLEZ compares with the register of its rt field, and
      unsigned; BC1F and BC1FL do not negate. */
  predicate ConditionIsRight<M>(env: Env<M>, d: Data<M>, i: Instr)
    requires i.Branch?
  {
    match i.cond
    case LessOrEqualZero =>
      var rs := Operand(env, d, i.rs);
      rs == 0 || (rs < 0 <==> Unsigned(env, d, i.rs) <= Unsigned(env, d, i.rt))
    case Cop1False => false
    case _ => true
  }

  lemma TakenIsRightIff<M>(env: Env<M>, d: Data<M>, i: Instr)
    requires i.Branch?
    ensures Taken(env, d, i) == ArchTaken(env, d, i) <==> ConditionIsRight(env, d, i)
  {
    var x, y := d.gpr[i.rs], d.gpr[i.rt];
    if env.mode64(d.rest) {
      DoublewordsAre(x, y);
    } else {
      WordsAre(x, y);
    }
  }

  lemma WordsAre(x: u64, y: u64)
    ensures Word(x) == Signed32(x) && (Word(x) == Word(y) <==> Low32(x) == Low32(y))
    ensures Word(x) == 0 <==> Low32(x) == 0
  {}

  lemma DoublewordsAre(x: u64, y: u64)
    ensures Doubleword(x) == Signed64(x) && (Doubleword(x) == Doubleword(y) <==> x == y)
    ensures Doubleword(x) == 0 <==> x == 0
  {}

  /** BLEZ with rt = 0 compares unsigned, so it follows the signed definition exactly on registers
      that are not negative. */
  lemma BlezFollowsArchitectureIff<M>(env: Env<M>, d: Data<M>, i: Instr)
    requires i.Branch? && i.cond == LessOrEqualZero && d.gpr[i.rt] == 0
    ensures Taken(env, d, i) == ArchTaken(env, d, i) <==> Operand(env, d, i.rs) >= 0
  {
    TakenIsRightIff(env, d, i);
  }

  /** The handlers of BC1F and BC1FL branch on the same condition as those of BC1T and BC1TL, so they
      follow the architecture, which negates it, never. */
  lemma CoprocessorBranchFollowsArchitectureIff<M>(env: Env<M>, d: Data<M>, i: Instr)
    requires i.Branch? && (i.cond.Cop1True? || i.cond.Cop1False?)
    ensures Taken(env, d, i) == ArchTaken(env, d, i) <==> i.cond.Cop1True?
  {}

  lemma BranchTargetIsRight<M>(d: Data<M>, i: Instr, address: u64)
    requires i.Branch?
    ensures Destination(d, i, address) == ArchDestination(d, i, address)
  {
    assert Halfword(i.immediate) == Signed16(i.immediate);
    PlusPlus(address, 4, Signed16(i.immediate) * 4);
  }

  lemma LinkIsRight<M>(d: Data<M>, i: Instr, address: u64)
    requires !i.Other?
    ensures Linked(d, i, address) == ArchLinked(d, i, address)
  {
    assert Linked(d, i, address).gpr == ArchLinked(d, i, address).gpr;
  }

  /** Bits 16 to 27 of the slot's address, which the mask 0xFFFF0000 wrongly keeps. */
  function Middle(address: u64): nat { Plus(address, 4) % 0x1000_0000 / 0x1_0000 * 0x1_0000 }

  lemma Regroup(a: nat)
    ensures a / 0x1_0000 % 0x1_0000 * 0x1_0000
         == a % TWO32 / 0x1000_0000 * 0x1000_0000 + a % 0x1000_0000 / 0x1_0000 * 0x1_0000
  {
    // a = ((top * 16 + high) * 0x1000 + middle) * 0x1_0000 + low
    var halves, low := a / 0x1_0000, a % 0x1_0000;
    var nibbles, middle := halves / 0x1000, halves % 0x1000;
    var top, high := nibbles / 16, nibbles % 16;
    RegroupParts(a, top, high, middle, low);
  }

  lemma RegroupParts(a: nat, top: nat, high: nat, middle: nat, low: nat)
    requires high < 16 && middle < 0x1000 && low < 0x1_0000
    requires a == ((top * 16 + high) * 0x1000 + middle) * 0x1_0000 + low
    ensures a / 0x1_0000 % 0x1_0000 == high * 0x1000 + middle
    ensures a % TWO32 / 0x1000_0000 == high
    ensures a % 0x1000_0000 / 0x1_0000 == middle
  {
    var word := (high * 0x1000 + middle) * 0x1_0000 + low;
    ModUnique(a, 0x1_0000, (top * 16 + high) * 0x1000 + middle, low);
    ModUnique((top * 16 + high) * 0x1000 + middle, 0x1_0000, top, high * 0x1000 + middle);
    ModUnique(a, TWO32, top, word);
    ModUnique(word, 0x1000_0000, high, middle * 0x1_0000 + low);
    ModUnique(a, 0x1000_0000, top * 16 + high, middle * 0x1_0000 + low);
    ModUnique(middle * 0x1_0000 + low, 0x1_0000, middle, low);
  }

  lemma KeptBits(a: u64)
    ensures And(a, 0xFFFF_0000) == a % TWO32 / 0x1000_0000 * 0x1000_0000 + a % 0x1000_0000 / 0x1_0000 * 0x1_0000
  {
    Pow2Values();
    AndHigh(a / 0x1_0000, 0xFFFF, 16, a % 0x1_0000);
    AndLowMask(a / 0x1_0000, 16);
    Regroup(a);
  }

  lemma OrUnder(high: nat, low: nat, other: nat)
    requires low < 0x1000_0000 && other < 0x1000_0000
    ensures Or(low, high * 0x1000_0000 + other) == high * 0x1000_0000 + Or(low, other)
    ensures 0 <= Or(low, other) < 0x1000_0000
  {
    assert Pow2(28) == 0x1000_0000 by { Pow2Values(); Pow2Adds(16, 12); assert Pow2(12) == 0x1000; }
    OrSplit(0, high, 28, low, other);
    OrZero(high);
  }

  lemma SameSegmentIff(a: nat, o: nat, t: nat)
    requires o < 0x1000_0000 && t < 0x1000_0000
    ensures a % TWO32 / 0x1000_0000 * 0x1000_0000 + o == a / 0x1000_0000 * 0x1000_0000 + t
       <==> a < TWO32 && o == t
  {
    var q, h := a / 0x1000_0000, a % TWO32 / 0x1000_0000;
    assert h <= 15 && (a < TWO32 <==> q <= 15) && (a < TWO32 ==> h == q);
  }

  lemma JumpTargetIs(target: target26, address: u64, shifted: nat)
    requires shifted == target * 4
    ensures JumpTarget(target, address)
         == Plus(address, 4) % TWO32 / 0x1000_0000 * 0x1000_0000 + Or(shifted, Middle(address))
    ensures 0 <= Or(shifted, Middle(address)) < 0x1000_0000
  {
    assert shifted % TWO32 == shifted;
    KeptBits(Plus(address, 4));
    OrUnder(Plus(address, 4) % TWO32 / 0x1000_0000, shifted, Middle(address));
  }

  /** The mask adds nothing to the target: the slot's address fits 32 bits, and its bits 16 to 27 are set
      in the shifted field. */
  predicate JumpIsRight(target: target26, address: u64) {
    Plus(address, 4) < TWO32 && Or(target * 4, Middle(address)) == target * 4
  }

  /** J and JAL reach the architecture's target exactly when the slot's address fits 32 bits and its
      bits 16 to 27 are already set in the shifted target field. */
  lemma JumpTargetFollowsArchitectureIff(target: target26, address: u64)
    ensures JumpTarget(target, address) == ArchitecturalTarget(target, address)
       <==> Plus(address, 4) < TWO32 && Or(target * 4, Middle(address)) == target * 4
  {
    var a, middle := Plus(address, 4), Or(target * 4, Middle(address));
    JumpTargetIs(target, address, target * 4);
    SameSegmentIff(a, middle, target * 4);
  }

  lemma {:induction false} OrAtLeast(a: nat, b: nat)
    ensures Or(a, b) >= a
    decreases a
  {
    if a == 0 {
      OrZero(b);
    } else {
      OrAtLeast(a / 2, b / 2);
    }
  }

  lemma NoWordSkipped(a: u64, x: nat, t: nat)
    requires t <= x < 0x1000_0000
    ensures !(a % TWO32 / 0x1000_0000 * 0x1000_0000 + x == a && a / 0x1000_0000 * 0x1000_0000 + t == (a + 4) % TWO64)
  {
    var h := a % TWO32 / 0x1000_0000;
    if h * 0x1000_0000 + x == a {
      assert h <= 15 && a < TWO32;
      ModUnique(a, 0x1000_0000, h, x);
    }
  }

  /** A jump never lands where leaving out its slot would make up for it. */
  lemma JumpNeverSkipsAWord(target: target26, address: u64)
    ensures !(JumpTarget(target, address) == Plus(address, 4) && ArchitecturalTarget(target, address) == Plus(address, 8))
  {
    var a := Plus(address, 4);
    JumpTargetIs(target, address, target * 4);
    OrAtLeast(target * 4, Middle(address));
    NoWordSkipped(a, Or(target * 4, Middle(address)), target * 4);
    PlusPlus(address, 4, 4);
  }

  /* -------- one step -------- */

  predicate Inv<M>(c: Core<M>) { c.nullifyEnabled ==> c.branchEnabled }

  /** The next step only skips a nullified delay slot. */
  predicate Skips<M>(c: Core<M>) { c.branchEnabled && c.nullifyEnabled }

  predicate InSlot<M>(c: Core<M>) { c.branchEnabled && !c.nullifyEnabled }

  /** What the interpreter makes of a slot is what the architecture does: the slot holds no control
      transfer, or a branch that is not taken and not likely, or a transfer to the very next instruction
      after the first one's target. */
  predicate SlotIsHarmless<M>(env: Env<M>, c: Core<M>) {
    var i := env.fetch(c.data, c.branchDelaySlot);
    if i.Other? then true
    else if i.Branch? && !ArchTaken(env, c.data, i) then !i.likely
    else ArchDestination(c.data, i, c.branchDelaySlot) == Plus(c.branchTarget, 4)
  }

  /** The handler sends a transfer at `address` where the architecture does: its condition is right, or the
      plain branch goes where falling through leads anyway; and its jump mask adds nothing. */
  predicate TransferIsRight<M>(env: Env<M>, d: Data<M>, i: Instr, address: u64) {
    match i
    case Branch(_, _, _, immediate, likely, _) => ConditionIsRight(env, d, i) || (!likely && immediate == 1)
    case Jump(target, _) => JumpIsRight(target, address)
    case _ => true
  }

  /** Under a nullify flag left over from an earlier slot only a likely branch is right, which sets the flag
      anew, or a branch to its own slot that the handler takes although it should not. */
  predicate StaleIsRight<M>(env: Env<M>, d: Data<M>, i: Instr) {
    match i
    case Branch(_, _, _, immediate, likely, _) =>
      if likely then ConditionIsRight(env, d, i)
      else !ConditionIsRight(env, d, i) && !ArchTaken(env, d, i) && immediate == 0
    case Other(_) => true
    case _ => false
  }

  /** The exact condition for a step that executes an instruction. */
  predicate StepIsRight<M>(env: Env<M>, c: Core<M>) {
    if InSlot(c) then SlotIsHarmless(env, c)
    else if c.nullifyEnabled then StaleIsRight(env, c.data, env.fetch(c.data, c.pc))
    else TransferIsRight(env, c.data, env.fetch(c.data, c.pc), c.pc)
  }

  /** An untaken likely branch in a slot leaves the nullify flag set. */
  predicate LeavesTheFlag<M>(env: Env<M>, c: Core<M>) {
    InSlot(c) && var i := env.fetch(c.data, c.branchDelaySlot);
    i.Branch? && i.likely && !Taken(env, c.data, i)
  }

  lemma SkipStutters<M>(env: Env<M>, c: Core<M>)
    requires Skips(c)
    ensures Abs(Step(env, c)) == Abs(c) && Inv(Step(env, c)) && !Skips(Step(env, c))
  {}

  lemma SlotStepIff<M>(env: Env<M>, c: Core<M>)
    requires InSlot(c)
    ensures Abs(Step(env, c)) == ArchStep(env, Abs(c)) <==> SlotIsHarmless(env, c)
  {
    var i := env.fetch(c.data, c.branchDelaySlot);
    if !i.Other? { LinkIsRight(c.data, i, c.branchDelaySlot); }
  }

  /** Where the interpreter stands after a branch outside a slot. */
  lemma BranchSteps<M>(env: Env<M>, c: Core<M>, i: Instr, target: u64)
    requires !c.branchEnabled && i == env.fetch(c.data, c.pc) && i.Branch? && target == ArchDestination(c.data, i, c.pc)
    ensures var taken, slot, behind := Taken(env, c.data, i), Plus(c.pc, 4), Plus(c.pc, 8);
      var next := if taken then target else behind;
      var data := ArchLinked(c.data, i, c.pc);
      Abs(Step(env, c)) == if (if i.likely then !taken else c.nullifyEnabled) then Arch(next, Plus(next, 4), data)
                           else Arch(slot, next, data)
  {
    LinkIsRight(c.data, i, c.pc);
    BranchTargetIsRight(c.data, i, c.pc);
  }

  lemma ArchBranches<M>(env: Env<M>, c: Core<M>, i: Instr, target: u64)
    requires !c.branchEnabled && i == env.fetch(c.data, c.pc) && i.Branch? && target == ArchDestination(c.data, i, c.pc)
    ensures var taken, slot, behind := ArchTaken(env, c.data, i), Plus(c.pc, 4), Plus(c.pc, 8);
      var data := ArchLinked(c.data, i, c.pc);
      ArchStep(env, Abs(c)) == if !taken && i.likely then Arch(behind, Plus(behind, 4), data)
                               else Arch(slot, if taken then target else behind, data)
  {
    PlusPlus(c.pc, 4, 4);
    PlusPlus(c.pc, 8, 4);
    PlusPlus(c.pc, 4, 8);
  }

  lemma BranchPlaces(pc: u64, immediate: u16, target: u64)
    requires target == (pc + 4 + 4 * Halfword(immediate)) % TWO64
    ensures Plus(pc, 4) != Plus(pc, 8) && Plus(target, 4) != target && Plus(Plus(pc, 4), 4) == Plus(pc, 8)
    ensures target == Plus(pc, 4) <==> immediate == 0
    ensures target == Plus(pc, 8) <==> immediate == 1
  {}

  lemma BranchStepIff<M>(env: Env<M>, c: Core<M>, i: Instr)
    requires !c.branchEnabled && i == env.fetch(c.data, c.pc) && i.Branch?
    ensures Abs(Step(env, c)) == ArchStep(env, Abs(c)) <==> StepIsRight(env, c)
  {
    var target := ArchDestination(c.data, i, c.pc);
    BranchSteps(env, c, i, target);
    ArchBranches(env, c, i, target);
    TakenIsRightIff(env, c.data, i);
    BranchPlaces(c.pc, i.immediate, target);
  }

  lemma OtherStepIff<M>(env: Env<M>, c: Core<M>, i: Instr)
    requires !c.branchEnabled && i == env.fetch(c.data, c.pc) && !i.Branch?
    ensures Abs(Step(env, c)) == ArchStep(env, Abs(c)) <==> StepIsRight(env, c)
  {
    PlusPlus(c.pc, 4, 4);
    if !i.Other? { LinkIsRight(c.data, i, c.pc); }
    if i.Jump? {
      JumpTargetFits(i.target, c.pc);
      JumpTargetFollowsArchitectureIff(i.target, c.pc);
      JumpNeverSkipsAWord(i.target, c.pc);
    }
  }

  /** From any state at all, a step that executes an instruction is a step of the architecture exactly when
      its slot is harmless, or outside a slot, when its handler is right. */
  lemma StepSimulatesIff<M>(env: Env<M>, c: Core<M>)
    requires !Skips(c)
    ensures Abs(Step(env, c)) == ArchStep(env, Abs(c)) <==> StepIsRight(env, c)
  {
    var i := env.fetch(c.data, c.pc);
    if InSlot(c) {
      SlotStepIff(env, c);
    } else if i.Branch? {
      BranchStepIff(env, c, i);
    } else {
      OtherStepIff(env, c, i);
    }
  }

  /** A branch that its handler takes rightly is followed by its slot and then by its target. */
  lemma TakenBranchReachesItsTarget<M>(env: Env<M>, c: Core<M>, i: Instr)
    requires !c.branchEnabled && !c.nullifyEnabled && i == env.fetch(c.data, c.pc) && i.Branch? && !i.link
    requires ArchTaken(env, c.data, i) && ConditionIsRight(env, c.data, i)
    ensures var slot := (c.pc + 4) % TWO64;
      var c1 := Step(env, c);
      && Abs(c1).pc == slot && c1.data == c.data
      && (env.fetch(c.data, slot).Other? ==>
            var c2 := Step(env, c1);
            && Abs(c2).pc == (c.pc + 4 + 4 * Halfword(i.immediate)) % TWO64
            && c2.data == env.effect(c.data, env.fetch(c.data, slot), slot))
  {
    TakenIsRightIff(env, c.data, i);
    BranchTargetIsRight(c.data, i, c.pc);
  }

  /** The flag invariant survives a step exactly when the step does not execute an untaken likely
      branch in a delay slot. */
  lemma StepKeepsInvIff<M>(env: Env<M>, c: Core<M>)
    requires Inv(c)
    ensures Inv(Step(env, c)) <==> !LeavesTheFlag(env, c)
  {}

  /** A control transfer in a delay slot is dropped: execution goes on at the first branch's target. */
  lemma TransferInSlotIsDropped<M>(env: Env<M>, c: Core<M>)
    requires InSlot(c) && !env.fetch(c.data, c.branchDelaySlot).Other?
    ensures var i := env.fetch(c.data, c.branchDelaySlot);
      Abs(Step(env, c)) == Arch(c.branchTarget, Plus(c.branchTarget, 4), ArchLinked(c.data, i, c.branchDelaySlot))
  {
    LinkIsRight(c.data, env.fetch(c.data, c.branchDelaySlot), c.branchDelaySlot);
  }

  /** A flag left over from such a slot makes the next plain branch or jump lose its delay slot. */
  lemma StaleFlagSkipsALaterSlot<M>(env: Env<M>, c: Core<M>)
    requires !c.branchEnabled && c.nullifyEnabled
    requires var i := env.fetch(c.data, c.pc); !i.Other? && !(i.Branch? && i.likely)
    ensures Skips(Step(env, c)) && Step(env, Step(env, c)).data == Step(env, c).data
  {}

  /* -------- runs -------- */

  function Run<M>(env: Env<M>, c: Core<M>, n: nat): Core<M>
    decreases n
  {
    if n == 0 then c else Run(env, Step(env, c), n - 1)
  }

  function ArchRun<M>(env: Env<M>, a: Arch<M>, n: nat): Arch<M>
    decreases n
  {
    if n == 0 then a else ArchRun(env, ArchStep(env, a), n - 1)
  }

  predicate StepsAreRight<M>(env: Env<M>, c: Core<M>, n: nat)
    decreases n
  {
    n == 0 || ((Skips(c) || StepIsRight(env, c)) && StepsAreRight(env, Step(env, c), n - 1))
  }

  /** How many of the first `n` steps skip a nullified slot. */
  function Skipped<M>(env: Env<M>, c: Core<M>, n: nat): (k: nat)
    ensures k <= n
    decreases n
  {
    if n == 0 then 0 else (if Skips(c) then 1 else 0) + Skipped(env, Step(env, c), n - 1)
  }

  /** Every run of the interpreter whose steps are right is a run of the architecture, with one stutter for
      each nullified slot. */
  lemma {:induction false} RunSimulates<M>(env: Env<M>, c: Core<M>, n: nat)
    requires StepsAreRight(env, c, n)
    ensures Abs(Run(env, c, n)) == ArchRun(env, Abs(c), n - Skipped(env, c, n))
    decreases n
  {
    if n > 0 {
      RightStepTracks(env, c);
      RunSimulates(env, Step(env, c), n - 1);
    }
  }

  lemma RightStepTracks<M>(env: Env<M>, c: Core<M>)
    requires Skips(c) || StepIsRight(env, c)
    ensures Abs(Step(env, c)) == if Skips(c) then Abs(c) else ArchStep(env, Abs(c))
  {
    if Skips(c) {
      SkipStutters(env, c);
    } else {
      StepSimulatesIff(env, c);
    }
  }

  predicate InvThroughout<M>(env: Env<M>, c: Core<M>, n: nat)
    decreases n
  {
    Inv(c) && (n == 0 || InvThroughout(env, Step(env, c), n - 1))
  }

  predicate NeverLeavesTheFlag<M>(env: Env<M>, c: Core<M>, n: nat)
    decreases n
  {
    n == 0 || (!LeavesTheFlag(env, c) && NeverLeavesTheFlag(env, Step(env, c), n - 1))
  }

  /** The flag invariant holds all along a run exactly when no step of it leaves the flag set. */
  lemma {:induction false} RunKeepsInvIff<M>(env: Env<M>, c: Core<M>, n: nat)
    requires Inv(c)
    ensures InvThroughout(env, c, n) <==> NeverLeavesTheFlag(env, c, n)
    decreases n
  {
    if n > 0 {
      StepKeepsInvIff(env, c);
      if Inv(Step(env, c)) { RunKeepsInvIff(env, Step(env, c), n - 1); }
    }
  }

  /** All along the run the interpreter stands where the architecture does. */
  ghost predicate Tracks<M(!new)>(env: Env<M>, c: Core<M>, n: nat) {
    forall k: nat | k <= n :: TracksAt(env, c, k)
  }

  ghost predicate TracksAt<M(!new)>(env: Env<M>, c: Core<M>, k: nat) {
    Abs(Run(env, c, k)) == ArchRun(env, Abs(c), k - Skipped(env, c, k))
  }

  lemma {:induction false} FewerStepsAreRight<M>(env: Env<M>, c: Core<M>, n: nat, k: nat)
    requires StepsAreRight(env, c, n) && k <= n
    ensures StepsAreRight(env, c, k)
    decreases k
  {
    if k > 0 { FewerStepsAreRight(env, Step(env, c), n - 1, k - 1); }
  }

  /** From any state, a run follows the architecture at each of its steps exactly when all steps are right. */
  lemma {:induction false} RunTracksIff<M(!new)>(env: Env<M>, c: Core<M>, n: nat)
    ensures Tracks(env, c, n) <==> StepsAreRight(env, c, n)
    decreases n
  {
    if StepsAreRight(env, c, n) {
      forall k: nat | k <= n ensures TracksAt(env, c, k) {
        FewerStepsAreRight(env, c, n, k);
        RunSimulates(env, c, k);
      }
    } else if Tracks(env, c, n) {
      FirstStepTracks(env, c, n);
      LaterStepsTrack(env, c, n);
      RunTracksIff(env, Step(env, c), n - 1);
    }
  }

  lemma FirstStepTracks<M(!new)>(env: Env<M>, c: Core<M>, n: nat)
    requires Tracks(env, c, n) && n > 0
    ensures Skips(c) || StepIsRight(env, c)
    ensures Abs(Step(env, c)) == if Skips(c) then Abs(c) else ArchStep(env, Abs(c))
  {
    assert TracksAt(env, c, 1);
    assert Run(env, c, 1) == Run(env, Step(env, c), 0) == Step(env, c);
    assert Skipped(env, c, 1) == if Skips(c) then 1 else 0;
    if Skips(c) {
      SkipStutters(env, c);
    } else {
      assert ArchRun(env, Abs(c), 1) == ArchRun(env, ArchStep(env, Abs(c)), 0);
      StepSimulatesIff(env, c);
    }
  }

  lemma LaterStepsTrack<M(!new)>(env: Env<M>, c: Core<M>, n: nat)
    requires Tracks(env, c, n) && n > 0
    requires Abs(Step(env, c)) == if Skips(c) then Abs(c) else ArchStep(env, Abs(c))
    ensures Tracks(env, Step(env, c), n - 1)
  {
    forall k: nat | k <= n - 1 ensures TracksAt(env, Step(env, c), k) {
      assert TracksAt(env, c, k + 1);
      assert Run(env, c, k + 1) == Run(env, Step(env, c), k);
      var s := Skipped(env, Step(env, c), k);
      if !Skips(c) {
        assert ArchRun(env, Abs(c), k + 1 - s) == ArchRun(env, ArchStep(env, Abs(c)), k - s);
      }
    }
  }

  /** The interpreter cannot stutter twice in a row, so at least half of the steps make progress. */
  lemma {:induction false} RunProgresses<M>(env: Env<M>, c: Core<M>, n: nat)
    ensures Skipped(env, c, n) <= if Skips(c) then (n + 1) / 2 else n / 2
    decreases n
  {
    if n > 0 {
      RunProgresses(env, Step(env, c), n - 1);
      if Skips(c) {
        SkipStutters(env, c);
      } else if n > 1 {
        RunProgresses(env, Step(env, Step(env, c)), n - 2);
        if Skips(Step(env, c)) { SkipStutters(env, Step(env, c)); }
      }
    }
  }

  lemma StepCounts<M>(env: Env<M>, c: Core<M>)
    ensures Step(env, c).count == (c.count + 1) % TWO32
  {}

  lemma CountOn(start: u32, n: nat)
    requires n > 0
    ensures ((start + 1) % TWO32 + (n - 1)) % TWO32 == (start + n) % TWO32
  {}

  /** The count register counts interpreter steps, skipped slots included. */
  lemma {:induction false} CountCountsSteps<M>(env: Env<M>, c: Core<M>, n: nat)
    ensures Run(env, c, n).count == (c.count + n) % TWO32
    decreases n
  {
    if n > 0 {
      calc {
        Run(env, c, n).count;
        Run(env, Step(env, c), n - 1).count;
        { CountCountsSteps(env, Step(env, c), n - 1); }
        (Step(env, c).count + (n - 1)) % TWO32;
        { StepCounts(env, c); CountOn(c.count, n); }
        (c.count + n) % TWO32;
      }
    }
  }
}
