/** The interpreter as the object it is: handlers write the branch fields and the link registers of
    the execution state, one step at a time. */
module Interpreters {
  import opened Common
  import opened DelaySlot

  class Interpreter<M(!new)> {
    const env: Env<M>
    var pc: u64
    var branchEnabled: bool
    var branchDelaySlot: u64
    var branchTarget: u64
    var nullifyEnabled: bool
    var branchPc: u64
    var count: u32
    var data: Data<M>

    function State(): Core<M>
      reads this
    {
      Core(pc, branchEnabled, branchDelaySlot, branchTarget, nullifyEnabled, count, data)
    }

    constructor (env: Env<M>, start: u64, data: Data<M>)
      ensures this.env == env && State() == Core(start, false, 0, 0, false, 0, data)
    {
      this.env, this.data, pc, count := env, data, start, 0;
      branchEnabled, branchDelaySlot, branchTarget, nullifyEnabled, branchPc := false, 0, 0, false, 0;
    }

    method BranchTo(target: u64)
      modifies this`branchEnabled, this`branchDelaySlot, this`branchTarget
      ensures State() == DoJump(old(State()), target)
    {
      branchEnabled := true;
      branchDelaySlot := Plus(pc, 4);
      branchTarget := target;
    }

    method BranchOn(condition: bool, inst: Instr, address: u64)
      requires inst.Branch?
      modifies this`branchEnabled, this`branchDelaySlot, this`branchTarget
      ensures State() == DoBranch(old(State()), condition, inst, address)
    {
      branchEnabled := true;
      branchDelaySlot := Plus(pc, 4);
      branchTarget := if condition then BranchComputeTargetAddress(address, inst.immediate) else Plus(pc, 8);
    }

    method BranchLikelyOn(condition: bool, inst: Instr, address: u64)
      requires inst.Branch?
      modifies this`branchEnabled, this`branchDelaySlot, this`branchTarget, this`nullifyEnabled
      ensures State() == DoBranch(old(State()).(nullifyEnabled := !condition), condition, inst, address)
    {
      nullifyEnabled := !condition;
      BranchOn(condition, inst, address);
    }

    method WriteLink(index: regnum, address: u64)
      modifies this`data
      ensures data == WriteGpr(old(data), index, Plus(address, 8))
    {
      if index > 0 {
        data := data.(gpr := data.gpr[index := Plus(address, 8)]);
      }
    }

    /** A handler of `Interpreter_Branch.cs`, or the abstract effect of any other instruction. */
    method Call(inst: Instr, address: u64)
      modifies this`branchEnabled, this`branchDelaySlot, this`branchTarget, this`nullifyEnabled, this`data
      ensures State() == CallInstruction(env, old(State()), inst, address)
    {
      match inst
      case Branch(_, _, _, _, likely, link) =>
        var taken := Taken(env, data, inst);
        if likely {
          BranchLikelyOn(taken, inst, address);
        } else {
          BranchOn(taken, inst, address);
        }
        if link { WriteLink(31, address); }
      case Jump(target, link) =>
        if link { WriteLink(31, address); }
        JumpTargetFits(target, address);
        BranchTo(JumpTarget(target, address));
      case JumpRegister(rs, rd) =>
        BranchTo(data.gpr[rs]);
        WriteLink(rd, address);
      case Other(_) =>
        data := env.effect(data, inst, address);
    }

    method DoInterpreterStep()
      modifies this
      ensures State() == Step(env, old(State()))
    {
      count := (count + 1) % TWO32;
      if branchEnabled {
        pc := branchTarget;
      }
      var inst := env.fetch(data, pc);
      if branchEnabled {
        if !nullifyEnabled {
          branchPc := branchDelaySlot;
          var slot := branchDelaySlot;
          var slotInst := env.fetch(data, slot);
          Call(slotInst, slot);
          branchEnabled := false;
        } else {
          nullifyEnabled := false;
          branchEnabled := false;
        }
      } else {
        Call(inst, pc);
        if !branchEnabled {
          pc := Plus(pc, 4);
        } else {
          pc := Plus(pc, 8);
        }
      }
    }

    /** The engine's loop: `n` steps leave the state that the run specifies. */
    method StepMany(n: nat)
      modifies this
      ensures State() == Run(env, old(State()), n)
    {
      for i := 0 to n
        invariant Run(env, State(), n - i) == Run(env, old(State()), n)
      {
        DoInterpreterStep();
      }
    }
  }
}
