/** The emulated AVR as the server sees it: its run-state, its data memory
    and the one primitive it calls, `avr_run`. What an instruction does is
    the emulation engine's business; the model receives it as an oracle. */
module Cpu {

  newtype byte = x: int | 0 <= x < 256

  /** simavr's `cpu_*` run-states. */
  datatype RunState = Limbo | Stopped | Running | Sleeping | Step | StepDone | Done | Crashed

  /** The two states at which `step` stops early. */
  predicate Terminal(s: RunState) {
    s == Done || s == Crashed
  }

  /** What one `avr_run` call does: the run-state it leaves the CPU in (and
      returns), and the bytes of data memory it stores, by address. */
  datatype Cycle = Cycle(state: RunState, stores: map<int, byte>)

  /** The engine's behaviour: the outcome of the `k`-th `avr_run` call of
      the process. Every possible execution is one such function. */
  type Engine = nat -> Cycle

  /** Data memory after the stores of one cycle; addresses outside the
      memory are not written. */
  function Store(mem: seq<byte>, stores: map<int, byte>): (r: seq<byte>)
    ensures |r| == |mem|
    ensures forall a :: 0 <= a < |mem| ==> r[a] == (if a in stores then stores[a] else mem[a])
  {
    seq(|mem|, a requires 0 <= a < |mem| => if a in stores then stores[a] else mem[a])
  }

  /** Data memory after the `count` calls numbered `first`, `first + 1`, ...
      have stored their bytes, in call order. */
  function Replay(e: Engine, first: nat, count: nat, mem: seq<byte>): (r: seq<byte>)
    ensures |r| == |mem|
    decreases count
  {
    if count == 0 then mem
    else Store(Replay(e, first, count - 1, mem), e(first + count - 1).stores)
  }

  /** The `avr_t` instance: `state`, the `data` array, and the engine behind
      it. `runCalls` counts the `avr_run` calls made so far; it selects the
      engine's next outcome. */
  class Avr {
    var state: RunState
    const data: array<byte>
    const engine: Engine
    var runCalls: nat

    constructor (state0: RunState, memory: array<byte>, e: Engine)
      ensures state == state0 && data == memory && engine == e && runCalls == 0
    {
      state := state0;
      data := memory;
      engine := e;
      runCalls := 0;
    }

    /** `avr_run`: executes one cycle, leaves the CPU in the engine's next
        state and returns that state. */
    method Run() returns (s: RunState)
      modifies this, data
      ensures runCalls == old(runCalls) + 1
      ensures s == state == engine(old(runCalls)).state
      ensures data[..] == Store(old(data[..]), engine(old(runCalls)).stores)
    {
      var c := engine(runCalls);
      forall a | 0 <= a < data.Length && a in c.stores {
        data[a] := c.stores[a];
      }
      state := c.state;
      runCalls := runCalls + 1;
      s := state;
    }
  }
}
