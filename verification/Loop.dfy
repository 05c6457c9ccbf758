/** The step loop as a sequence of states: what is proved of runs holds of the loop. */
module Loop {
  import opened LrSc
  import opened Machine
  import opened Words
  import Bus
  import Csr
  import Mmio
  import Reachable

  /** A loop that kept running went through a run with the same keyboard input. */
  lemma {:induction false} TurnsIsRun(s: State, keys: seq<Mmio.Option<bv32>>) returns (run: seq<State>)
    requires Turns(s, keys).Running?
    ensures Runs(run, keys) && run[0] == s && run[|keys|] == Turns(s, keys).state && IsRun(run)
    decreases |keys|
  {
    hide Step, Poll;
    if keys == [] {
      run := [s];
    } else {
      var t := Step(Poll(s, keys[0])).state;
      var rest := TurnsIsRun(t, keys[1..]);
      run := [s] + rest;
      forall i | 0 <= i < |keys|
        ensures Step(Poll(run[i], keys[i])) == Running(run[i + 1])
      {
        if i > 0 {
          assert Step(Poll(rest[i - 1], keys[1..][i - 1])) == Running(rest[i - 1 + 1]);
        }
      }
      RunsIsRun(run, keys);
    }
  }

  lemma RunsIsRun(run: seq<State>, keys: seq<Mmio.Option<bv32>>)
    requires Runs(run, keys)
    ensures IsRun(run)
  {
    hide Step, Poll;
    forall i | 0 <= i < |run| - 1
      ensures Follows(run[i], run[i + 1])
    {
      assert Step(Poll(run[i], keys[i])) == Running(run[i + 1]);
    }
  }

  /** From reset, whatever program was loaded, whatever the keyboard sends and however long the
      loop runs, the state it leaves satisfies the invariant. */
  lemma LoopKeepsInv(s: State, m: Bus.Mem, start: bv32, keys: seq<Mmio.Option<bv32>>)
    requires m.satp == 0 && Turns(Reachable.Boot(s, m, start), keys).Running?
    ensures Reachable.Inv(Turns(Reachable.Boot(s, m, start), keys).state)
  {
    hide Turns, Reachable.Boot, Runs, IsRun, Reachable.Inv;
    var run := TurnsIsRun(Reachable.Boot(s, m, start), keys);
    RunLength(run, keys);
    Reachable.ReachableInv(s, m, start, run, |keys|);
  }

  lemma RunLength(run: seq<State>, keys: seq<Mmio.Option<bv32>>)
    requires Runs(run, keys)
    ensures |run| == |keys| + 1
  {
    hide Step, Poll;
  }

  lemma ResetRights(s: State, kind: Bus.AccessType)
    ensures var t := Reset(s);
      t.mode == Csr.MACHINE && Bus.IsBare(t.mem.satp, HartOf(t), kind)
        && InterruptOf(t) == NO_INTERRUPT
  {
    Reachable.OwnMode(Reset(s), kind);
    hide Bus.EffectiveMode;
  }

  lemma ResetState(s: State)
    ensures var t := Reset(s);
      t.pc == 0x8000_0000 && (forall x: bv5 :: t.regs(x) == if x == 2 then 0x8010_0000 else 0) && !t.reserved
        && t.mem.dev == s.mem.dev
  {
  }

  lemma SameRights(s: State, ram: Bus.Ram)
    ensures var t := s.(mem := s.mem.(ram := ram)); HartOf(t) == HartOf(s) && InterruptOf(t) == InterruptOf(s)
  {
    hide SelectInterrupt;
  }

  lemma BootWord(ram: Bus.Ram)
    ensures Bus.GetWord(ram, 0x8000_0000) == FromBytes(ram(0x8000_0000), ram(0x8000_0001), ram(0x8000_0002), ram(0x8000_0003))
  {
    hide FromBytes;
  }

  lemma BootPage()
    ensures !Mmio.Readable(0x8000_0000) && !Bus.Straddles(0x8000_0000, 4)
  {
  }

  lemma BareFetch(m: Bus.Mem, h: Bus.Hart)
    requires Bus.IsBare(m.satp, h, Bus.InstructionFetch)
    ensures Bus.Read32(m, h, 0x8000_0000, true) == Bus.Done(Bus.GetWord(m.ram, 0x8000_0000), m)
  {
    BootPage();
    hide Bus.IsBare, Bus.Frame, Bus.Compose, Bus.Straddles, Mmio.Readable, Mmio.Read, Bus.GetWord;
    Mmio.Claims(m.dev, 0x8000_0000, 0);
  }

  /** Out of reset, with a program in RAM: the first fetch is the word at 0x80000000, the stack pointer
      is one MiB above it, the other registers are 0, and no interrupt is waiting to be taken. */
  lemma FirstFetch(s: State, program: Bus.Ram)
    ensures var r := Reset(s);
      var t := r.(mem := r.mem.(ram := program));
      && Bus.Read32(t.mem, HartOf(t), t.pc, true)
           == Bus.Done(FromBytes(program(0x8000_0000), program(0x8000_0001), program(0x8000_0002),
             program(0x8000_0003)), t.mem)
      && (forall x: bv5 :: t.regs(x) == if x == 2 then 0x8010_0000 else 0)
      && t.mode == Csr.MACHINE && !t.reserved && InterruptOf(t) == NO_INTERRUPT && t.mem.dev == s.mem.dev
  {
    ResetState(s);
    ResetRights(s, Bus.InstructionFetch);
    hide Reset, Bus.IsBare, Bus.Read32, Bus.GetWord, HartOf, InterruptOf;
    var r := Reset(s);
    BareFetch(r.mem.(ram := program), HartOf(r));
    BootWord(program);
    SameRights(r, program);
  }
}
