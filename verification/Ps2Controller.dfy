/** The driver's port operations: every access waits, bounded, for the status to allow it. */
module Ps2Controller {
  import opened Bits
  import opened Wrappers
  import opened Ps2Hardware

  // The commands the driver gives

  const READ_CONFIG: Byte := 0x20
  const WRITE_CONFIG: Byte := 0x60
  const DISABLE_SECOND: Byte := 0xa7
  const ENABLE_SECOND: Byte := 0xa8
  const TEST_SECOND: Byte := 0xa9
  const TEST_CONTROLLER: Byte := 0xaa
  const TEST_FIRST: Byte := 0xab
  const DISABLE_FIRST: Byte := 0xad
  const ENABLE_FIRST: Byte := 0xae
  const WRITE_SECOND_INPUT: Byte := 0xd4

  datatype ControllerError = Timeout | TestFailed

  class Controller {
    /** The hardware: what a read of the status port and of the data port returns, as any
        functions of the traffic so far. */
    const status: Trace -> Byte
    const data: Trace -> Byte
    const loopTimeout: nat
    var trace: Trace
    /** A controller the traffic is compared with; any one. */
    ghost const m: Machine

    constructor (status: Trace -> Byte, data: Trace -> Byte, ghost m: Machine)
      ensures trace == [] && this.status == status && this.data == data && this.m == m && loopTimeout == 1000
    {
      this.status, this.data, this.m := status, data, m;
      loopTimeout := 1000;
      trace := [];
    }

    ghost function State(): Hw
      reads this
    {
      After(m, trace)
    }

    /** The traffic so far is that of the controller `m`, and none of its replies came late. */
    ghost predicate Good()
      reads this
    {
      Explains(m, trace) && Prompt(m, loopTimeout, trace)
    }

    /** What every operation keeps: discipline and genuine reads; and traffic that is explained,
        or prompt, was so before. */
    ghost predicate Continues(was: Trace, now: Trace) {
      && was <= now
      && (Disciplined(was) ==> Disciplined(now))
      && (Genuine(status, data, was) ==> Genuine(status, data, now))
      && (Explains(m, now) ==> Explains(m, was))
      && (Prompt(m, loopTimeout, now) ==> Prompt(m, loopTimeout, was))
    }

    /** `now` extends `was` by polls and one read of the data port. */
    ghost predicate Fetched(was: Trace, now: Trace) {
      |now| > |was| && OnlyPolls(was, now[..|now| - 1]) && now[|now| - 1].DataRead?
    }

    /** `now` extends `was` by as many polls as the timeout allows, none of them reporting a byte. */
    ghost predicate TimedOut(was: Trace, now: Trace) {
      OnlyPolls(was, now) && |now| == |was| + loopTimeout && Silent(now, |was|, |now|)
    }

    /** The last command was this one, and as many polls as the timeout allows reported no reply. */
    ghost predicate Unanswered(t: Trace, command: Byte) {
      && |t| > loopTimeout && t[|t| - 1 - loopTimeout] == CommandWrite(command)
      && Silent(t, |t| - loopTimeout, |t|)
    }

    ghost predicate PolledGenuinely(was: Trace, now: Trace) {
      Genuine(status, data, was) ==> Genuine(status, data, now)
    }

    /** Polls are enough for it to continue. */
    lemma PollsContinue(was: Trace, now: Trace)
      requires OnlyPolls(was, now) && PolledGenuinely(was, now)
      ensures Continues(was, now)
    {
      Polled(m, loopTimeout, was, now);
    }

    /** One read of the status port. */
    method Poll() returns (v: Byte)
      modifies this
      ensures trace == old(trace) + [StatusRead(v)] && PolledGenuinely(old(trace), trace)
    {
      v := status(trace);
      trace := trace + [StatusRead(v)];
      GenuineStep(status, data, old(trace), StatusRead(v));
    }

    method ReadStatus() returns (v: Byte)
      modifies this
      ensures trace == old(trace) + [StatusRead(v)]
      ensures State() == old(State()) && Continues(old(trace), trace)
      ensures Honest(m, trace) && old(State()).output != [] ==> OutputFull(v)
      ensures Good() && OutputFull(v) ==> old(State()).output != []
    {
      v := Poll();
      PollsContinue(old(trace), trace);
      AfterEvent(m, old(trace), StatusRead(v));
      assert trace[..|old(trace)|] == old(trace) && trace[|old(trace)|] == StatusRead(v);
    }

    method WriteCommand(command: Byte)
      modifies this
      ensures trace == old(trace) + [CommandWrite(command)]
      ensures State() == OnCommand(m, old(State()), command, m.choices(|old(trace)|))
      ensures Continues(old(trace), trace)
      ensures Commands(trace) == Commands(old(trace)) + [command] && Received(trace) == Received(old(trace))
    {
      trace := trace + [CommandWrite(command)];
      TrafficStep(old(trace), CommandWrite(command));
      AfterEvent(m, old(trace), CommandWrite(command));
      GenuineStep(status, data, old(trace), CommandWrite(command));
      if Prompt(m, loopTimeout, trace) {
        PromptPrefix(m, loopTimeout, old(trace), trace);
      }
    }

    /** Polls until a byte waits. */
    method WaitForRead() returns (ok: bool)
      modifies this
      ensures OnlyPolls(old(trace), trace) && Continues(old(trace), trace)
      ensures |trace| <= |old(trace)| + loopTimeout
      ensures ok ==> |trace| > |old(trace)| && trace[|trace| - 1].value % 2 == 1
      ensures !ok ==> TimedOut(old(trace), trace)
    {
      for count := 0 to loopTimeout
        invariant OnlyPolls(old(trace), trace) && PolledGenuinely(old(trace), trace)
        invariant |trace| == |old(trace)| + count && Silent(trace, |old(trace)|, |trace|)
      {
        var s := Poll();
        if OutputFull(s) {
          PollsContinue(old(trace), trace);
          return true;
        }
      }
      PollsContinue(old(trace), trace);
      return false;
    }

    /** Polls until the controller has taken the last byte. */
    method WaitForWrite() returns (ok: bool)
      modifies this
      ensures OnlyPolls(old(trace), trace) && Continues(old(trace), trace)
      ensures |trace| <= |old(trace)| + loopTimeout
      ensures ok ==> |trace| > |old(trace)| && trace[|trace| - 1].value / 2 % 2 == 0
      ensures !ok ==> loopTimeout == 0 || Busy(trace)
    {
      for count := 0 to loopTimeout
        invariant OnlyPolls(old(trace), trace) && PolledGenuinely(old(trace), trace)
        invariant |trace| == |old(trace)| + count
        invariant count > 0 ==> Busy(trace)
      {
        var s := Poll();
        if !InputFull(s) {
          PollsContinue(old(trace), trace);
          return true;
        }
      }
      PollsContinue(old(trace), trace);
      return false;
    }

    /** Reads one byte, or nothing at all when the wait times out. */
    method ReadData() returns (r: Option<Byte>)
      modifies this
      ensures r.Some? ==> Fetched(old(trace), trace) && trace[|trace| - 1].value == r.value
      ensures r.None? ==> TimedOut(old(trace), trace)
      ensures |trace| <= |old(trace)| + loopTimeout + 1
      ensures Continues(old(trace), trace)
      ensures Commands(trace) == Commands(old(trace)) && Received(trace) == Received(old(trace)) + Reply(r)
      ensures r.None? ==> State() == old(State()) && (Good() ==> State().output == [])
      ensures Explains(m, trace) && r.Some? ==> old(State()).output != [] && r.value == old(State()).output[0]
      ensures Explains(m, trace) && r.Some? ==> State() == old(State()).(output := old(State()).output[1..])
    {
      var ok := WaitForRead();
      ghost var polled := trace;
      if !ok {
        Polled(m, loopTimeout, old(trace), trace);
        PollsCarryNothing(old(trace), trace);
        if Good() {
          TimeoutMeansEmpty(old(trace));
        }
        return None;
      }
      var v := data(trace);
      trace := trace + [DataRead(v)];
      PolledThen(m, loopTimeout, old(trace), polled, DataRead(v));
      GenuineStep(status, data, polled, DataRead(v));
      LastEvent(old(trace), trace);
      return Some(v);
    }

    lemma TimeoutMeansEmpty(was: Trace)
      requires Good() && TimedOut(was, trace)
      ensures After(m, was).output == [] && Prompt(m, loopTimeout, was)
    {
      assert trace[..|was|] == was;
      PromptPrefix(m, loopTimeout, was, trace);
    }

    /** Writes one byte, or nothing at all when the wait times out. */
    method WriteData(v: Byte) returns (ok: bool)
      modifies this
      ensures ok ==> |trace| > |old(trace)| && OnlyPolls(old(trace), trace[..|trace| - 1]) && trace[|trace| - 1] == DataWrite(v)
      ensures !ok ==> OnlyPolls(old(trace), trace) && (loopTimeout == 0 || Busy(trace))
      ensures Continues(old(trace), trace)
      ensures Commands(trace) == Commands(old(trace))
      ensures State() == if ok then OnData(old(State()), v, m.choices(|trace| - 1)) else old(State())
    {
      ok := WaitForWrite();
      ghost var polled := trace;
      if !ok {
        Polled(m, loopTimeout, old(trace), trace);
        PollsCarryNothing(old(trace), trace);
        return false;
      }
      trace := trace + [DataWrite(v)];
      PolledThen(m, loopTimeout, old(trace), polled, DataWrite(v));
      GenuineStep(status, data, polled, DataWrite(v));
      LastEvent(old(trace), trace);
      return true;
    }

    /** Drains the output buffer; ends on any hardware, within a bound quadratic in the timeout. */
    method FlushDataPort()
      modifies this
      ensures Continues(old(trace), trace) && Commands(trace) == Commands(old(trace))
      ensures |trace| <= |old(trace)| + loopTimeout * (loopTimeout + 2) + 1
      ensures Explains(m, trace) ==> State().config == old(State()).config
      ensures Good() && Honest(m, trace) && |old(State()).output| <= loopTimeout ==> State().output == []
    {
      ghost var count := FlushRounds();
      SpentBound(loopTimeout, count);
    }

    /** Its loop, up to a poll that reports nothing or until the count runs out. */
    method FlushRounds() returns (ghost rounds: nat)
      modifies this
      ensures rounds <= loopTimeout && Flushing(old(trace), trace, rounds)
      ensures |trace| <= |old(trace)| + Spent(loopTimeout, rounds) + 1
      ensures rounds == loopTimeout || (Honest(m, trace) ==> State().output == [])
    {
      var count := 0;
      while true
        invariant count <= loopTimeout
        invariant Flushing(old(trace), trace, count)
        invariant |trace| <= |old(trace)| + Spent(loopTimeout, count)
        decreases loopTimeout - count
      {
        var s := CheckOutput(old(trace), count);
        if !(OutputFull(s) && count < loopTimeout) {
          return count;
        }
        Discard(old(trace), count);
        count := count + 1;
      }
    }

    /** A flush that began at `was` and has read `count` times. */
    ghost predicate Flushing(was: Trace, now: Trace, count: nat) {
      && Continues(was, now) && Commands(now) == Commands(was)
      && (Explains(m, now) ==> After(m, now).config == After(m, was).config)
      && (Explains(m, now) && Prompt(m, loopTimeout, now) ==>
            count <= |After(m, was).output| && After(m, now).output == After(m, was).output[count..])
    }

    /** The poll that begins a round of a flush. */
    method CheckOutput(ghost was: Trace, ghost count: nat) returns (s: Byte)
      requires Flushing(was, trace, count)
      modifies this
      ensures Flushing(was, trace, count) && |trace| == |old(trace)| + 1
      ensures Good() && OutputFull(s) ==> State().output != []
      ensures Honest(m, trace) && !OutputFull(s) ==> State().output == []
    {
      s := ReadStatus();
      PollsCarryNothing(old(trace), trace);
    }

    /** One read of a flush; its result is dropped. */
    method Discard(ghost was: Trace, ghost count: nat)
      requires Flushing(was, trace, count)
      requires Good() ==> State().output != []
      modifies this
      ensures Flushing(was, trace, count + 1)
      ensures old(trace) <= trace && |trace| <= |old(trace)| + loopTimeout + 1
    {
      ghost var waiting, here := After(m, was).output, State().output;
      var _ := ReadData();
      assert Good() ==> here == waiting[count..] && here[1..] == waiting[count + 1..];
    }

    /** A command, then one byte, or nothing when the wait times out. */
    method Ask(command: Byte) returns (r: Option<Byte>)
      modifies this
      ensures Continues(old(trace), trace) && old(trace) + [CommandWrite(command)] <= trace
      ensures Commands(trace) == Commands(old(trace)) + [command] && Received(trace) == Received(old(trace)) + Reply(r)
      ensures r.None? ==> Unanswered(trace, command)
      ensures r.Some? ==> |trace| > 0 && trace[|trace| - 1] == DataRead(r.value)
      ensures r.None? && Good() ==> State().output == []
      ensures
        var asked := OnCommand(m, old(State()), command, m.choices(|old(trace)|));
        && (r.None? ==> State() == asked)
        && (Explains(m, trace) && r.Some? ==>
              asked.output != [] && r.value == asked.output[0] && State() == asked.(output := asked.output[1..]))
    {
      WriteCommand(command);
      r := ReadData();
    }

    /** Command 0x20, then one byte. */
    method ReadConfigByte() returns (r: Option<Byte>)
      modifies this
      ensures Continues(old(trace), trace)
      ensures Good() && old(State()).output == [] ==> r.Some?
      ensures Explains(m, trace) && r.Some? ==>
                var waiting := old(State()).output + [old(State()).config];
                r.value == waiting[0] && State() == Hw(old(State()).config, waiting[1..], false)
      ensures old(trace) + [CommandWrite(0x20)] <= trace && Commands(trace) == Commands(old(trace)) + [0x20]
      ensures r.None? ==> Unanswered(trace, 0x20)
    {
      r := Ask(READ_CONFIG);
    }

    /** Command 0x60, then the byte. */
    method WriteConfigByte(config: Byte) returns (ok: bool)
      modifies this
      ensures Continues(old(trace), trace)
      ensures ok ==> State() == Hw(config, old(State()).output, false)
      ensures !ok ==> loopTimeout == 0 || Busy(trace)
      ensures Commands(trace) == Commands(old(trace)) + [0x60]
    {
      WriteCommand(WRITE_CONFIG);
      ok := WriteData(config);
    }

    /** Command 0xAA; anything but 0x55 is a failure. */
    method TestController() returns (r: Result<(), ControllerError>)
      modifies this
      ensures Continues(old(trace), trace)
      ensures Explains(m, trace) ==>
                Answered(old(State()).output + Reply(m.choices(|old(trace)|).reply), 0x55, r, State().output)
      ensures Good() && r == Err(Timeout) ==> State().output == []
      ensures old(trace) + [CommandWrite(0xaa)] <= trace && Commands(trace) == Commands(old(trace)) + [0xaa]
      ensures r == Err(Timeout) ==> Unanswered(trace, 0xaa)
      ensures r == Err(TestFailed) ==> trace[|trace| - 1].DataRead? && trace[|trace| - 1].value != 0x55
    {
      var response := Ask(TEST_CONTROLLER);
      r := if response.None? then Err(Timeout) else if response.value == 0x55 then Ok(()) else Err(TestFailed);
    }

    /** Command 0xAB or 0xA9; anything but 0x00 is a failure. */
    method TestPort(command: Byte) returns (r: Result<(), ControllerError>)
      requires command == 0xab || command == 0xa9
      modifies this
      ensures Continues(old(trace), trace)
      ensures Explains(m, trace) ==>
                && State().config == old(State()).config
                && Answered(old(State()).output + Reply(PortReply(m, command)), 0x00, r, State().output)
      ensures Good() && r == Err(Timeout) ==> State().output == []
      ensures old(trace) + [CommandWrite(command)] <= trace && Commands(trace) == Commands(old(trace)) + [command]
      ensures |Received(trace)| == |Received(old(trace))| + if r == Err(Timeout) then 0 else 1
    {
      var response := Ask(command);
      r := if response.None? then Err(Timeout) else if response.value == 0x00 then Ok(()) else Err(TestFailed);
    }
  }

  /** The controller's reply to the test of the port that the command names. */
  function PortReply(m: Machine, command: Byte): Option<Byte> {
    if command == 0xab then m.firstPort else if command == 0xa9 then m.secondPort else None
  }

  /** Writes do not time out. */
  ghost predicate Responsive(c: Controller)
    reads c
  {
    c.loopTimeout > 0 && TakesInput(c.trace)
  }

  /** A test takes the first byte of those waiting, its own reply last, and passes exactly on
      `pass`; a test that times out takes none. */
  ghost predicate Answered(waiting: seq<Byte>, pass: Byte, r: Result<(), ControllerError>, left: seq<Byte>) {
    if r == Err(Timeout) then left == waiting
    else waiting != [] && left == waiting[1..] && (r.Ok? <==> waiting[0] == pass)
  }

  /** With nothing else waiting, a test that gets a byte gets its own reply. */
  lemma AnsweredAlone(reply: Option<Byte>, pass: Byte, r: Result<(), ControllerError>, left: seq<Byte>)
    requires Answered([] + Reply(reply), pass, r, left)
    ensures r != Err(Timeout) ==> left == [] && (r.Ok? <==> reply == Some(pass))
    ensures r == Err(Timeout) ==> left == Reply(reply)
  {
    assert [] + Reply(reply) == Reply(reply);
  }

  /** The most accesses that `count` rounds of a flush make. */
  ghost function Spent(timeout: nat, count: nat): nat {
    if count == 0 then 0 else Spent(timeout, count - 1) + timeout + 2
  }

  lemma {:induction false} SpentBound(timeout: nat, count: nat)
    requires count <= timeout
    ensures Spent(timeout, count) <= timeout * (timeout + 2)
  {
    SpentProduct(timeout, count);
    assert count * (timeout + 2) <= timeout * (timeout + 2);
  }

  lemma {:induction false} SpentProduct(timeout: nat, count: nat)
    ensures Spent(timeout, count) == count * (timeout + 2)
  {
    if count > 0 {
      SpentProduct(timeout, count - 1);
    }
  }
}
