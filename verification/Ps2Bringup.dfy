/** The bring-up sequence of the controller, steps 3 to 9. */
module Ps2Bringup {
  import opened Bits
  import opened Wrappers
  import opened Ps2Hardware
  import opened Ps2Controller

  /** Panicked stands for the expectations that stop the kernel. */
  datatype Outcome = Panicked | Completed(hasSecondPort: bool, firstPortWorks: bool, secondPortWorks: bool)

  /** The configuration byte once both ports are off. */
  function Disabled(dual: bool, config: Byte): Byte {
    var config := SetBit(config, 4, true);
    if dual then SetBit(config, 5, true) else config
  }

  /** Steps 3 and 4: both ports off, output buffer drained. */
  method Quiesce(c: Controller)
    modifies c
    ensures c.Continues(old(c.trace), c.trace)
    ensures Commands(c.trace) == Commands(old(c.trace)) + [0xad, 0xa7]
    ensures Explains(c.m, c.trace) ==> c.State().config == Disabled(c.m.dual, old(c.State()).config)
    ensures c.loopTimeout > 0 && Explains(c.m, c.trace) && Honest(c.m, c.trace) && |old(c.State()).output| <= c.loopTimeout ==>
              c.State().output == []
  {
    DisablePorts(c);
    c.FlushDataPort();
    if c.loopTimeout > 0 && Honest(c.m, c.trace) {
      HonestIsPrompt(c.m, c.loopTimeout, c.trace);
    }
  }

  /** Step 3. */
  method DisablePorts(c: Controller)
    modifies c
    ensures c.Continues(old(c.trace), c.trace)
    ensures Commands(c.trace) == Commands(old(c.trace)) + [0xad, 0xa7]
    ensures c.State() == Hw(Disabled(c.m.dual, old(c.State()).config), old(c.State()).output, false)
  {
    c.WriteCommand(DISABLE_FIRST);
    c.WriteCommand(DISABLE_SECOND);
  }

  /** A wait timed out: for the input buffer to be free, or for an answer that is a must. */
  ghost predicate Stalled(c: Controller)
    reads c
  {
    || c.loopTimeout == 0 || Busy(c.trace)
    || c.Unanswered(c.trace, 0x20) || c.Unanswered(c.trace, 0xaa)
  }

  /** The traffic since `was` ends with the self test, given at `at` and not answered with 0x55. */
  ghost predicate SelfTestFails(c: Controller, was: Trace, at: nat)
    reads c
  {
    && Commands(c.trace) == Commands(was) + [0x20, 0x60, 0xaa]
    && GivenAt(c.trace, |was|, at, 0xaa)
    && c.m.choices(at).reply != Some(0x55)
  }

  /** What step 5 writes for the byte it has read. */
  function Step5(config: Byte): Byte {
    SetBit(SetBit(SetBit(config, 0, false), 6, false), 4, false)
  }

  /** Step 5: interrupts, translation and clock bits of port 1 cleared. */
  method ClearFirstPort(c: Controller) returns (r: Option<Byte>)
    modifies c
    ensures c.Continues(old(c.trace), c.trace)
    ensures old(c.trace) + [CommandWrite(0x20)] <= c.trace
    ensures r.Some? ==> Commands(c.trace) == Commands(old(c.trace)) + [0x20, 0x60]
    ensures r.None? ==> Stalled(c)
    ensures Explains(c.m, c.trace) && old(c.State()).output == [] && r.Some? ==>
              r.value == Step5(old(c.State()).config) && c.State() == Hw(r.value, [], false)
    ensures c.Good() && Responsive(c) && old(c.State()).output == [] ==> r.Some?
  {
    var read := c.ReadConfigByte();
    if read.None? {
      return None;
    }
    var configByte := Step5(read.value);
    var ok := c.WriteConfigByte(configByte);
    return if ok then Some(configByte) else None;
  }

  /** Step 6: a self test, which may change the byte, and the byte written again. */
  method SelfTest(c: Controller, configByte: Byte) returns (ok: bool)
    modifies c
    ensures c.Continues(old(c.trace), c.trace)
    ensures old(c.trace) + [CommandWrite(0xaa)] <= c.trace
    ensures ok ==> Commands(c.trace) == Commands(old(c.trace)) + [0xaa, 0x60]
    ensures !ok ==> Stalled(c) || Refused(c.trace)
    ensures Explains(c.m, c.trace) && old(c.State()).output == [] && ok ==>
              c.State() == Hw(configByte, [], false) && c.m.choices(|old(c.trace)|).reply == Some(0x55)
    ensures Explains(c.m, c.trace) && old(c.State()).output == [] && !ok ==>
              Stalled(c) || (Commands(c.trace) == Commands(old(c.trace)) + [0xaa]
                             && c.m.choices(|old(c.trace)|).reply != Some(0x55))
    ensures c.Good() && Responsive(c) && old(c.State()).output == [] && !ok ==>
              Commands(c.trace) == Commands(old(c.trace)) + [0xaa] && c.m.choices(|old(c.trace)|).reply != Some(0x55)
  {
    ghost var at := |c.trace|;
    var test := c.TestController();
    if Explains(c.m, c.trace) && old(c.State()).output == [] {
      AnsweredAlone(c.m.choices(at).reply, 0x55, test, c.State().output);
    }
    if test.Err? {
      assert test == Err(test.error);
      if test.error == TestFailed {
        RefusedByTest(old(c.trace), c.trace);
      }
      return false;
    }
    ok := c.WriteConfigByte(configByte);
  }

  /** Steps 5 and 6; the self test is given at `at`. */
  method Configure(c: Controller) returns (ok: bool, ghost at: nat)
    modifies c
    ensures c.Continues(old(c.trace), c.trace)
    ensures old(c.trace) + [CommandWrite(0x20)] <= c.trace
    ensures ok ==> Commands(c.trace) == Commands(old(c.trace)) + [0x20, 0x60, 0xaa, 0x60]
    ensures ok ==> GivenAt(c.trace, |old(c.trace)|, at, 0xaa)
    ensures !ok ==> Stalled(c) || Refused(c.trace)
    ensures Explains(c.m, c.trace) && old(c.State()).output == [] && ok ==>
              && c.State() == Hw(Step5(old(c.State()).config), [], false)
              && c.m.choices(at).reply == Some(0x55)
    ensures Explains(c.m, c.trace) && old(c.State()).output == [] && !ok ==> Stalled(c) || SelfTestFails(c, old(c.trace), at)
    ensures c.Good() && Responsive(c) && old(c.State()).output == [] && !ok ==> SelfTestFails(c, old(c.trace), at)
  {
    var configByte := ClearFirstPort(c);
    at := |c.trace|;
    if configByte.None? {
      return false, at;
    }
    ghost var cleared := c.trace;
    ok := SelfTest(c, configByte.value);
    assert c.trace[|cleared|] == CommandWrite(0xaa);
  }

  function Step7(config: Byte): Byte {
    SetBit(SetBit(config, 1, false), 5, false)
  }

  function Step7Commands(hasSecondPort: bool): seq<Byte> {
    [0xa8, 0x20] + if hasSecondPort then [0xa7, 0x60] else []
  }

  /** Step 7: a second port shows in bit 5 once it has been enabled. */
  method DetectSecondPort(c: Controller) returns (r: Option<bool>)
    modifies c
    ensures c.Continues(old(c.trace), c.trace)
    ensures r.Some? ==> Commands(c.trace) == Commands(old(c.trace)) + Step7Commands(r.value)
    ensures r.None? ==> Stalled(c)
    ensures c.Good() && Responsive(c) && old(c.State()).output == [] ==> r.Some?
    ensures r.Some? && Explains(c.m, c.trace) && old(c.State()).output == [] ==>
              var was := Probed(c.m.dual, old(c.State()).config);
              && r.value == !Bit(was, 5)
              && c.State() == Hw(if r.value then Step7(was) else was, [], false)
  {
    var read := ProbeSecondPort(c);
    if read.None? {
      return None;
    }
    var hasSecondPort := !Bit(read.value, 5);
    if hasSecondPort {
      var ok := PrepareSecondPort(c, read.value);
      if !ok {
        return None;
      }
    }
    return Some(hasSecondPort);
  }

  /** The byte once the second port has been enabled. */
  function Probed(dual: bool, config: Byte): Byte {
    if dual then SetBit(config, 5, false) else config
  }

  method ProbeSecondPort(c: Controller) returns (r: Option<Byte>)
    modifies c
    ensures c.Continues(old(c.trace), c.trace)
    ensures Commands(c.trace) == Commands(old(c.trace)) + [0xa8, 0x20]
    ensures r.None? ==> Stalled(c)
    ensures c.Good() && old(c.State()).output == [] ==> r.Some?
    ensures r.Some? && Explains(c.m, c.trace) && old(c.State()).output == [] ==>
              r.value == Probed(c.m.dual, old(c.State()).config) && c.State() == Hw(r.value, [], false)
  {
    c.WriteCommand(ENABLE_SECOND);
    r := c.ReadConfigByte();
  }

  method PrepareSecondPort(c: Controller, config: Byte) returns (ok: bool)
    modifies c
    ensures c.Continues(old(c.trace), c.trace)
    ensures Commands(c.trace) == Commands(old(c.trace)) + [0xa7, 0x60]
    ensures ok ==> c.State() == Hw(Step7(config), old(c.State()).output, false)
    ensures !ok ==> c.loopTimeout == 0 || Busy(c.trace)
  {
    c.WriteCommand(DISABLE_SECOND);
    ok := c.WriteConfigByte(Step7(config));
  }

  function Step9(config: Byte, first: bool, second: bool): Byte {
    var config := if first then SetBit(config, 0, true) else config;
    if second then SetBit(config, 1, true) else config
  }

  function EnableCommands(first: bool, second: bool): seq<Byte> {
    (if first then [0xae] else []) + if second then [0xa8] else []
  }

  /** Step 9: every port that works is enabled, with its interrupt. */
  method EnablePorts(c: Controller, first: bool, second: bool) returns (ok: bool)
    modifies c
    ensures c.Continues(old(c.trace), c.trace)
    ensures ok && Explains(c.m, c.trace) ==>
              c.State().config == Step9(ReadBack(old(c.State()).output, old(c.State()).config), first, second)
    ensures ok && Explains(c.m, c.trace) ==> c.State().output == (old(c.State()).output + [old(c.State()).config])[1..]
    ensures ok ==> !c.State().takesConfig
    ensures c.Good() && Responsive(c) && old(c.State()).output == [] ==> ok
    ensures old(c.trace) + [CommandWrite(0x20)] <= c.trace && (!ok ==> Stalled(c))
    ensures ok ==> Commands(c.trace) == Commands(old(c.trace)) + ([0x20] + EnableCommands(first, second) + [0x60])
  {
    var read := c.ReadConfigByte();
    if read.None? {
      return false;
    }
    SendEnables(c, first, second);
    ok := c.WriteConfigByte(Step9(read.value, first, second));
    InOneRow(Commands(old(c.trace)), [0x20], EnableCommands(first, second), [0x60]);
  }

  lemma InOneRow(a: seq<Byte>, b: seq<Byte>, c: seq<Byte>, d: seq<Byte>)
    ensures a + b + c + d == a + (b + c + d)
  {
  }

  method SendEnables(c: Controller, first: bool, second: bool)
    modifies c
    ensures c.Continues(old(c.trace), c.trace)
    ensures Commands(c.trace) == Commands(old(c.trace)) + EnableCommands(first, second)
    ensures c.State().output == old(c.State()).output
  {
    if first {
      c.WriteCommand(ENABLE_FIRST);
    }
    if second {
      c.WriteCommand(ENABLE_SECOND);
    }
  }

  /** Bit j of the configuration byte that step 9 should leave, from the byte step 5 has read. */
  predicate FinalBit(first: Byte, r: Outcome, j: nat)
    requires r.Completed?
  {
    if j == 0 then r.firstPortWorks
    else if j == 1 then (if r.hasSecondPort then r.secondPortWorks else Bit(first, 1))
    else if j == 4 || j == 6 then false
    else if j == 5 then !r.hasSecondPort
    else Bit(first, j)
  }

  ghost predicate FinalConfig(first: Byte, r: Outcome, final: Byte)
    requires r.Completed?
  {
    forall j: nat :: j < 8 ==> (Bit(final, j) <==> FinalBit(first, r, j))
  }

  lemma BitOfStep5(config: Byte, j: nat)
    requires j < 8
    ensures Bit(Step5(config), j) <==> j != 0 && j != 4 && j != 6 && Bit(config, j)
  {
    var a, b := SetBit(config, 0, false), SetBit(SetBit(config, 0, false), 6, false);
    BitOfSetBit(config, 0, false, j);
    BitOfSetBit(a, 6, false, j);
    BitOfSetBit(b, 4, false, j);
  }

  lemma BitOfStep7(config: Byte, j: nat)
    requires j < 8
    ensures Bit(Step7(config), j) <==> j != 1 && j != 5 && Bit(config, j)
  {
    BitOfSetBit(config, 1, false, j);
    BitOfSetBit(SetBit(config, 1, false), 5, false, j);
  }

  lemma BitOfStep9(config: Byte, first: bool, second: bool, j: nat)
    requires j < 8
    ensures Bit(Step9(config, first, second), j) <==> (j == 0 && first) || (j == 1 && second) || Bit(config, j)
  {
    var a := if first then SetBit(config, 0, true) else config;
    BitOfSetBit(config, 0, true, j);
    BitOfSetBit(a, 1, true, j);
  }

  /** Step 9 keeps the configuration exactly when nothing waits, or the first byte that waits is no
      different from it in the bits that step 9 does not set. */
  lemma WaitingByteIsHarmlessIff(waiting: seq<Byte>, config: Byte, first: bool, second: bool)
    ensures SameBits(Step9(ReadBack(waiting, config), first, second), Step9(config, first, second)) <==>
            Harmless(waiting, config, first, second)
  {
    var read := ReadBack(waiting, config);
    assert waiting == [] ==> read == config;
    assert waiting != [] ==> read == waiting[0];
    forall j: nat | j < 8
      ensures Bit(Step9(read, first, second), j) <==> !Untouched(j, first, second) || Bit(read, j)
      ensures Bit(Step9(config, first, second), j) <==> !Untouched(j, first, second) || Bit(config, j)
    {
      BitOfStep9(read, first, second, j);
      BitOfStep9(config, first, second, j);
    }
    if SameBits(Step9(read, first, second), Step9(config, first, second)) {
      forall j: nat | j < 8 && Untouched(j, first, second)
        ensures Bit(read, j) <==> Bit(config, j)
      {
        assert Bit(Step9(read, first, second), j) <==> Bit(Step9(config, first, second), j);
      }
    }
  }

  ghost predicate Harmless(waiting: seq<Byte>, config: Byte, first: bool, second: bool) {
    waiting == [] || forall j: nat :: j < 8 && Untouched(j, first, second) ==> (Bit(waiting[0], j) <==> Bit(config, j))
  }

  predicate Untouched(j: nat, first: bool, second: bool) {
    !(j == 0 && first) && !(j == 1 && second)
  }

  ghost predicate SameBits(a: Byte, b: Byte) {
    forall j: nat :: j < 8 ==> (Bit(a, j) <==> Bit(b, j))
  }

  /** The byte in the controller when the port tests start. */
  function BeforeTests(dual: bool, first: Byte, hasSecondPort: bool): Byte {
    var restored := Step5(first);
    var was := if dual then SetBit(restored, 5, false) else restored;
    if hasSecondPort then Step7(was) else was
  }

  lemma BitOfBeforeTests(dual: bool, first: Byte, hasSecondPort: bool, j: nat)
    requires j < 8
    ensures Bit(BeforeTests(dual, first, hasSecondPort), j) <==>
            && j != 0 && j != 4 && j != 6 && (dual ==> j != 5) && (hasSecondPort ==> j != 1 && j != 5)
            && Bit(first, j)
  {
    var restored := Step5(first);
    BitOfStep5(first, j);
    BitOfSetBit(restored, 5, false, j);
    BitOfStep7(if dual then SetBit(restored, 5, false) else restored, j);
  }

  lemma BringUpBits(dual: bool, first: Byte, r: Outcome)
    requires r.Completed? && (r.secondPortWorks ==> r.hasSecondPort)
    requires r.hasSecondPort == (dual || !Bit(first, 5))
    ensures FinalConfig(first, r, Step9(BeforeTests(dual, first, r.hasSecondPort), r.firstPortWorks, r.secondPortWorks))
  {
    BitOfStep5(first, 5);
    var before := BeforeTests(dual, first, r.hasSecondPort);
    forall j: nat | j < 8
      ensures Bit(Step9(before, r.firstPortWorks, r.secondPortWorks), j) <==>
              (j == 0 && r.firstPortWorks) || (j == 1 && r.secondPortWorks) || Bit(before, j)
    {
      BitOfStep9(before, r.firstPortWorks, r.secondPortWorks, j);
    }
    forall j: nat | j < 8 {
      BitOfBeforeTests(dual, first, r.hasSecondPort, j);
    }
  }

  /** The bits required are all eight. */
  lemma FinalConfigIff(first: Byte, r: Outcome, a: Byte, b: Byte)
    requires r.Completed? && FinalConfig(first, r, a)
    ensures FinalConfig(first, r, b) <==> SameBits(a, b)
  {
  }

  /** What step 9 leaves, against what it should leave. */
  lemma FinalConfigIffHarmless(dual: bool, first: Byte, r: Outcome, waiting: seq<Byte>)
    requires r.Completed? && (r.secondPortWorks ==> r.hasSecondPort)
    requires r.hasSecondPort == (dual || !Bit(first, 5))
    ensures
      var before := BeforeTests(dual, first, r.hasSecondPort);
      FinalConfig(first, r, Step9(ReadBack(waiting, before), r.firstPortWorks, r.secondPortWorks)) <==>
      Harmless(waiting, before, r.firstPortWorks, r.secondPortWorks)
  {
    var before := BeforeTests(dual, first, r.hasSecondPort);
    BitOfStep5(first, 5);
    BringUpBits(dual, first, r);
    WaitingByteIsHarmlessIff(waiting, before, r.firstPortWorks, r.secondPortWorks);
    FinalConfigIff(first, r, Step9(before, r.firstPortWorks, r.secondPortWorks),
                   Step9(ReadBack(waiting, before), r.firstPortWorks, r.secondPortWorks));
  }

  function Step8Commands(hasSecondPort: bool): seq<Byte> {
    [0xab] + if hasSecondPort then [0xa9] else []
  }

  /** What the controller answers to the tests of step 8. */
  function TestReplies(m: Machine, hasSecondPort: bool): seq<Byte> {
    Reply(m.firstPort) + if hasSecondPort then Reply(m.secondPort) else []
  }

  /** From `was` to `now` the configuration is kept, and what waits are the bytes that waited before
      and the replies, less as many bytes as have been read. */
  ghost predicate AnsweredBy(m: Machine, was: Trace, now: Trace, replies: seq<Byte>) {
    && After(m, now).config == After(m, was).config
    && LeftOver(After(m, was).output + replies, |Received(now)| - |Received(was)|, After(m, now).output)
  }

  lemma AnsweredTwice(m: Machine, was: Trace, between: Trace, now: Trace, first: seq<Byte>, second: seq<Byte>)
    requires AnsweredBy(m, was, between, first) && AnsweredBy(m, between, now, second)
    ensures AnsweredBy(m, was, now, first + second)
  {
    LeftOverTwice(After(m, was).output, first, second, |Received(between)| - |Received(was)|, After(m, between).output,
                  |Received(now)| - |Received(between)|, After(m, now).output);
  }

  /** Step 8. Its tests are given at `at1` and `at2`. */
  method TestPorts(c: Controller, hasSecondPort: bool) returns (first: bool, second: bool, ghost at1: nat, ghost at2: nat)
    modifies c
    ensures c.Continues(old(c.trace), c.trace)
    ensures Commands(c.trace) == Commands(old(c.trace)) + Step8Commands(hasSecondPort)
    ensures at1 == |old(c.trace)| && GivenAt(c.trace, at1, at1, 0xab)
    ensures hasSecondPort ==> GivenAt(c.trace, at1 + 1, at2, 0xa9)
    ensures second ==> hasSecondPort
    ensures Explains(c.m, c.trace) ==>
              AnsweredBy(c.m, old(c.trace), c.trace, TestReplies(c.m, hasSecondPort))
    ensures c.Good() && old(c.State()).output == [] ==>
              && c.State().output == []
              && first == (c.m.firstPort == Some(0x00))
              && second == (hasSecondPort && c.m.secondPort == Some(0x00))
  {
    first, at1 := TestIfPresent(c, true, TEST_FIRST);
    ghost var tested := c.trace;
    second, at2 := TestIfPresent(c, hasSecondPort, TEST_SECOND);
    assert c.trace[at1] == tested[at1];
    if Explains(c.m, c.trace) {
      AnsweredTwice(c.m, old(c.trace), tested, c.trace, Reply(c.m.firstPort), if hasSecondPort then Reply(c.m.secondPort) else []);
    }
  }

  /** One port test, of a port that is there. */
  method TestIfPresent(c: Controller, present: bool, command: Byte) returns (works: bool, ghost at: nat)
    requires command == 0xab || command == 0xa9
    modifies c
    ensures c.Continues(old(c.trace), c.trace)
    ensures Commands(c.trace) == Commands(old(c.trace)) + if present then [command] else []
    ensures at == |old(c.trace)| && (present ==> GivenAt(c.trace, at, at, command))
    ensures works ==> present
    ensures Explains(c.m, c.trace) ==> AnsweredBy(c.m, old(c.trace), c.trace, if present then Reply(PortReply(c.m, command)) else [])
    ensures c.Good() && old(c.State()).output == [] ==>
              c.State().output == [] && works == (present && PortReply(c.m, command) == Some(0x00))
  {
    works, at := false, |c.trace|;
    ghost var waiting := c.State().output;
    if present {
      var test := c.TestPort(command);
      works := test.Ok?;
      if Explains(c.m, c.trace) {
        AnsweredLeaves(waiting + Reply(PortReply(c.m, command)), 0x00, test, c.State().output);
      }
    }
  }

  /** `left` is what remains of `bytes` once k of them have been read. */
  ghost predicate LeftOver(bytes: seq<Byte>, k: int, left: seq<Byte>) {
    0 <= k <= |bytes| && left == bytes[k..]
  }

  lemma AnsweredLeaves(waiting: seq<Byte>, pass: Byte, r: Result<(), ControllerError>, left: seq<Byte>)
    requires Answered(waiting, pass, r, left)
    ensures LeftOver(waiting, if r == Err(Timeout) then 0 else 1, left)
  {
  }

  lemma LeftOverTwice(w: seq<Byte>, a: seq<Byte>, b: seq<Byte>, k: int, mid: seq<Byte>, l: int, left: seq<Byte>)
    requires LeftOver(w + a, k, mid) && LeftOver(mid + b, l, left)
    ensures LeftOver(w + (a + b), k + l, left)
  {
    assert w + (a + b) == w + a + b;
  }

  /** When the self test and the port tests were given. */
  datatype Moments = Moments(at0: nat, at1: nat, at2: nat)

  /** `now` continues `was` by steps 5 to 8, with their commands in order and each test at its
      moment. */
  ghost predicate Prepared(was: Trace, now: Trace, r: Outcome, at: Moments)
    requires r.Completed?
  {
    && |was| <= at.at0 < at.at1 < |now|
    && now[at.at0] == CommandWrite(0xaa) && now[at.at1] == CommandWrite(0xab)
    && (r.hasSecondPort ==> GivenAt(now, at.at1 + 1, at.at2, 0xa9))
    && Commands(now[..at.at1]) == Commands(was) + ([0x20, 0x60, 0xaa, 0x60] + Step7Commands(r.hasSecondPort))
    && Commands(now) == Commands(now[..at.at1]) + Step8Commands(r.hasSecondPort)
  }

  /** What waits after step 8 on a controller with nothing waiting before: the replies to its
      tests, less as many as it has read. */
  ghost predicate OnlyReplies(m: Machine, tested: Trace, r: Outcome, at: Moments)
    requires r.Completed? && at.at1 <= |tested|
  {
    LeftOver(TestReplies(m, r.hasSecondPort),
             |Received(tested)| - |Received(tested[..at.at1])|, After(m, tested).output)
  }

  /** The first port works exactly when the controller answers 0xAB with 0x00, the second when it
      is there and the controller answers 0xA9 with 0x00. */
  ghost predicate WorkAsTested(m: Machine, r: Outcome)
    requires r.Completed?
  {
    && r.firstPortWorks == (m.firstPort == Some(0x00))
    && r.secondPortWorks == (r.hasSecondPort && m.secondPort == Some(0x00))
  }

  /** Steps 5 to 7. */
  method ConfigureAndDetect(c: Controller) returns (r: Option<bool>, ghost at0: nat)
    modifies c
    ensures c.Continues(old(c.trace), c.trace)
    ensures old(c.trace) + [CommandWrite(0x20)] <= c.trace
    ensures r.None? ==> Stalled(c) || Refused(c.trace)
    ensures r.Some? ==>
              && GivenAt(c.trace, |old(c.trace)|, at0, 0xaa)
              && Commands(c.trace) == Commands(old(c.trace)) + ([0x20, 0x60, 0xaa, 0x60] + Step7Commands(r.value))
    ensures r.Some? && Explains(c.m, c.trace) && old(c.State()).output == [] ==>
              && r.value == (c.m.dual || !Bit(old(c.State()).config, 5))
              && c.State() == Hw(BeforeTests(c.m.dual, old(c.State()).config, r.value), [], false)
              && c.m.choices(at0).reply == Some(0x55)
    ensures Explains(c.m, c.trace) && old(c.State()).output == [] && r.None? ==> Stalled(c) || SelfTestFails(c, old(c.trace), at0)
    ensures c.Good() && Responsive(c) && old(c.State()).output == [] && r.None? ==> SelfTestFails(c, old(c.trace), at0)
  {
    ghost var first := c.State().config;
    var ok;
    ok, at0 := Configure(c);
    if !ok {
      return None, at0;
    }
    BitOfStep5(first, 5);
    ghost var configured := c.trace;
    r := DetectSecondPort(c);
    BitOfSetBit(Step5(first), 5, false, 5);
    assert c.trace[at0] == configured[at0];
  }

  /** Steps 5 to 8. */
  method Prepare(c: Controller) returns (r: Outcome, ghost at: Moments)
    modifies c
    ensures c.Continues(old(c.trace), c.trace)
    ensures old(c.trace) + [CommandWrite(0x20)] <= c.trace
    ensures r.Completed? ==> Prepared(old(c.trace), c.trace, r, at) && (r.secondPortWorks ==> r.hasSecondPort)
    ensures r.Panicked? ==> Stalled(c) || Refused(c.trace)
    ensures r.Completed? && Explains(c.m, c.trace) && old(c.State()).output == [] ==>
              && r.hasSecondPort == (c.m.dual || !Bit(old(c.State()).config, 5))
              && c.State().config == BeforeTests(c.m.dual, old(c.State()).config, r.hasSecondPort)
              && c.m.choices(at.at0).reply == Some(0x55)
              && OnlyReplies(c.m, c.trace, r, at)
    ensures r.Completed? && c.Good() && old(c.State()).output == [] ==>
              c.State().output == [] && WorkAsTested(c.m, r)
    ensures Explains(c.m, c.trace) && old(c.State()).output == [] && r.Panicked? ==> Stalled(c) || SelfTestFails(c, old(c.trace), at.at0)
    ensures c.Good() && Responsive(c) && old(c.State()).output == [] && r.Panicked? ==> SelfTestFails(c, old(c.trace), at.at0)
  {
    var detected;
    ghost var at0, at1, at2;
    detected, at0 := ConfigureAndDetect(c);
    r, at := Panicked, Moments(at0, 0, 0);
    if detected.None? {
      return;
    }
    ghost var before := c.trace;
    var firstPortWorks, secondPortWorks;
    firstPortWorks, secondPortWorks, at1, at2 := TestPorts(c, detected.value);
    r, at := Completed(detected.value, firstPortWorks, secondPortWorks), Moments(at0, at1, at2);
    assert c.trace[..at1] == before && c.trace[at0] == before[at0];
    if Explains(c.m, c.trace) && After(c.m, before).output == [] {
      RepliesAlone(c.m, before, c.trace, r, at);
    }
  }

  lemma RepliesAlone(m: Machine, before: Trace, tested: Trace, r: Outcome, at: Moments)
    requires r.Completed? && at.at1 <= |tested| && tested[..at.at1] == before && After(m, before).output == []
    requires AnsweredBy(m, before, tested, TestReplies(m, r.hasSecondPort))
    ensures OnlyReplies(m, tested, r, at)
  {
    var replies := TestReplies(m, r.hasSecondPort);
    assert After(m, before).output + replies == replies;
  }

  /** `now` continues `drained` by steps 5 to 9 with their commands in order, `tested` up to step 9;
      after a panic, by a part of them. */
  ghost predicate Continued(drained: Trace, tested: Trace, now: Trace, r: Outcome, at: Moments) {
    && drained + [CommandWrite(0x20)] <= now
    && (r.Completed? ==>
          && drained <= tested && Prepared(drained, tested, r, at)
          && tested + [CommandWrite(0x20)] <= now
          && Commands(now) == Commands(tested) + ([0x20] + EnableCommands(r.firstPortWorks, r.secondPortWorks) + [0x60]))
  }

  /** What a run of steps 5 to 9 that completes has come to, on a controller with the byte `first`
      and nothing waiting when it starts. */
  ghost predicate CompletedRight(m: Machine, first: Byte, tested: Trace, final: Byte, r: Outcome, at: Moments)
    requires r.Completed? && at.at1 <= |tested|
  {
    var before := BeforeTests(m.dual, first, r.hasSecondPort);
    && m.choices(at.at0).reply == Some(0x55)
    && r.hasSecondPort == (m.dual || !Bit(first, 5))
    && After(m, tested).config == before && OnlyReplies(m, tested, r, at)
    && (FinalConfig(first, r, final) <==> Harmless(After(m, tested).output, before, r.firstPortWorks, r.secondPortWorks))
  }

  /** Steps 5 to 9. */
  method ConfigureAndEnable(c: Controller) returns (r: Outcome, ghost tested: Trace, ghost at: Moments)
    modifies c
    ensures c.Continues(old(c.trace), c.trace) && Continued(old(c.trace), tested, c.trace, r, at)
    ensures r.Completed? ==> !c.State().takesConfig
    ensures r.Panicked? ==> Stalled(c) || Refused(c.trace)
    ensures r.Completed? && Explains(c.m, c.trace) && old(c.State()).output == [] ==>
              CompletedRight(c.m, old(c.State()).config, tested, c.State().config, r, at)
    ensures r.Completed? && c.Good() && old(c.State()).output == [] ==>
              && After(c.m, tested).output == [] && c.State().output == [] && WorkAsTested(c.m, r)
              && FinalConfig(old(c.State()).config, r, c.State().config)
    ensures Explains(c.m, c.trace) && old(c.State()).output == [] && r.Panicked? ==> Stalled(c) || SelfTestFails(c, old(c.trace), at.at0)
    ensures c.Good() && Responsive(c) && old(c.State()).output == [] && r.Panicked? ==> SelfTestFails(c, old(c.trace), at.at0)
  {
    ghost var first, drained := c.State(), c.trace;
    r, at := Prepare(c);
    tested := c.trace;
    if r.Panicked? {
      return;
    }
    var ok := EnablePorts(c, r.firstPortWorks, r.secondPortWorks);
    if !ok {
      r := Panicked;
      return;
    }
    if Explains(c.m, c.trace) && first.output == [] {
      CompletesRight(c.m, first.config, tested, c.State().config, r, at);
    }
  }

  lemma CompletesRight(m: Machine, first: Byte, tested: Trace, final: Byte, r: Outcome, at: Moments)
    requires r.Completed? && at.at1 <= |tested| && (r.secondPortWorks ==> r.hasSecondPort)
    requires m.choices(at.at0).reply == Some(0x55) && r.hasSecondPort == (m.dual || !Bit(first, 5))
    requires After(m, tested).config == BeforeTests(m.dual, first, r.hasSecondPort) && OnlyReplies(m, tested, r, at)
    requires final == Step9(ReadBack(After(m, tested).output, After(m, tested).config), r.firstPortWorks, r.secondPortWorks)
    ensures CompletedRight(m, first, tested, final, r, at)
    ensures After(m, tested).output == [] ==> FinalConfig(first, r, final)
  {
    FinalConfigIffHarmless(m.dual, first, r, After(m, tested).output);
  }

  /** The same from step 3 on, with `drained` up to the end of the flush. */
  ghost predicate Scripted(was: Trace, drained: Trace, tested: Trace, now: Trace, r: Outcome, at: Moments) {
    && was <= drained && Commands(drained) == Commands(was) + [0xad, 0xa7]
    && Continued(drained, tested, now, r, at)
  }

  /** Steps 3 to 9. A run that completes leaves the right configuration exactly when the bytes
      waiting at step 9, which are replies to the port tests not yet read, are harmless; a run that
      panics has waited in vain or has failed the self test. On a prompt controller no byte waits,
      and a run completes exactly when the self test is answered with 0x55. */
  method BringUp(c: Controller) returns (r: Outcome, ghost drained: Trace, ghost tested: Trace, ghost at: Moments)
    modifies c
    ensures c.Continues(old(c.trace), c.trace) && Scripted(old(c.trace), drained, tested, c.trace, r, at)
    ensures r.Completed? ==> !c.State().takesConfig
    ensures r.Panicked? ==> Stalled(c) || Refused(c.trace)
    ensures Explains(c.m, c.trace) ==> After(c.m, drained).config == Disabled(c.m.dual, old(c.State()).config)
    ensures c.loopTimeout > 0 && Explains(c.m, c.trace) && Honest(c.m, drained) && |old(c.State()).output| <= c.loopTimeout ==>
              After(c.m, drained).output == []
    ensures r.Completed? && Explains(c.m, c.trace) && After(c.m, drained).output == [] ==>
              CompletedRight(c.m, Disabled(c.m.dual, old(c.State()).config), tested, c.State().config, r, at)
    ensures r.Completed? && c.Good() && After(c.m, drained).output == [] ==>
              && After(c.m, tested).output == [] && c.State().output == [] && WorkAsTested(c.m, r)
              && FinalConfig(Disabled(c.m.dual, old(c.State()).config), r, c.State().config)
    ensures Explains(c.m, c.trace) && After(c.m, drained).output == [] && r.Panicked? ==> Stalled(c) || SelfTestFails(c, drained, at.at0)
    ensures c.Good() && Responsive(c) && After(c.m, drained).output == [] && r.Panicked? ==> SelfTestFails(c, drained, at.at0)
  {
    Quiesce(c);
    drained := c.trace;
    r, tested, at := ConfigureAndEnable(c);
  }

  /** All the commands of a run that completes, in order. */
  lemma ScriptedBytes(was: Trace, drained: Trace, tested: Trace, now: Trace, r: Outcome, at: Moments)
    requires r.Completed? && Scripted(was, drained, tested, now, r, at)
    ensures Commands(now) == Commands(was) + [0xad, 0xa7, 0x20, 0x60, 0xaa, 0x60, 0xa8, 0x20]
                             + (if r.hasSecondPort then [0xa7, 0x60] else [])
                             + [0xab] + (if r.hasSecondPort then [0xa9] else [])
                             + [0x20] + (if r.firstPortWorks then [0xae] else []) + (if r.secondPortWorks then [0xa8] else [])
                             + [0x60]
  {
    Flat(Commands(was), if r.hasSecondPort then [0xa7, 0x60] else [], if r.hasSecondPort then [0xa9] else [],
         if r.firstPortWorks then [0xae] else [], if r.secondPortWorks then [0xa8] else []);
  }

  /** The commands step by step, and in one row. */
  lemma Flat(base: seq<Byte>, x: seq<Byte>, y: seq<Byte>, f: seq<Byte>, g: seq<Byte>)
    ensures base + [0xad, 0xa7] + ([0x20, 0x60, 0xaa, 0x60] + ([0xa8, 0x20] + x)) + ([0xab] + y) + ([0x20] + (f + g) + [0x60])
         == base + [0xad, 0xa7, 0x20, 0x60, 0xaa, 0x60, 0xa8, 0x20] + x + [0xab] + y + [0x20] + f + g + [0x60]
  {
    var steps5To7 := base + [0xad, 0xa7] + ([0x20, 0x60, 0xaa, 0x60] + ([0xa8, 0x20] + x));
    FlatStart(base, x);
    var a := base + [0xad, 0xa7, 0x20, 0x60, 0xaa, 0x60, 0xa8, 0x20] + x;
    assert steps5To7 + ([0xab] + y) == a + [0xab] + y;
    FlatEnd(a + [0xab] + y, f, g);
  }

  lemma FlatStart(base: seq<Byte>, x: seq<Byte>)
    ensures base + [0xad, 0xa7] + ([0x20, 0x60, 0xaa, 0x60] + ([0xa8, 0x20] + x))
         == base + [0xad, 0xa7, 0x20, 0x60, 0xaa, 0x60, 0xa8, 0x20] + x
  {
  }

  lemma FlatEnd(a: seq<Byte>, f: seq<Byte>, g: seq<Byte>)
    ensures a + ([0x20] + (f + g) + [0x60]) == a + [0x20] + f + g + [0x60]
  {
  }

  /** The final byte, bit by bit, against the byte that the controller had at the start. */
  lemma FinalBits(dual: bool, config: Byte, r: Outcome, final: Byte)
    requires r.Completed? && FinalConfig(Disabled(dual, config), r, final)
    requires r.hasSecondPort == (dual || !Bit(Disabled(dual, config), 5))
    ensures r.hasSecondPort <==> dual || !Bit(config, 5)
    ensures (Bit(final, 0) <==> r.firstPortWorks) && (Bit(final, 1) <==> if r.hasSecondPort then r.secondPortWorks else Bit(config, 1))
    ensures !Bit(final, 4) && (Bit(final, 5) <==> !r.hasSecondPort) && !Bit(final, 6)
    ensures (Bit(final, 2) <==> Bit(config, 2)) && (Bit(final, 3) <==> Bit(config, 3)) && (Bit(final, 7) <==> Bit(config, 7))
  {
    forall j: nat | j < 8
      ensures j != 4 && (dual ==> j != 5) ==> (Bit(Disabled(dual, config), j) <==> Bit(config, j))
      ensures Bit(final, j) <==> FinalBit(Disabled(dual, config), r, j)
    {
      BitOfSetBit(config, 4, true, j);
      BitOfSetBit(SetBit(config, 4, true), 5, true, j);
    }
  }

  /** On the ports of any controller that hides nothing and has at most 1000 bytes waiting, nothing
      is left to assume. */
  method BringUpOpenly(m: Machine) returns (c: Controller, r: Outcome, ghost drained: Trace, ghost tested: Trace, ghost at: Moments)
    requires |m.initial.output| <= 1000
    ensures fresh(c) && c.m == m && Disciplined(c.trace) && Scripted([], drained, tested, c.trace, r, at)
    ensures r.Panicked? ==> SelfTestFails(c, drained, at.at0)
    ensures r.Completed? ==>
              && r.hasSecondPort == (m.dual || !Bit(Disabled(m.dual, m.initial.config), 5))
              && m.choices(at.at0).reply == Some(0x55) && WorkAsTested(m, r)
              && FinalConfig(Disabled(m.dual, m.initial.config), r, c.State().config)
  {
    c := new Controller(StatusOf(m, NothingHidden()), DataOf(m), m);
    r, drained, tested, at := BringUpOnOpenPorts(c);
  }

  function NothingHidden(): Trace -> bool {
    t => false
  }

  /** Fresh ports that hide nothing. */
  ghost predicate OpenPorts(c: Controller)
    reads c
  {
    c.trace == [] && c.status == StatusOf(c.m, NothingHidden()) && c.data == DataOf(c.m) && c.loopTimeout == 1000
  }

  method BringUpOnOpenPorts(c: Controller) returns (r: Outcome, ghost drained: Trace, ghost tested: Trace, ghost at: Moments)
    requires OpenPorts(c) && |c.m.initial.output| <= 1000
    modifies c
    ensures Disciplined(c.trace) && Scripted([], drained, tested, c.trace, r, at)
    ensures r.Panicked? ==> SelfTestFails(c, drained, at.at0)
    ensures r.Completed? ==>
              && r.hasSecondPort == (c.m.dual || !Bit(Disabled(c.m.dual, c.m.initial.config), 5))
              && c.m.choices(at.at0).reply == Some(0x55) && WorkAsTested(c.m, r)
              && FinalConfig(Disabled(c.m.dual, c.m.initial.config), r, c.State().config)
  {
    r, drained, tested, at := BringUp(c);
    OpenTraffic(c, drained);
  }

  /** Traffic with such ports leaves nothing to assume. */
  lemma OpenTraffic(c: Controller, drained: Trace)
    requires Genuine(c.status, c.data, c.trace) && Disciplined(c.trace) && drained <= c.trace
    requires c.status == StatusOf(c.m, NothingHidden()) && c.data == DataOf(c.m) && c.loopTimeout > 0
    ensures c.Good() && Responsive(c) && Explains(c.m, c.trace) && Honest(c.m, drained)
  {
    OpenRun(c.m, c.loopTimeout, NothingHidden(), c.trace);
    HonestPrefix(c.m, drained, c.trace);
  }

  // Late replies do harm

  /** A controller with nothing waiting that answers every test with 0x55. */
  function EagerMachine(dual: bool, config: Byte): Machine {
    Machine(dual, Hw(config, [], false), Some(0x55), Some(0x55), _ => Choice(Some(0x55), config, []))
  }

  /** A reply to a port test is only shown after the next other command. */
  function UntilNextCommand(): Trace -> bool {
    t => EndsWithPortTest(Commands(t))
  }

  predicate EndsWithPortTest(commands: seq<Byte>) {
    |commands| > 0 && (commands[|commands| - 1] == 0xab || commands[|commands| - 1] == 0xa9)
  }

  lemma CommandLeavesAByte(dual: bool, config: Byte, before: Trace, command: Byte)
    requires command == 0x20 || command == 0xaa
    ensures After(EagerMachine(dual, config), before + [CommandWrite(command)]).output != []
    ensures !UntilNextCommand()(before + [CommandWrite(command)])
  {
    AfterEvent(EagerMachine(dual, config), before, CommandWrite(command));
    TrafficStep(before, CommandWrite(command));
  }

  /** There neither the configuration byte nor the reply to the self test is ever late. */
  lemma AnsweredInTime(dual: bool, config: Byte, t: Trace, i: nat, command: Byte)
    requires Genuine(StatusOf(EagerMachine(dual, config), UntilNextCommand()), DataOf(EagerMachine(dual, config)), t)
    requires i + 1 < |t| && t[i] == CommandWrite(command) && (command == 0x20 || command == 0xaa)
    ensures !Silent(t, i + 1, |t|)
  {
    var asked := t[..i] + [CommandWrite(command)];
    assert t[..i + 1] == asked;
    if t[i + 1].StatusRead? {
      CommandLeavesAByte(dual, config, t[..i], command);
      ShownWhenPolled(EagerMachine(dual, config), UntilNextCommand(), asked, t);
    }
  }

  /** Nothing is hidden before the port tests. */
  lemma FlushIsHonest(m: Machine, drained: Trace)
    requires Genuine(StatusOf(m, UntilNextCommand()), DataOf(m), drained)
    requires Commands(drained) == [0xad, 0xa7]
    ensures Honest(m, drained)
  {
    forall i: nat | i < |drained|
      ensures !UntilNextCommand()(drained[..i])
    {
      ShownInFlush(drained, i);
    }
    OpenIsHonest(m, UntilNextCommand(), drained);
  }

  lemma ShownInFlush(drained: Trace, i: nat)
    requires i <= |drained| && Commands(drained) == [0xad, 0xa7]
    ensures !EndsWithPortTest(Commands(drained[..i]))
  {
    CommandsGrow(drained[..i], drained);
    DisablesOnly(Commands(drained[..i]));
  }

  lemma DisablesOnly(commands: seq<Byte>)
    requires commands <= [0xad, 0xa7]
    ensures !EndsWithPortTest(commands)
  {
    if commands != [] {
      assert commands[|commands| - 1] == [0xad, 0xa7][|commands| - 1];
    }
  }

  /** Step 8 reads nothing. */
  lemma TestsTimeOut(m: Machine, tested: Trace, at1: nat, hasSecondPort: bool)
    requires Genuine(StatusOf(m, UntilNextCommand()), DataOf(m), tested) && Disciplined(tested)
    requires at1 < |tested| && tested[at1] == CommandWrite(0xab)
    requires Commands(tested) == Commands(tested[..at1]) + Step8Commands(hasSecondPort)
    ensures Received(tested) == Received(tested[..at1])
  {
    forall j: nat | at1 < j < |tested|
      ensures UntilNextCommand()(tested[..j])
    {
      HiddenInStep8(tested, at1, hasSecondPort, j);
    }
    NothingReadWhileHidden(m, UntilNextCommand(), tested, at1);
  }

  lemma HiddenInStep8(tested: Trace, at1: nat, hasSecondPort: bool, j: nat)
    requires at1 < j <= |tested| && tested[at1] == CommandWrite(0xab)
    requires Commands(tested) == Commands(tested[..at1]) + Step8Commands(hasSecondPort)
    ensures EndsWithPortTest(Commands(tested[..j]))
  {
    CommandsUpTo(tested, at1, 0xab);
    CommandsGrow(tested[..at1 + 1], tested[..j]);
    CommandsGrow(tested[..j], tested);
    EndsInStep8(Commands(tested[..at1]), Commands(tested[..j]), hasSecondPort);
  }

  lemma CommandsUpTo(t: Trace, i: nat, command: Byte)
    requires i < |t| && t[i] == CommandWrite(command)
    ensures Commands(t[..i + 1]) == Commands(t[..i]) + [command]
  {
    assert t[..i + 1] == t[..i] + [CommandWrite(command)];
    TrafficStep(t[..i], CommandWrite(command));
  }

  lemma EndsInStep8(before: seq<Byte>, commands: seq<Byte>, hasSecondPort: bool)
    requires before + [0xab] <= commands <= before + Step8Commands(hasSecondPort)
    ensures EndsWithPortTest(commands)
  {
    var last := |commands| - 1;
    assert commands[last] == (before + Step8Commands(hasSecondPort))[last];
  }

  /** A reply 0x55 taken for the configuration byte sets bit 6, which step 5 has cleared. */
  lemma WrongByteIsHarmful(dual: bool, first: Byte, r: Outcome, waiting: seq<Byte>)
    requires r.Completed? && waiting != [] && waiting[0] == 0x55
    ensures !Harmless(waiting, BeforeTests(dual, first, r.hasSecondPort), r.firstPortWorks, r.secondPortWorks)
  {
    BitOfBeforeTests(dual, first, r.hasSecondPort, 6);
    assert Bit(0x55, 6);
    assert Untouched(6, r.firstPortWorks, r.secondPortWorks);
  }

  /** What is known of a run on such ports. */
  lemma LateRun(dual: bool, config: Byte, drained: Trace, t: Trace)
    requires Genuine(StatusOf(EagerMachine(dual, config), UntilNextCommand()), DataOf(EagerMachine(dual, config)), t)
    requires Disciplined(t) && drained <= t && Commands(drained) == [0xad, 0xa7]
    ensures Explains(EagerMachine(dual, config), t) && TakesInput(t) && Honest(EagerMachine(dual, config), drained)
  {
    var m := EagerMachine(dual, config);
    GenuineIsExplained(m, UntilNextCommand(), t);
    GenuineTakesInput(m, UntilNextCommand(), t);
    GenuinePrefix(StatusOf(m, UntilNextCommand()), DataOf(m), drained, t);
    FlushIsHonest(m, drained);
  }

  lemma NeverUnanswered(dual: bool, config: Byte, c: Controller, command: Byte)
    requires Genuine(StatusOf(EagerMachine(dual, config), UntilNextCommand()), DataOf(EagerMachine(dual, config)), c.trace)
    requires c.loopTimeout > 0 && (command == 0x20 || command == 0xaa)
    ensures !c.Unanswered(c.trace, command)
  {
    if c.Unanswered(c.trace, command) {
      AnsweredInTime(dual, config, c.trace, |c.trace| - 1 - c.loopTimeout, command);
    }
  }

  lemma NeverStalls(dual: bool, config: Byte, c: Controller)
    requires Genuine(StatusOf(EagerMachine(dual, config), UntilNextCommand()), DataOf(EagerMachine(dual, config)), c.trace)
    requires TakesInput(c.trace) && c.loopTimeout > 0
    ensures !Stalled(c)
  {
    NeverUnanswered(dual, config, c, 0x20);
    NeverUnanswered(dual, config, c, 0xaa);
  }

  /** At step 9 the reply to the first port test waits. */
  lemma ReplyWaits(dual: bool, config: Byte, first: Byte, drained: Trace, tested: Trace, t: Trace, r: Outcome, at: Moments)
    requires Genuine(StatusOf(EagerMachine(dual, config), UntilNextCommand()), DataOf(EagerMachine(dual, config)), t)
    requires Disciplined(t) && tested <= t && r.Completed? && Prepared(drained, tested, r, at)
    requires OnlyReplies(EagerMachine(dual, config), tested, r, at)
    ensures !Harmless(After(EagerMachine(dual, config), tested).output, BeforeTests(dual, first, r.hasSecondPort),
                      r.firstPortWorks, r.secondPortWorks)
  {
    var m := EagerMachine(dual, config);
    GenuinePrefix(StatusOf(m, UntilNextCommand()), DataOf(m), tested, t);
    DisciplinePrefix(tested, t);
    TestsTimeOut(m, tested, at.at1, r.hasSecondPort);
    WrongByteIsHarmful(dual, first, r, After(m, tested).output);
  }

  /** On such ports, whatever the configuration and with or without a second port, a whole run
      completes and leaves a wrong configuration byte. */
  method LateReplyLosesConfig(dual: bool, config: Byte)
    returns (c: Controller, r: Outcome, ghost drained: Trace, ghost tested: Trace, ghost at: Moments)
    ensures fresh(c) && c.m == EagerMachine(dual, config) && Explains(c.m, c.trace) && Disciplined(c.trace)
    ensures r.Completed? && Scripted([], drained, tested, c.trace, r, at)
    ensures !FinalConfig(Disabled(dual, config), r, c.State().config)
  {
    var m := EagerMachine(dual, config);
    c := new Controller(StatusOf(m, UntilNextCommand()), DataOf(m), m);
    r, drained, tested, at := BringUpLate(c, dual, config);
  }

  lemma LateTraffic(c: Controller, dual: bool, config: Byte, drained: Trace)
    requires Genuine(c.status, c.data, c.trace) && Disciplined(c.trace) && c.m == EagerMachine(dual, config) && c.loopTimeout > 0
    requires c.status == StatusOf(c.m, UntilNextCommand()) && c.data == DataOf(c.m)
    requires drained <= c.trace && Commands(drained) == [0xad, 0xa7]
    ensures Explains(c.m, c.trace) && Honest(c.m, drained) && !Stalled(c)
  {
    LateRun(dual, config, drained, c.trace);
    NeverStalls(dual, config, c);
  }

  method BringUpLate(c: Controller, dual: bool, config: Byte)
    returns (r: Outcome, ghost drained: Trace, ghost tested: Trace, ghost at: Moments)
    requires c.trace == [] && c.m == EagerMachine(dual, config) && c.loopTimeout > 0
    requires c.status == StatusOf(c.m, UntilNextCommand()) && c.data == DataOf(c.m)
    modifies c
    ensures Explains(c.m, c.trace) && Disciplined(c.trace)
    ensures r.Completed? && Scripted([], drained, tested, c.trace, r, at)
    ensures !FinalConfig(Disabled(dual, config), r, c.State().config)
  {
    r, drained, tested, at := BringUp(c);
    LateTraffic(c, dual, config, drained);
    assert r.Completed?;
    ReplyWaits(dual, config, Disabled(dual, config), drained, tested, c.trace, r, at);
  }
}
