/** The whole of ps2::init: the controller brought up, then its devices reset. */
module Ps2Init {
  import opened Bits
  import opened Wrappers
  import opened Ps2Hardware
  import opened Ps2Controller
  import opened Ps2Bringup
  import opened Ps2Devices

  /** The bytes received from the keyboard reset, the mouse reset and the mouse's data reporting. */
  datatype Replies = Replies(keyboard: seq<Byte>, mouse: seq<Byte>, reporting: seq<Byte>)

  /** The replies on which step 10 succeeds: the mouse has to answer whether or not there is a
      second port. */
  ghost predicate AllAnswered(got: Replies, secondPortWorks: bool) {
    && got.keyboard == [0xfa, 0xaa]
    && |got.mouse| == 3 && got.mouse[0] == 0xfa && got.mouse[1] == 0xaa
    && got.reporting == if secondPortWorks then [0xfa] else []
  }

  /** The indices at which the bytes of step 10 were written, none or one each. */
  datatype Writes = Writes(keyboard: seq<nat>, mouse: seq<nat>, reporting: seq<nat>)

  function MouseBytes(secondPortWorks: bool): seq<Byte> {
    [0xff] + if secondPortWorks then [0xf4] else []
  }

  /** What the mouse's part needs of the bytes waiting and the answers to its writes. */
  ghost predicate MouseAnswers(m: Machine, waiting: seq<Byte>, secondPortWorks: bool, mouse: seq<nat>, reporting: seq<nat>) {
    var stream := waiting + AnswersTo(m, mouse);
    BeginsWithReset(stream) && (secondPortWorks ==> [0xfa] <= stream[3..] + AnswersTo(m, reporting))
  }

  /** What step 10 needs: each part begins where the one before has stopped reading. */
  ghost predicate DevicesAnswer(m: Machine, waiting: seq<Byte>, secondPortWorks: bool, at: Writes) {
    var stream := waiting + AnswersTo(m, at.keyboard);
    [0xfa, 0xaa] <= stream && MouseAnswers(m, stream[2..], secondPortWorks, at.mouse, at.reporting)
  }

  /** No part that is due has been skipped. */
  ghost predicate MouseAsked(m: Machine, waiting: seq<Byte>, secondPortWorks: bool, mouse: seq<nat>, reporting: seq<nat>) {
    |mouse| == 1 && (secondPortWorks && BeginsWithReset(waiting + AnswersTo(m, mouse)) ==> |reporting| == 1)
  }

  ghost predicate DevicesAsked(m: Machine, waiting: seq<Byte>, secondPortWorks: bool, at: Writes) {
    var stream := waiting + AnswersTo(m, at.keyboard);
    |at.keyboard| == 1 && ([0xfa, 0xaa] <= stream ==> MouseAsked(m, stream[2..], secondPortWorks, at.mouse, at.reporting))
  }

  /** The mouse's part: reset always, data reporting only on a second port that works. */
  method ResetMouse(c: Controller, secondPortWorks: bool)
    returns (ok: bool, ghost mouse: seq<Byte>, ghost reporting: seq<Byte>, ghost at1: seq<nat>, ghost at2: seq<nat>)
    modifies c
    ensures old(c.trace) + [CommandWrite(0xd4)] <= c.trace
    ensures |at1| <= 1 && |at1 + at2| <= |MouseBytes(secondPortWorks)|
    ensures Handshake(c, old(c.trace), c.trace, mouse + reporting, MouseBytes(secondPortWorks)[..|at1 + at2|], at1 + at2)
    ensures ok <==> |mouse| == 3 && mouse[0] == 0xfa && mouse[1] == 0xaa && reporting == if secondPortWorks then [0xfa] else []
    ensures ok ==> |at1 + at2| == |MouseBytes(secondPortWorks)|
    ensures Explains(c.m, c.trace) && old(c.State()).output == [] && !old(c.State()).takesConfig && Mute(c.m, |old(c.trace)|) ==> !ok
    ensures c.Good() && Responsive(c) && !old(c.State()).takesConfig ==>
              && MouseAsked(c.m, old(c.State()).output, secondPortWorks, at1, at2)
              && (ok <==> MouseAnswers(c.m, old(c.State()).output, secondPortWorks, at1, at2))
  {
    var reset;
    ghost var sent;
    reset, mouse, sent, at1 := MouseReset(c);
    ok, reporting, at2 := reset.Ok?, [], [];
    ghost var between := c.trace;
    if Explains(c.m, c.trace) && Mute(c.m, |old(c.trace)|) {
      MuteAnswersNothing(c.m, |old(c.trace)|, at1);
    }
    if ok && secondPortWorks {
      var report;
      ghost var more;
      report, reporting, more, at2 := EnableDataReporting(c);
      ok := report.Ok?;
      HandshakesCompose(c, old(c.trace), between, c.trace, mouse, reporting, sent, more, at1, at2);
      sent := sent + more;
    } else {
      assert mouse + [] == mouse && at1 + [] == at1;
    }
    assert sent == MouseBytes(secondPortWorks)[..|at1 + at2|];
  }

  /** Step 10 from `up` to `now`, with `keyed` up to the mouse reset: what was read and written. */
  ghost predicate Reset(c: Controller, up: Trace, keyed: Trace, now: Trace, got: Replies, at: Writes, secondPortWorks: bool) {
    && |at.keyboard| <= 1 && |at.mouse| <= 1 && |at.mouse + at.reporting| <= |MouseBytes(secondPortWorks)|
    && Handshake(c, up, keyed, got.keyboard, [0xff][..|at.keyboard|], at.keyboard)
    && Handshake(c, keyed, now, got.mouse + got.reporting, MouseBytes(secondPortWorks)[..|at.mouse + at.reporting|], at.mouse + at.reporting)
    && (got.keyboard == [0xfa, 0xaa] ==> keyed + [CommandWrite(0xd4)] <= now)
    && (AllAnswered(got, secondPortWorks) ==> |at.keyboard| == 1 && |at.mouse + at.reporting| == |MouseBytes(secondPortWorks)|)
  }

  /** Step 10; `ok` is false where the source panics. On a prompt controller it succeeds exactly
      when the bytes waiting and the answers to its writes are what it needs. */
  method ResetDevices(c: Controller, secondPortWorks: bool)
    returns (ok: bool, ghost got: Replies, ghost keyed: Trace, ghost at: Writes)
    modifies c
    ensures c.Continues(old(c.trace), c.trace) && Reset(c, old(c.trace), keyed, c.trace, got, at, secondPortWorks)
    ensures ok <==> AllAnswered(got, secondPortWorks)
    ensures Explains(c.m, c.trace) ==> KeepsConfig(old(c.State()), c.State())
    ensures Explains(c.m, c.trace) && After(c.m, keyed).output == [] && !old(c.State()).takesConfig && Mute(c.m, |keyed|) ==> !ok
    ensures c.Good() && Responsive(c) && !old(c.State()).takesConfig ==>
              && DevicesAsked(c.m, old(c.State()).output, secondPortWorks, at)
              && (ok <==> DevicesAnswer(c.m, old(c.State()).output, secondPortWorks, at))
  {
    var keyboard;
    ghost var sent, mouse, reporting, at0, at1, at2;
    keyboard, mouse, sent, at0 := KeyboardReset(c);
    got, at, keyed := Replies(mouse, [], []), Writes(at0, [], []), c.trace;
    assert sent == [0xff][..|at0|];
    if keyboard.Err? {
      NoHandshake(c, c.trace, secondPortWorks);
      return false, got, keyed, at;
    }
    ok, mouse, reporting, at1, at2 := ResetMouse(c, secondPortWorks);
    got, at := Replies(got.keyboard, mouse, reporting), Writes(at0, at1, at2);
    if c.Good() && Responsive(c) {
      TakesInputPrefix(keyed, c.trace);
    }
  }

  lemma NoHandshake(c: Controller, t: Trace, secondPortWorks: bool)
    ensures Handshake(c, t, t, [] + [], MouseBytes(secondPortWorks)[..0], [] + [])
  {
    assert AnswersTo(c.m, []) == [];
    var w := After(c.m, t).output;
    assert w + [] == [] + w;
  }

  /** Steps 3 to 10; `up` is the traffic up to step 10 and `keyed` that up to the mouse reset. A run
      ends normally exactly when the bring-up completes and keyboard and mouse give all their
      replies, and leaves the configuration that step 9 left. On a prompt controller the replies
      all come exactly when the answers to the writes are what step 10 needs. */
  method Init(c: Controller)
    returns (ok: bool, r: Outcome, ghost drained: Trace, ghost tested: Trace, ghost moments: Moments,
             ghost up: Trace, ghost keyed: Trace, ghost got: Replies, ghost at: Writes)
    modifies c
    ensures c.Continues(old(c.trace), c.trace)
    ensures Scripted(old(c.trace), drained, tested, up, r, moments) && up <= c.trace
    ensures ok <==> r.Completed? && AllAnswered(got, r.secondPortWorks)
    ensures r.Panicked? ==> up == c.trace && (Stalled(c) || Refused(c.trace))
    ensures r.Completed? ==> Reset(c, up, keyed, c.trace, got, at, r.secondPortWorks)
    ensures r.Completed? && Explains(c.m, c.trace) && After(c.m, drained).output == [] ==>
              CompletedRight(c.m, Disabled(c.m.dual, old(c.State()).config), tested, c.State().config, r, moments)
    ensures r.Completed? && c.Good() && After(c.m, drained).output == [] ==>
              WorkAsTested(c.m, r) && FinalConfig(Disabled(c.m.dual, old(c.State()).config), r, c.State().config)
    ensures c.loopTimeout > 0 && Explains(c.m, c.trace) && Honest(c.m, drained) && |old(c.State()).output| <= c.loopTimeout ==>
              After(c.m, drained).output == []
    ensures r.Completed? && Explains(c.m, c.trace) && After(c.m, keyed).output == [] && Mute(c.m, |keyed|) ==> !ok
    ensures c.Good() && Responsive(c) && After(c.m, drained).output == [] && r.Panicked? ==> SelfTestFails(c, drained, moments.at0)
    ensures c.Good() && Responsive(c) && After(c.m, drained).output == [] && r.Completed? ==>
              && c.m.choices(moments.at0).reply == Some(0x55)
              && DevicesAsked(c.m, [], r.secondPortWorks, at) && (ok <==> DevicesAnswer(c.m, [], r.secondPortWorks, at))
  {
    r, drained, tested, moments := BringUp(c);
    up, keyed := c.trace, c.trace;
    ok, got, at := false, Replies([], [], []), Writes([], [], []);
    if r.Completed? {
      ok, got, keyed, at := ResetDevices(c, r.secondPortWorks);
    }
  }

  /** On the ports of any controller that hides nothing and has at most 1000 bytes waiting: init
      ends normally exactly when the self test is answered with 0x55 and keyboard and mouse answer
      as step 10 needs, and then the configuration is right. */
  method InitOpenly(m: Machine)
    returns (c: Controller, ok: bool, r: Outcome, ghost drained: Trace, ghost tested: Trace, ghost moments: Moments,
             ghost up: Trace, ghost keyed: Trace, ghost got: Replies, ghost at: Writes)
    requires |m.initial.output| <= 1000
    ensures fresh(c) && c.m == m && Disciplined(c.trace) && Scripted([], drained, tested, up, r, moments) && up <= c.trace
    ensures r.Panicked? ==> !ok && up == c.trace && SelfTestFails(c, drained, moments.at0)
    ensures r.Completed? ==>
              && m.choices(moments.at0).reply == Some(0x55) && FinalConfig(Disabled(m.dual, m.initial.config), r, c.State().config)
              && Reset(c, up, keyed, c.trace, got, at, r.secondPortWorks) && DevicesAsked(m, [], r.secondPortWorks, at)
              && (ok <==> DevicesAnswer(m, [], r.secondPortWorks, at))
    ensures r.Completed? ==>
              && Commands(up) == [0xad, 0xa7, 0x20, 0x60, 0xaa, 0x60, 0xa8, 0x20] + (if r.hasSecondPort then [0xa7, 0x60] else [])
                                 + [0xab] + (if r.hasSecondPort then [0xa9] else [])
                                 + [0x20] + (if r.firstPortWorks then [0xae] else []) + (if r.secondPortWorks then [0xa8] else [])
                                 + [0x60]
    ensures r.Completed? ==>
              var was, now := m.initial.config, c.State().config;
              && (r.hasSecondPort <==> m.dual || !Bit(was, 5))
              && (r.firstPortWorks <==> m.firstPort == Some(0x00))
              && (r.secondPortWorks <==> r.hasSecondPort && m.secondPort == Some(0x00))
              && (Bit(now, 0) <==> m.firstPort == Some(0x00))
              && (Bit(now, 1) <==> if r.hasSecondPort then m.secondPort == Some(0x00) else Bit(was, 1))
              && !Bit(now, 4) && (Bit(now, 5) <==> !r.hasSecondPort) && !Bit(now, 6)
              && (Bit(now, 2) <==> Bit(was, 2)) && (Bit(now, 3) <==> Bit(was, 3)) && (Bit(now, 7) <==> Bit(was, 7))
  {
    c := new Controller(StatusOf(m, NothingHidden()), DataOf(m), m);
    ok, r, drained, tested, moments, up, keyed, got, at := InitOnOpenPorts(c);
    if r.Completed? {
      ScriptedBytes([], drained, tested, up, r, moments);
      StartsFromNothing(Commands([]));
      FinalBits(m.dual, m.initial.config, r, c.State().config);
    }
  }

  lemma StartsFromNothing(none: seq<Byte>)
    requires none == []
    ensures none + [0xad, 0xa7, 0x20, 0x60, 0xaa, 0x60, 0xa8, 0x20] == [0xad, 0xa7, 0x20, 0x60, 0xaa, 0x60, 0xa8, 0x20]
  {
  }

  method InitOnOpenPorts(c: Controller)
    returns (ok: bool, r: Outcome, ghost drained: Trace, ghost tested: Trace, ghost moments: Moments,
             ghost up: Trace, ghost keyed: Trace, ghost got: Replies, ghost at: Writes)
    requires OpenPorts(c) && |c.m.initial.output| <= 1000
    modifies c
    ensures Disciplined(c.trace) && Scripted([], drained, tested, up, r, moments) && up <= c.trace
    ensures r.Panicked? ==> !ok && up == c.trace && SelfTestFails(c, drained, moments.at0)
    ensures r.Completed? ==>
              && r.hasSecondPort == (c.m.dual || !Bit(Disabled(c.m.dual, c.m.initial.config), 5))
              && c.m.choices(moments.at0).reply == Some(0x55) && WorkAsTested(c.m, r)
              && FinalConfig(Disabled(c.m.dual, c.m.initial.config), r, c.State().config)
              && Reset(c, up, keyed, c.trace, got, at, r.secondPortWorks) && DevicesAsked(c.m, [], r.secondPortWorks, at)
              && (ok <==> DevicesAnswer(c.m, [], r.secondPortWorks, at))
  {
    ok, r, drained, tested, moments, up, keyed, got, at := Init(c);
    OpenTraffic(c, drained);
    assert After(c.m, drained).output == [];
  }

  /** If the keyboard answers its reset with 0xFA, 0xAA and no more, and the mouse with three bytes,
      the rest depends on the first two of these and the first byte of the last answer. */
  lemma PlainAnswers(m: Machine, i: nat, j: nat, k: nat, secondPortWorks: bool)
    requires m.choices(i).answer == [0xfa, 0xaa] && |m.choices(j).answer| == 3
    ensures DevicesAnswer(m, [], secondPortWorks, Writes([i], [j], [k])) <==>
            && m.choices(j).answer[0] == 0xfa && m.choices(j).answer[1] == 0xaa
            && (secondPortWorks ==> |m.choices(k).answer| > 0 && m.choices(k).answer[0] == 0xfa)
  {
    AnswerToOne(m, i);
    AnswerToOne(m, j);
    AnswerToOne(m, k);
    var stream := [] + AnswersTo(m, [i]);
    assert stream == [0xfa, 0xaa] && stream[2..] + AnswersTo(m, [j]) == m.choices(j).answer;
    assert m.choices(j).answer[3..] + AnswersTo(m, [k]) == m.choices(k).answer;
  }

  /** A controller with nothing waiting that answers every test with 0x55, and whose devices answer
      every byte with 0xFA, 0xAA twice over. */
  function AnsweringMachine(dual: bool, config: Byte): Machine {
    Machine(dual, Hw(config, [], false), Some(0x55), Some(0x55), _ => Choice(Some(0x55), config, [0xfa, 0xaa, 0xfa, 0xaa]))
  }

  /** There step 10 gets what it needs. */
  lemma AnsweringSuffices(dual: bool, config: Byte, at: Writes)
    requires DevicesAsked(AnsweringMachine(dual, config), [], false, at)
    ensures DevicesAnswer(AnsweringMachine(dual, config), [], false, at)
  {
    var m, answer: seq<Byte> := AnsweringMachine(dual, config), [0xfa, 0xaa, 0xfa, 0xaa];
    assert at.keyboard == [at.keyboard[0]];
    AnswerToOne(m, at.keyboard[0]);
    assert [] + AnswersTo(m, at.keyboard) == answer;
    assert at.mouse == [at.mouse[0]];
    AnswerToOne(m, at.mouse[0]);
    assert answer[2..] + AnswersTo(m, at.mouse) == [0xfa, 0xaa, 0xfa, 0xaa, 0xfa, 0xaa];
  }

  /** So init does end normally, with or without a second port. */
  method AnsweredInitEndsNormally(dual: bool, config: Byte) returns (c: Controller, ok: bool, r: Outcome)
    ensures fresh(c) && c.m == AnsweringMachine(dual, config)
    ensures ok && r.Completed? && FinalConfig(Disabled(dual, config), r, c.State().config)
  {
    var m := AnsweringMachine(dual, config);
    ghost var drained, tested, moments, up, keyed, got, at;
    c, ok, r, drained, tested, moments, up, keyed, got, at := InitOpenly(m);
    assert r.Completed? && !r.secondPortWorks;
    AnsweringSuffices(dual, config, at);
  }
}
