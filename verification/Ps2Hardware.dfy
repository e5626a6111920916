/** Port traffic with an 8042 controller, and the controllers that could have produced it. */
module Ps2Hardware {
  import opened Bits
  import opened Wrappers

  datatype Event =
    | StatusRead(value: Byte)
    | DataRead(value: Byte)
    | DataWrite(value: Byte)
    | CommandWrite(value: Byte)

  type Trace = seq<Event>

  /** Bit 0 of the status register: a byte waits to be read. */
  predicate OutputFull(status: Byte) {
    status % 2 == 1
  }

  /** Bit 1 of the status register: the controller has not taken the last byte yet. */
  predicate InputFull(status: Byte) {
    status / 2 % 2 == 1
  }

  // The data port is only touched right after the status allowed it

  predicate Allows(before: Event, e: Event) {
    match e
    case DataRead(_) => before.StatusRead? && OutputFull(before.value)
    case DataWrite(_) => before.StatusRead? && !InputFull(before.value)
    case _ => true
  }

  ghost predicate Disciplined(t: Trace) {
    forall i :: 0 <= i < |t| && (t[i].DataRead? || t[i].DataWrite?) ==> i > 0 && Allows(t[i - 1], t[i])
  }

  /** `now` extends `was` by status reads alone. */
  ghost predicate OnlyPolls(was: Trace, now: Trace) {
    was <= now && forall i :: |was| <= i < |now| ==> now[i].StatusRead?
  }

  lemma PollsKeepDiscipline(was: Trace, now: Trace)
    requires Disciplined(was) && OnlyPolls(was, now)
    ensures Disciplined(now)
  {
    forall i | 0 <= i < |now| && (now[i].DataRead? || now[i].DataWrite?)
      ensures i > 0 && Allows(now[i - 1], now[i])
    {
      assert now[i] == was[i];
      assert now[i - 1] == was[i - 1];
    }
  }

  lemma DisciplinePrefix(s: Trace, t: Trace)
    requires s <= t && Disciplined(t)
    ensures Disciplined(s)
  {
    forall i | 0 <= i < |s| && (s[i].DataRead? || s[i].DataWrite?)
      ensures i > 0 && Allows(s[i - 1], s[i])
    {
      assert s[i] == t[i] && i > 0 && s[i - 1] == t[i - 1];
    }
  }

  // What the traffic carries

  /** The bytes read from the data port, in order. */
  function Received(t: Trace): seq<Byte> {
    if t == [] then []
    else Received(t[..|t| - 1]) + (if t[|t| - 1].DataRead? then [t[|t| - 1].value] else [])
  }

  /** The bytes written to the data port, in order. */
  function Sent(t: Trace): seq<Byte> {
    if t == [] then []
    else Sent(t[..|t| - 1]) + (if t[|t| - 1].DataWrite? then [t[|t| - 1].value] else [])
  }

  /** The commands given, in order. */
  function Commands(t: Trace): seq<Byte> {
    if t == [] then []
    else Commands(t[..|t| - 1]) + (if t[|t| - 1].CommandWrite? then [t[|t| - 1].value] else [])
  }

  lemma TrafficStep(t: Trace, e: Event)
    ensures Received(t + [e]) == Received(t) + (if e.DataRead? then [e.value] else [])
    ensures Sent(t + [e]) == Sent(t) + (if e.DataWrite? then [e.value] else [])
    ensures Commands(t + [e]) == Commands(t) + (if e.CommandWrite? then [e.value] else [])
  {
    assert (t + [e])[..|t|] == t;
  }

  lemma {:induction false} PollsCarryNothing(was: Trace, now: Trace)
    requires OnlyPolls(was, now)
    ensures Received(now) == Received(was) && Sent(now) == Sent(was) && Commands(now) == Commands(was)
  {
    if |was| < |now| {
      PollsCarryNothing(was, now[..|now| - 1]);
    } else {
      assert was == now;
    }
  }

  lemma LastEvent(was: Trace, now: Trace)
    requires |now| > |was| && OnlyPolls(was, now[..|now| - 1])
    ensures
      var e := now[|now| - 1];
      && Received(now) == Received(was) + (if e.DataRead? then [e.value] else [])
      && Sent(now) == Sent(was) + (if e.DataWrite? then [e.value] else [])
      && Commands(now) == Commands(was) + (if e.CommandWrite? then [e.value] else [])
  {
    PollsCarryNothing(was, now[..|now| - 1]);
  }

  lemma {:induction false} CommandsGrow(was: Trace, now: Trace)
    requires was <= now
    ensures Commands(was) <= Commands(now)
  {
    if |was| < |now| {
      CommandsGrow(was, now[..|now| - 1]);
    } else {
      assert was == now;
    }
  }

  /** A command given at index i, which is not before `from`. */
  ghost predicate GivenAt(t: Trace, from: nat, i: nat, command: Byte) {
    from <= i < |t| && t[i] == CommandWrite(command)
  }

  // The configuration byte

  function SetBit(config: Byte, k: nat, value: bool): (r: Byte)
    requires k < 8
  {
    PowersOfTwo();
    WithBit(8, config, k, value)
  }

  lemma BitOfSetBit(config: Byte, k: nat, value: bool, j: nat)
    requires k < 8 && j < 8
    ensures Bit(SetBit(config, k, value), j) <==> if j == k then value else Bit(config, j)
  {
    PowersOfTwo();
    BitOfWithBit(8, config, k, value, j);
  }

  // The controller

  /** The last command was the self test, and the last event a reply other than 0x55. */
  ghost predicate Refused(t: Trace) {
    && |t| > 0 && t[|t| - 1].DataRead? && t[|t| - 1].value != 0x55
    && |Commands(t)| > 0 && Commands(t)[|Commands(t)| - 1] == 0xaa
  }

  /** The configuration byte, the bytes waiting in the output buffer, and whether the next byte
      on the data port is a configuration byte. */
  datatype Hw = Hw(config: Byte, output: seq<Byte>, takesConfig: bool)

  /** What a controller and its devices are free to choose at an event: the reply to a self test,
      or none, the configuration byte it leaves behind, and the bytes with which a device answers
      one sent to it. */
  datatype Choice = Choice(reply: Option<Byte>, config: Byte, answer: seq<Byte>)

  /** One controller: with a second port or without, its first state, its replies to the tests of
      its two ports, if it gives any, and its choice at each event. */
  datatype Machine = Machine(dual: bool, initial: Hw, firstPort: Option<Byte>, secondPort: Option<Byte>, choices: nat -> Choice)

  lemma RefusedByTest(was: Trace, t: Trace)
    requires Commands(t) == Commands(was) + [0xaa]
    requires |t| > 0 && t[|t| - 1].DataRead? && t[|t| - 1].value != 0x55
    ensures Refused(t)
  {
  }

  function Reply(r: Option<Byte>): seq<Byte> {
    if r.Some? then [r.value] else []
  }

  /** The commands of an 8042, by their codes: 0x20 and 0x60 read and write the configuration
      byte, 0xAD/0xAE and 0xA7/0xA8 disable and enable the ports, 0xAA tests the controller, 0xAB
      the first port and 0xA9 the second. */
  function OnCommand(m: Machine, h: Hw, command: Byte, c: Choice): Hw {
    if command == 0x20 then h.(output := h.output + [h.config], takesConfig := false)
    else if command == 0x60 then h.(takesConfig := true)
    else if command == 0xad then h.(config := SetBit(h.config, 4, true), takesConfig := false)
    else if command == 0xae then h.(config := SetBit(h.config, 4, false), takesConfig := false)
    else if command == 0xa7 && m.dual then h.(config := SetBit(h.config, 5, true), takesConfig := false)
    else if command == 0xa8 && m.dual then h.(config := SetBit(h.config, 5, false), takesConfig := false)
    else if command == 0xaa then Hw(c.config, h.output + Reply(c.reply), false)
    else if command == 0xab then h.(output := h.output + Reply(m.firstPort), takesConfig := false)
    else if command == 0xa9 then h.(output := h.output + Reply(m.secondPort), takesConfig := false)
    else h.(takesConfig := false)
  }

  function OnData(h: Hw, value: Byte, c: Choice): Hw {
    if h.takesConfig then h.(config := value, takesConfig := false)
    else h.(output := h.output + c.answer)
  }

  function Next(m: Machine, h: Hw, e: Event, c: Choice): Hw {
    match e
    case StatusRead(_) => h
    case DataRead(_) => if h.output == [] then h else h.(output := h.output[1..])
    case DataWrite(v) => OnData(h, v, c)
    case CommandWrite(v) => OnCommand(m, h, v, c)
  }

  /** What the controller may show at an event. */
  predicate Possible(h: Hw, e: Event) {
    match e
    case StatusRead(v) => OutputFull(v) ==> h.output != []
    case DataRead(v) => h.output != [] && v == h.output[0]
    case _ => true
  }

  /** The controller after a trace. */
  function After(m: Machine, t: Trace): Hw {
    if t == [] then m.initial
    else Next(m, After(m, t[..|t| - 1]), t[|t| - 1], m.choices(|t| - 1))
  }

  /** The trace could have been produced by this controller. */
  ghost predicate Explains(m: Machine, t: Trace) {
    t == [] || (Explains(m, t[..|t| - 1]) && Possible(After(m, t[..|t| - 1]), t[|t| - 1]))
  }

  /** A byte that waits is reported within `patience` polls: no reply comes late. */
  ghost predicate Prompt(m: Machine, patience: nat, t: Trace) {
    forall i :: 0 <= i && i + patience <= |t| && Silent(t, i, i + patience) ==> After(m, t[..i]).output == []
  }

  /** Every poll reports a waiting byte. */
  ghost predicate Honest(m: Machine, t: Trace) {
    forall i :: 0 <= i < |t| && t[i].StatusRead? && After(m, t[..i]).output != [] ==> OutputFull(t[i].value)
  }

  /** Events i to j are status reads that report no byte. */
  ghost predicate Silent(t: Trace, i: nat, j: nat)
    requires i <= j <= |t|
  {
    forall k :: i <= k < j ==> t[k].StatusRead? && !OutputFull(t[k].value)
  }

  lemma PromptPrefix(m: Machine, patience: nat, s: Trace, t: Trace)
    requires s <= t && Prompt(m, patience, t)
    ensures Prompt(m, patience, s)
  {
    forall i | 0 <= i && i + patience <= |s| && Silent(s, i, i + patience)
      ensures After(m, s[..i]).output == []
    {
      assert Silent(t, i, i + patience);
      assert s[..i] == t[..i];
    }
  }

  lemma {:induction false} PollsKeepHw(m: Machine, was: Trace, now: Trace)
    requires OnlyPolls(was, now)
    ensures After(m, now) == After(m, was)
    ensures Explains(m, now) ==> Explains(m, was)
  {
    if |was| < |now| {
      var front := now[..|now| - 1];
      assert was <= front;
      PollsKeepHw(m, was, front);
    } else {
      assert now == was;
    }
  }

  lemma AfterEvent(m: Machine, t: Trace, e: Event)
    ensures After(m, t + [e]) == Next(m, After(m, t), e, m.choices(|t|))
    ensures Explains(m, t + [e]) <==> Explains(m, t) && Possible(After(m, t), e)
  {
    assert (t + [e])[..|t|] == t;
  }

  /** Everything that survives a stretch of polling. */
  lemma Polled(m: Machine, patience: nat, was: Trace, now: Trace)
    requires OnlyPolls(was, now)
    ensures After(m, now) == After(m, was)
    ensures Explains(m, now) ==> Explains(m, was)
    ensures Prompt(m, patience, now) ==> Prompt(m, patience, was)
    ensures Disciplined(was) ==> Disciplined(now)
  {
    PollsKeepHw(m, was, now);
    if Prompt(m, patience, now) {
      PromptPrefix(m, patience, was, now);
    }
    if Disciplined(was) {
      PollsKeepDiscipline(was, now);
    }
  }

  lemma AccessKeepsDiscipline(t: Trace, e: Event)
    requires Disciplined(t) && |t| > 0 && Allows(t[|t| - 1], e)
    ensures Disciplined(t + [e])
  {
    var now := t + [e];
    forall i | 0 <= i < |now| && (now[i].DataRead? || now[i].DataWrite?)
      ensures i > 0 && Allows(now[i - 1], now[i])
    {
      if i < |t| {
        assert now[i] == t[i] && i > 0 && now[i - 1] == t[i - 1];
      }
    }
  }

  /** Polling, then one access to the data port that the last poll allowed. */
  lemma PolledThen(m: Machine, patience: nat, was: Trace, polled: Trace, e: Event)
    requires OnlyPolls(was, polled) && |polled| > 0 && Allows(polled[|polled| - 1], e)
    ensures After(m, polled + [e]) == Next(m, After(m, was), e, m.choices(|polled|))
    ensures Explains(m, polled + [e]) ==> Explains(m, was) && Possible(After(m, was), e)
    ensures Prompt(m, patience, polled + [e]) ==> Prompt(m, patience, was)
    ensures Disciplined(was) ==> Disciplined(polled + [e])
    ensures (polled + [e])[..|polled|] == polled
  {
    AfterEvent(m, polled, e);
    if Prompt(m, patience, polled + [e]) {
      assert was <= polled <= polled + [e];
      PromptPrefix(m, patience, was, polled + [e]);
    }
    Polled(m, patience, was, polled);
    if Disciplined(was) {
      AccessKeepsDiscipline(polled, e);
    }
  }

  // The ports of a controller

  /** Every read returned what the ports show at that point of the traffic. */
  ghost predicate Genuine(status: Trace -> Byte, data: Trace -> Byte, t: Trace) {
    t == [] || (Genuine(status, data, t[..|t| - 1]) && Shown(status, data, t[..|t| - 1], t[|t| - 1]))
  }

  predicate Shown(status: Trace -> Byte, data: Trace -> Byte, before: Trace, e: Event) {
    match e
    case StatusRead(v) => v == status(before)
    case DataRead(v) => v == data(before)
    case _ => true
  }

  lemma GenuineStep(status: Trace -> Byte, data: Trace -> Byte, t: Trace, e: Event)
    ensures Genuine(status, data, t + [e]) <==> Genuine(status, data, t) && Shown(status, data, t, e)
  {
    assert (t + [e])[..|t|] == t;
  }

  lemma {:induction false} GenuinePrefix(status: Trace -> Byte, data: Trace -> Byte, s: Trace, t: Trace)
    requires s <= t && Genuine(status, data, t)
    ensures Genuine(status, data, s)
  {
    if |s| < |t| {
      GenuinePrefix(status, data, s, t[..|t| - 1]);
    } else {
      assert s == t;
    }
  }

  lemma {:induction false} GenuineAt(status: Trace -> Byte, data: Trace -> Byte, t: Trace, i: nat)
    requires Genuine(status, data, t) && i < |t|
    ensures Shown(status, data, t[..i], t[i])
  {
    if i < |t| - 1 {
      var front := t[..|t| - 1];
      GenuineAt(status, data, front, i);
      assert front[..i] == t[..i];
    }
  }

  /** A status port that reports a waiting byte unless it is hidden, and is never busy. */
  function StatusOf(m: Machine, hidden: Trace -> bool): Trace -> Byte {
    t => if After(m, t).output != [] && !hidden(t) then 1 else 0
  }

  /** A data port that gives the byte waiting longest. */
  function DataOf(m: Machine): Trace -> Byte {
    t => ReadBack(After(m, t).output, 0)
  }

  /** The first byte waiting, or else the byte given. */
  function ReadBack(waiting: seq<Byte>, otherwise: Byte): Byte {
    (waiting + [otherwise])[0]
  }

  /** No status read showed the input buffer full. */
  ghost predicate TakesInput(t: Trace) {
    forall i :: 0 <= i < |t| && t[i].StatusRead? ==> !InputFull(t[i].value)
  }

  lemma TakesInputPrefix(s: Trace, t: Trace)
    requires s <= t && TakesInput(t)
    ensures TakesInput(s)
  {
    assert forall i :: 0 <= i < |s| ==> s[i] == t[i];
  }

  /** The last event showed it full. */
  ghost predicate Busy(t: Trace) {
    |t| > 0 && t[|t| - 1].StatusRead? && InputFull(t[|t| - 1].value)
  }

  /** Disciplined traffic with these ports is traffic of the controller behind them, whatever it
      hides and for however long. */
  lemma {:induction false} GenuineIsExplained(m: Machine, hidden: Trace -> bool, t: Trace)
    requires Genuine(StatusOf(m, hidden), DataOf(m), t) && Disciplined(t)
    ensures Explains(m, t)
  {
    if t != [] {
      var front, e := t[..|t| - 1], t[|t| - 1];
      assert forall i :: 0 <= i < |front| ==> front[i] == t[i];
      GenuineIsExplained(m, hidden, front);
      if e.DataRead? {
        assert Allows(t[|t| - 2], e);
        assert front[|front| - 1] == t[|t| - 2];
        assert After(m, front) == After(m, front[..|front| - 1]);
      }
    }
  }

  /** These ports take every byte at once. */
  lemma GenuineTakesInput(m: Machine, hidden: Trace -> bool, t: Trace)
    requires Genuine(StatusOf(m, hidden), DataOf(m), t)
    ensures TakesInput(t)
  {
    forall i | 0 <= i < |t| && t[i].StatusRead?
      ensures !InputFull(t[i].value)
    {
      GenuineAt(StatusOf(m, hidden), DataOf(m), t, i);
      StatusIsFree(m, hidden, t[..i]);
    }
  }

  lemma StatusIsFree(m: Machine, hidden: Trace -> bool, t: Trace)
    ensures !InputFull(StatusOf(m, hidden)(t))
  {
  }

  /** A byte is only read once the port has stopped hiding it. */
  lemma ReadWhenShown(m: Machine, hidden: Trace -> bool, t: Trace)
    requires Genuine(StatusOf(m, hidden), DataOf(m), t) && Disciplined(t) && |t| > 0 && t[|t| - 1].DataRead?
    ensures |t| > 1 && !hidden(t[..|t| - 2])
  {
    assert |t| > 1 && Allows(t[|t| - 2], t[|t| - 1]);
    GenuineAt(StatusOf(m, hidden), DataOf(m), t, |t| - 2);
    ReportedWhenShown(m, hidden, t[..|t| - 2], t[|t| - 2]);
  }

  lemma ReportedWhenShown(m: Machine, hidden: Trace -> bool, before: Trace, e: Event)
    requires Shown(StatusOf(m, hidden), DataOf(m), before, e) && e.StatusRead? && OutputFull(e.value)
    ensures !hidden(before)
  {
  }

  /** And it is reported by the first poll from then on. */
  lemma ShownWhenPolled(m: Machine, hidden: Trace -> bool, was: Trace, t: Trace)
    requires Genuine(StatusOf(m, hidden), DataOf(m), t) && was < t && t[|was|].StatusRead?
    requires !hidden(was) && After(m, was).output != []
    ensures OutputFull(t[|was|].value)
  {
    var status := StatusOf(m, hidden);
    assert status(was) == 1;
    assert t[..|was|] == was;
    GenuineAt(status, DataOf(m), t, |was|);
  }

  /** While everything is hidden, nothing is read. */
  lemma {:induction false} NothingReadWhileHidden(m: Machine, hidden: Trace -> bool, t: Trace, i: nat)
    requires Genuine(StatusOf(m, hidden), DataOf(m), t) && Disciplined(t)
    requires i < |t| && t[i].CommandWrite? && forall j: nat :: i < j < |t| ==> hidden(t[..j])
    ensures Received(t) == Received(t[..i])
  {
    var front, e := t[..|t| - 1], t[|t| - 1];
    if i < |t| - 1 {
      assert forall j :: 0 <= j < |front| ==> front[j] == t[j] && front[..j] == t[..j];
      NothingReadWhileHidden(m, hidden, front, i);
      if e.DataRead? {
        assert Allows(t[|t| - 2], e);
        ReadWhenShown(m, hidden, t);
      }
    }
  }

  /** While nothing is hidden, every poll reports a waiting byte. */
  lemma OpenIsHonest(m: Machine, hidden: Trace -> bool, t: Trace)
    requires Genuine(StatusOf(m, hidden), DataOf(m), t) && forall i: nat :: i < |t| ==> !hidden(t[..i])
    ensures Honest(m, t)
  {
    forall i | 0 <= i < |t| && t[i].StatusRead? && After(m, t[..i]).output != []
      ensures OutputFull(t[i].value)
    {
      ShownWhenPolled(m, hidden, t[..i], t);
    }
  }

  /** A whole run on ports that hide nothing meets every assumption made about controllers. */
  lemma OpenRun(m: Machine, patience: nat, hidden: Trace -> bool, t: Trace)
    requires Genuine(StatusOf(m, hidden), DataOf(m), t) && Disciplined(t) && patience > 0
    requires forall s :: !hidden(s)
    ensures Explains(m, t) && Prompt(m, patience, t) && TakesInput(t) && Honest(m, t)
  {
    GenuineIsExplained(m, hidden, t);
    GenuineTakesInput(m, hidden, t);
    OpenIsHonest(m, hidden, t);
    HonestIsPrompt(m, patience, t);
  }

  lemma HonestPrefix(m: Machine, s: Trace, t: Trace)
    requires s <= t && Honest(m, t)
    ensures Honest(m, s)
  {
    forall i | 0 <= i < |s| && s[i].StatusRead? && After(m, s[..i]).output != []
      ensures OutputFull(s[i].value)
    {
      assert s[i] == t[i] && s[..i] == t[..i];
    }
  }

  /** And then no reply is late. */
  lemma HonestIsPrompt(m: Machine, patience: nat, t: Trace)
    requires patience > 0 && Honest(m, t)
    ensures Prompt(m, patience, t)
  {
    forall i | 0 <= i && i + patience <= |t| && Silent(t, i, i + patience)
      ensures After(m, t[..i]).output == []
    {
      assert t[i].StatusRead? && !OutputFull(t[i].value);
    }
  }
}
