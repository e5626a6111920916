/** Keyboard and mouse handshakes, over every stream of replies. */
module Ps2Devices {
  import opened Bits
  import opened Wrappers
  import opened Ps2Hardware
  import opened Ps2Controller

  datatype Response =
    | InternalBufferOverrun | SelfTestPassed | ResponseToEcho | Acknowledged
    | SelfTestFailed1 | SelfTestFailed2 | Resend | KeyDetectionError

  /** None stands for the panic on an unknown code. */
  function FromByte(code: Byte): Option<Response> {
    if code == 0x00 then Some(InternalBufferOverrun)
    else if code == 0xaa then Some(SelfTestPassed)
    else if code == 0xee then Some(ResponseToEcho)
    else if code == 0xfa then Some(Acknowledged)
    else if code == 0xfc then Some(SelfTestFailed1)
    else if code == 0xfd then Some(SelfTestFailed2)
    else if code == 0xfe then Some(Resend)
    else if code == 0xff then Some(KeyDetectionError)
    else None
  }

  function AsByte(r: Response): Byte {
    match r
    case InternalBufferOverrun => 0x00
    case SelfTestPassed => 0xaa
    case ResponseToEcho => 0xee
    case Acknowledged => 0xfa
    case SelfTestFailed1 => 0xfc
    case SelfTestFailed2 => 0xfd
    case Resend => 0xfe
    case KeyDetectionError => 0xff
  }

  /** Codes and responses correspond one to one, as in the table; every other code panics. */
  lemma ResponseRoundTrip(code: Byte, r: Response)
    ensures FromByte(AsByte(r)) == Some(r)
    ensures FromByte(code).Some? ==> AsByte(FromByte(code).value) == code
    ensures FromByte(code).Some? <==> code in {0x00, 0xaa, 0xee, 0xfa, 0xfc, 0xfd, 0xfe, 0xff}
    ensures FromByte(0x00) == Some(InternalBufferOverrun) && FromByte(0xaa) == Some(SelfTestPassed)
    ensures FromByte(0xee) == Some(ResponseToEcho) && FromByte(0xfa) == Some(Acknowledged)
    ensures FromByte(0xfc) == Some(SelfTestFailed1) && FromByte(0xfd) == Some(SelfTestFailed2)
    ensures FromByte(0xfe) == Some(Resend) && FromByte(0xff) == Some(KeyDetectionError)
  {
  }

  datatype DeviceError =
    | ControllerFailure(error: ControllerError)
    | CommandNotAcknowledged(response: Response)
    | SelfTestFailed
    | InvalidResponse
    | Panic

  const RESET: Byte := 0xff
  const ENABLE_DATA_REPORTING: Byte := 0xf4

  /** Since `from`, every byte for the second port follows a command 0xD4, with polls between. */
  ghost predicate Routed(t: Trace, from: nat) {
    forall i :: from <= i < |t| && t[i].DataWrite? ==> RoutedAt(t, from, i)
  }

  ghost predicate RoutedAt(t: Trace, from: nat, i: nat)
    requires i < |t|
  {
    exists j :: from <= j < i && t[j] == CommandWrite(0xd4) && forall k :: j < k < i ==> t[k].StatusRead?
  }

  lemma RoutedExtends(was: Trace, now: Trace, from: nat)
    requires was <= now && from <= |was| && Routed(was, from)
    requires forall i :: |was| <= i < |now| && now[i].DataWrite? ==> RoutedAt(now, from, i)
    ensures Routed(now, from)
  {
    forall i | from <= i < |now| && now[i].DataWrite?
      ensures RoutedAt(now, from, i)
    {
      if i < |was| {
        assert RoutedAt(was, from, i);
        var j :| from <= j < i && was[j] == CommandWrite(0xd4) && forall k :: j < k < i ==> was[k].StatusRead?;
        assert now[j] == was[j] && forall k :: j < k < i ==> now[k] == was[k];
      }
    }
  }

  /** `now` continues `was`, reading the bytes `got` and writing the bytes `sent`. */
  ghost predicate Exchange(was: Trace, now: Trace, got: seq<Byte>, sent: seq<Byte>) {
    && was <= now && (Disciplined(was) ==> Disciplined(now))
    && Received(now) == Received(was) + got && Sent(now) == Sent(was) + sent
  }

  lemma ExchangesCompose(a: Trace, b: Trace, c: Trace, got1: seq<Byte>, got2: seq<Byte>, sent1: seq<Byte>, sent2: seq<Byte>)
    requires Exchange(a, b, got1, sent1) && Exchange(b, c, got2, sent2)
    ensures Exchange(a, c, got1 + got2, sent1 + sent2)
  {
  }

  /** What one reply means: no byte is a timeout, an unknown code a panic. */
  function Interpret(got: seq<Byte>): Result<Response, DeviceError> {
    if got == [] then Err(ControllerFailure(Timeout))
    else if FromByte(got[0]).None? then Err(Panic)
    else Ok(FromByte(got[0]).value)
  }

  /** The outcome of one byte sent, as a function of the reply. */
  function SendResult(got: seq<Byte>): (r: Result<(), DeviceError>)
    ensures r.Ok? <==> got != [] && got[0] == 0xfa
    ensures r == Err(ControllerFailure(Timeout)) <==> got == []
    ensures forall x :: r == Err(CommandNotAcknowledged(x)) <==> got != [] && got[0] != 0xfa && FromByte(got[0]) == Some(x)
    ensures r == Err(Panic) <==> got != [] && FromByte(got[0]).None?
  {
    Acknowledge(Interpret(got))
  }

  /** Only an acknowledgement will do. */
  function Acknowledge(response: Result<Response, DeviceError>): Result<(), DeviceError> {
    if response.Err? then Err(response.error)
    else if response.value != Acknowledged then Err(CommandNotAcknowledged(response.value))
    else Ok(())
  }

  /** The outcome of a command with an optional data byte, as a function of its replies: the data
      byte is sent, and has its own reply, once the command is acknowledged. */
  function CommandResult(got: seq<Byte>, data: Option<Byte>): (r: Result<(), DeviceError>)
    ensures |got| <= 1 + |Reply(data)| ==> (r.Ok? <==> got == if data.Some? then [0xfa, 0xfa] else [0xfa])
  {
    if data.Some? && SendResult(got).Ok? then SendResult(got[1..]) else SendResult(got)
  }

  lemma ResultsOfReplies(got: seq<Byte>)
    requires |got| <= 1
    ensures Interpret(got) == Ok(SelfTestPassed) <==> got == [0xaa]
    ensures Interpret(got) == Ok(SelfTestFailed1) <==> got == [0xfc]
    ensures Interpret(got) == Ok(SelfTestFailed2) <==> got == [0xfd]
    ensures Interpret(got) == Err(ControllerFailure(Timeout)) <==> got == []
    ensures IsOther(Interpret(got)) <==> |got| == 1 && got[0] in {0x00, 0xee, 0xfa, 0xfe, 0xff}
  {
  }

  /** A response that says nothing of a self test. */
  predicate IsOther(response: Result<Response, DeviceError>) {
    response.Ok? && response.value !in {SelfTestPassed, SelfTestFailed1, SelfTestFailed2}
  }

  // What a device handshake does to the controller

  /** A controller not told to take a configuration byte keeps the one it has. */
  ghost predicate KeepsConfig(was: Hw, now: Hw) {
    !was.takesConfig ==> now.config == was.config && !now.takesConfig
  }

  /** From this event on, nothing is answered. */
  ghost predicate Mute(m: Machine, from: nat) {
    forall i: nat :: i >= from ==> m.choices(i).answer == []
  }

  /** The bytes sent since `from` were written at the indices `at`. */
  ghost predicate WrittenAt(t: Trace, from: nat, sent: seq<Byte>, at: seq<nat>) {
    |at| == |sent| && forall k :: 0 <= k < |at| ==> from <= at[k] < |t| && t[at[k]] == DataWrite(sent[k])
  }

  /** What the devices answer to the bytes written at these indices. */
  ghost function AnswersTo(m: Machine, at: seq<nat>): seq<Byte> {
    if at == [] then [] else AnswersTo(m, at[..|at| - 1]) + m.choices(at[|at| - 1]).answer
  }

  lemma AnswerToOne(m: Machine, i: nat)
    ensures AnswersTo(m, [i]) == m.choices(i).answer
  {
    assert [i][..0] == [];
  }

  lemma {:induction false} AnswersToBoth(m: Machine, first: seq<nat>, second: seq<nat>)
    ensures AnswersTo(m, first + second) == AnswersTo(m, first) + AnswersTo(m, second)
  {
    if second == [] {
      assert first + second == first;
    } else {
      assert (first + second)[..|first + second| - 1] == first + second[..|second| - 1];
      AnswersToBoth(m, first, second[..|second| - 1]);
    }
  }

  lemma {:induction false} MuteAnswersNothing(m: Machine, from: nat, at: seq<nat>)
    requires Mute(m, from) && forall k :: 0 <= k < |at| ==> at[k] >= from
    ensures AnswersTo(m, at) == []
  {
    if at != [] {
      MuteAnswersNothing(m, from, at[..|at| - 1]);
    }
  }

  /** Conservation: the bytes that waited, then the answers, are the bytes got, then those that
      wait now. */
  ghost predicate Conserved(m: Machine, was: Trace, now: Trace, got: seq<Byte>, at: seq<nat>) {
    && KeepsConfig(After(m, was), After(m, now))
    && (!After(m, was).takesConfig ==> After(m, was).output + AnswersTo(m, at) == got + After(m, now).output)
  }

  /** `now` continues `was`, reading the bytes `got` and writing the bytes `sent` at the indices
      `at`, with nothing lost, invented or out of order. */
  ghost predicate Handshake(c: Controller, was: Trace, now: Trace, got: seq<Byte>, sent: seq<Byte>, at: seq<nat>) {
    && c.Continues(was, now) && Exchange(was, now, got, sent) && WrittenAt(now, |was|, sent, at)
    && (Explains(c.m, now) ==> Conserved(c.m, was, now, got, at))
  }

  lemma ConservedTwice(m: Machine, a: Trace, b: Trace, c: Trace, got1: seq<Byte>, got2: seq<Byte>, at1: seq<nat>, at2: seq<nat>)
    requires Conserved(m, a, b, got1, at1) && Conserved(m, b, c, got2, at2)
    ensures Conserved(m, a, c, got1 + got2, at1 + at2)
  {
    AnswersToBoth(m, at1, at2);
    if !After(m, a).takesConfig {
      InARow(After(m, a).output, AnswersTo(m, at1), AnswersTo(m, at2), got1, After(m, b).output, got2, After(m, c).output);
    }
  }

  lemma InARow(w: seq<Byte>, a1: seq<Byte>, a2: seq<Byte>, g1: seq<Byte>, x: seq<Byte>, g2: seq<Byte>, y: seq<Byte>)
    requires w + a1 == g1 + x && x + a2 == g2 + y
    ensures w + (a1 + a2) == g1 + g2 + y
  {
    assert w + (a1 + a2) == w + a1 + a2;
    assert g1 + x + a2 == g1 + (x + a2);
    assert g1 + (g2 + y) == g1 + g2 + y;
  }

  lemma WrittenTwice(a: nat, b: Trace, c: Trace, sent1: seq<Byte>, sent2: seq<Byte>, at1: seq<nat>, at2: seq<nat>)
    requires b <= c && a <= |b| && WrittenAt(b, a, sent1, at1) && WrittenAt(c, |b|, sent2, at2)
    ensures WrittenAt(c, a, sent1 + sent2, at1 + at2)
  {
    forall k | 0 <= k < |at1 + at2|
      ensures a <= (at1 + at2)[k] < |c| && c[(at1 + at2)[k]] == DataWrite((sent1 + sent2)[k])
    {
      if k < |at1| {
        assert b[at1[k]] == c[at1[k]];
      }
    }
  }

  lemma HandshakesCompose(d: Controller, a: Trace, b: Trace, c: Trace, got1: seq<Byte>, got2: seq<Byte>,
                          sent1: seq<Byte>, sent2: seq<Byte>, at1: seq<nat>, at2: seq<nat>)
    requires Handshake(d, a, b, got1, sent1, at1) && Handshake(d, b, c, got2, sent2, at2)
    ensures Handshake(d, a, c, got1 + got2, sent1 + sent2, at1 + at2)
  {
    ExchangesCompose(a, b, c, got1, got2, sent1, sent2);
    WrittenTwice(|a|, b, c, sent1, sent2, at1, at2);
    if Explains(d.m, c) {
      ConservedTwice(d.m, a, b, c, got1, got2, at1, at2);
    }
  }

  /** Sending followed by reading. */
  lemma SentAndAnswered(d: Controller, a: Trace, b: Trace, c: Trace, got1: seq<Byte>, got2: seq<Byte>, sent: seq<Byte>, at: seq<nat>)
    requires Handshake(d, a, b, got1, sent, at) && Handshake(d, b, c, got2, [], [])
    ensures Handshake(d, a, c, got1 + got2, sent, at)
  {
    HandshakesCompose(d, a, b, c, got1, got2, sent, [], at, []);
    assert sent + [] == sent && at + [] == at;
  }

  /** One byte of any value, or none. */
  method ReadByte(c: Controller) returns (byte: Option<Byte>)
    modifies c
    ensures Handshake(c, old(c.trace), c.trace, Reply(byte), [], [])
    ensures forall i :: |old(c.trace)| <= i < |c.trace| ==> !c.trace[i].DataWrite?
    ensures c.Good() && byte.None? ==> c.State().output == []
  {
    byte := c.ReadData();
    GotByRead(old(c.trace), c.trace, byte);
    if Explains(c.m, c.trace) {
      ConservedByRead(c.m, old(c.trace), c.trace, byte);
    }
  }

  lemma GotByRead(was: Trace, now: Trace, byte: Option<Byte>)
    requires Disciplined(was) ==> Disciplined(now)
    requires if byte.None? then OnlyPolls(was, now)
             else |now| > |was| && OnlyPolls(was, now[..|now| - 1]) && now[|now| - 1] == DataRead(byte.value)
    ensures Exchange(was, now, Reply(byte), [])
    ensures forall i :: |was| <= i < |now| ==> !now[i].DataWrite?
  {
    if byte.None? {
      PollsCarryNothing(was, now);
    } else {
      LastEvent(was, now);
      assert was <= now[..|now| - 1] <= now;
      assert forall i :: |was| <= i < |now| - 1 ==> now[i] == now[..|now| - 1][i];
    }
  }

  lemma ConservedByRead(m: Machine, was: Trace, now: Trace, byte: Option<Byte>)
    requires
      var h := After(m, was);
      if byte.None? then After(m, now) == h
      else h.output != [] && byte.value == h.output[0] && After(m, now) == h.(output := h.output[1..])
    ensures Conserved(m, was, now, Reply(byte), [])
  {
    var w := After(m, was).output;
    assert w + AnswersTo(m, []) == w;
    assert byte.None? ==> w == Reply(byte) + w;
    assert byte.Some? ==> w == Reply(byte) + w[1..];
  }

  /** One response byte, or none. */
  method ReadResponse(c: Controller) returns (r: Result<Response, DeviceError>, ghost got: seq<Byte>)
    modifies c
    ensures Handshake(c, old(c.trace), c.trace, got, [], []) && |got| <= 1 && r == Interpret(got)
    ensures forall i :: |old(c.trace)| <= i < |c.trace| ==> !c.trace[i].DataWrite?
    ensures c.Good() && got == [] ==> c.State().output == []
  {
    var byte := ReadByte(c);
    got := Reply(byte);
    if byte.None? {
      return Err(ControllerFailure(Timeout)), got;
    }
    var response := FromByte(byte.value);
    if response.None? {
      return Err(Panic), got;
    }
    return Ok(response.value), got;
  }

  /** One byte straight to the data port. */
  method WriteByte(c: Controller, v: Byte) returns (ok: bool, ghost at: seq<nat>)
    modifies c
    ensures Handshake(c, old(c.trace), c.trace, [], if ok then [v] else [], at)
    ensures ok ==> |c.trace| > |old(c.trace)| && OnlyPolls(old(c.trace), c.trace[..|c.trace| - 1]) && c.trace[|c.trace| - 1] == DataWrite(v)
    ensures !ok ==> OnlyPolls(old(c.trace), c.trace)
    ensures Responsive(c) ==> ok
  {
    ok := c.WriteData(v);
    at := if ok then [|c.trace| - 1] else [];
    WrittenStraight(c, old(c.trace), c.trace, ok, v, at);
  }

  lemma WrittenStraight(c: Controller, was: Trace, now: Trace, ok: bool, v: Byte, at: seq<nat>)
    requires c.Continues(was, now) && at == if ok then [|now| - 1] else []
    requires if ok then |now| > |was| && OnlyPolls(was, now[..|now| - 1]) && now[|now| - 1] == DataWrite(v) else OnlyPolls(was, now)
    requires After(c.m, now) == if ok then OnData(After(c.m, was), v, c.m.choices(|now| - 1)) else After(c.m, was)
    ensures Handshake(c, was, now, [], if ok then [v] else [], at)
  {
    SentStraight(was, now, ok, v);
    WrittenLast(was, now, ok, v, at);
    ConservedByData(c.m, was, now, ok, v, at);
  }

  lemma WrittenLast(was: Trace, now: Trace, ok: bool, v: Byte, at: seq<nat>)
    requires at == if ok then [|now| - 1] else []
    requires ok ==> |now| > |was| && now[|now| - 1] == DataWrite(v)
    ensures WrittenAt(now, |was|, if ok then [v] else [], at)
  {
  }

  lemma ConservedByData(m: Machine, was: Trace, now: Trace, ok: bool, v: Byte, at: seq<nat>)
    requires at == if ok then [|now| - 1] else []
    requires ok ==> |now| > 0
    requires After(m, now) == if ok then OnData(After(m, was), v, m.choices(|now| - 1)) else After(m, was)
    ensures Conserved(m, was, now, [], at)
  {
    ConservedByWrite(m, was, now, at);
  }

  lemma ConservedByWrite(m: Machine, was: Trace, now: Trace, at: seq<nat>)
    requires KeepsConfig(After(m, was), After(m, now)) && |at| <= 1
    requires !After(m, was).takesConfig ==>
               After(m, now).output == After(m, was).output + if at == [] then [] else m.choices(at[0]).answer
    ensures Conserved(m, was, now, [], at)
  {
    if at != [] {
      assert at == [at[0]];
      AnswerToOne(m, at[0]);
    }
  }

  /** The traffic of one byte for the first port. */
  lemma SentStraight(was: Trace, now: Trace, ok: bool, v: Byte)
    requires Disciplined(was) ==> Disciplined(now)
    requires if ok then |now| > |was| && OnlyPolls(was, now[..|now| - 1]) && now[|now| - 1] == DataWrite(v) else OnlyPolls(was, now)
    ensures Exchange(was, now, [], if ok then [v] else [])
  {
    if ok {
      LastEvent(was, now);
      assert was <= now[..|now| - 1] <= now;
    } else {
      PollsCarryNothing(was, now);
    }
  }

  /** Keyboard: one byte straight to the data port, acknowledged. */
  method SendToKeyboard(c: Controller, v: Byte)
    returns (r: Result<(), DeviceError>, ghost got: seq<Byte>, ghost sent: seq<Byte>, ghost at: seq<nat>)
    modifies c
    ensures Handshake(c, old(c.trace), c.trace, got, sent, at)
    ensures |got| <= 1 && r == SendResult(got) && sent <= [v] && (got != [] ==> sent == [v])
    ensures Responsive(c) ==> sent == [v]
    ensures c.Good() && Responsive(c) && got == [] ==> c.State().output == []
  {
    var ok;
    ok, at := WriteByte(c, v);
    if !ok {
      return Err(ControllerFailure(Timeout)), [], [], at;
    }
    ghost var written := c.trace;
    var response;
    response, got := ReadResponse(c);
    SentAndAnswered(c, old(c.trace), written, c.trace, [], got, [v], at);
    assert [] + got == got;
    r := Acknowledge(response);
    sent := [v];
  }

  /** The acknowledgements a command and its data byte need. */
  function Acks(data: Option<Byte>): seq<Byte> {
    if data.Some? then [0xfa, 0xfa] else [0xfa]
  }

  /** A command, then its data byte if it has one. On a prompt controller it succeeds exactly when
      what waits and what is answered begin with the acknowledgements. */
  method KeyboardCommand(c: Controller, command: Byte, data: Option<Byte>)
    returns (r: Result<(), DeviceError>, ghost got: seq<Byte>, ghost sent: seq<Byte>, ghost at: seq<nat>)
    modifies c
    ensures Handshake(c, old(c.trace), c.trace, got, sent, at)
    ensures |got| <= 1 + |Reply(data)| && r == CommandResult(got, data)
    ensures sent <= [command] + Reply(data) && (r.Ok? ==> sent == [command] + Reply(data))
    ensures Responsive(c) ==> sent != []
    ensures c.Good() && Responsive(c) && r == Err(ControllerFailure(Timeout)) ==> c.State().output == []
    ensures c.Good() && Responsive(c) && !old(c.State()).takesConfig ==>
              (r.Ok? <==> Acks(data) <= old(c.State()).output + AnswersTo(c.m, at))
  {
    r, got, sent, at := SendToKeyboard(c, command);
    if r.Ok? && data.Some? {
      ghost var between := c.trace;
      ghost var got', sent', at';
      r, got', sent', at' := SendToKeyboard(c, data.value);
      HandshakesCompose(c, old(c.trace), between, c.trace, got, got', sent, sent', at, at');
      CommandGoesOn(got, got', data);
      got, sent, at := got + got', sent + sent', at + at';
    }
    if c.Good() && Responsive(c) && !old(c.State()).takesConfig {
      CommandStream(old(c.State()).output + AnswersTo(c.m, at), got, c.State().output, data);
    }
  }

  lemma CommandGoesOn(got: seq<Byte>, got': seq<Byte>, data: Option<Byte>)
    requires |got| <= 1 && SendResult(got).Ok? && data.Some?
    ensures CommandResult(got + got', data) == SendResult(got')
  {
    assert (got + got')[0] == got[0] && (got + got')[1..] == got';
  }

  /** The result, from the stream of bytes that the command draws on. */
  lemma CommandStream(stream: seq<Byte>, got: seq<Byte>, left: seq<Byte>, data: Option<Byte>)
    requires stream == got + left && |got| <= |Acks(data)|
    requires |got| == 2 ==> got[0] == 0xfa
    requires CommandResult(got, data) == Err(ControllerFailure(Timeout)) ==> left == []
    ensures CommandResult(got, data).Ok? <==> Acks(data) <= stream
  {
    if got == [] || (got == [0xfa] && data.Some?) {
      assert stream == got;
    } else {
      assert stream[0] == got[0];
      if |got| == 2 {
        assert stream[1] == got[1];
      }
    }
  }

  /** Keyboard reset: it succeeds exactly on the replies 0xFA, 0xAA, and on a prompt controller
      exactly when what waits and what is answered begin with them. */
  method KeyboardReset(c: Controller)
    returns (r: Result<(), DeviceError>, ghost got: seq<Byte>, ghost sent: seq<Byte>, ghost at: seq<nat>)
    modifies c
    ensures Handshake(c, old(c.trace), c.trace, got, sent, at)
    ensures r.Ok? <==> got == [0xfa, 0xaa]
    ensures sent <= [0xff] && (r.Ok? ==> sent == [0xff])
    ensures r == Err(SelfTestFailed) <==> got == [0xfa, 0xfc] || got == [0xfa, 0xfd]
    ensures r == Err(InvalidResponse) <==> |got| == 2 && got[0] == 0xfa && got[1] in {0x00, 0xee, 0xfa, 0xfe, 0xff}
    ensures r == Err(ControllerFailure(Timeout)) <==> got == [] || got == [0xfa]
    ensures c.Good() && Responsive(c) && !old(c.State()).takesConfig ==>
              sent == [0xff] && (r.Ok? <==> [0xfa, 0xaa] <= old(c.State()).output + AnswersTo(c.m, at))
  {
    r, got, sent, at := KeyboardCommand(c, RESET, None);
    ghost var acknowledged := c.trace;
    if r.Ok? {
      ghost var reply;
      r, reply := KeyboardSelfTest(c);
      SentAndAnswered(c, old(c.trace), acknowledged, c.trace, got, reply, sent, at);
      AfterAcknowledge(reply, 0xaa);
      AfterAcknowledge(reply, 0xfc);
      AfterAcknowledge(reply, 0xfd);
      got := got + reply;
    }
    if c.Good() && Responsive(c) && !old(c.State()).takesConfig {
      StartsWithTwo(old(c.State()).output + AnswersTo(c.m, at), got, c.State().output, 0xfa, 0xaa);
    }
  }

  /** The reply that follows an acknowledged reset. */
  method KeyboardSelfTest(c: Controller) returns (r: Result<(), DeviceError>, ghost got: seq<Byte>)
    modifies c
    ensures Handshake(c, old(c.trace), c.trace, got, [], []) && |got| <= 1
    ensures r.Ok? <==> got == [0xaa]
    ensures r == Err(SelfTestFailed) <==> got == [0xfc] || got == [0xfd]
    ensures r == Err(InvalidResponse) <==> |got| == 1 && got[0] in {0x00, 0xee, 0xfa, 0xfe, 0xff}
    ensures r == Err(ControllerFailure(Timeout)) <==> got == []
    ensures c.Good() && got == [] ==> c.State().output == []
  {
    var response;
    response, got := ReadResponse(c);
    r := if response.Err? then Err(response.error)
         else if response.value == SelfTestPassed then Ok(())
         else if response.value == SelfTestFailed1 || response.value == SelfTestFailed2 then Err(SelfTestFailed)
         else Err(InvalidResponse);
    ResultsOfReplies(got);
  }

  lemma AfterAcknowledge(reply: seq<Byte>, b: Byte)
    ensures [0xfa] + reply == [0xfa, b] <==> reply == [b]
  {
    if [0xfa] + reply == [0xfa, b] {
      assert reply == ([0xfa] + reply)[1..];
    }
  }

  lemma StartsWithTwo(stream: seq<Byte>, got: seq<Byte>, left: seq<Byte>, a: Byte, b: Byte)
    requires stream == got + left && |got| <= 2
    requires got == [] || got == [a] ==> left == []
    requires |got| == 2 ==> got[0] == a
    ensures [a, b] <= stream <==> got == [a, b]
  {
    if |got| == 1 && got != [a] {
      assert stream[0] == got[0];
    } else if |got| == 2 {
      assert stream[1] == got[1];
    }
  }

  /** A byte for the device on the second port. */
  method WriteToSecondPort(c: Controller, v: Byte) returns (ok: bool, ghost at: seq<nat>)
    modifies c
    ensures old(c.trace) + [CommandWrite(0xd4)] <= c.trace
    ensures Handshake(c, old(c.trace), c.trace, [], if ok then [v] else [], at)
    ensures Routed(c.trace, |old(c.trace)|)
    ensures Responsive(c) ==> ok
  {
    RouteToSecondPort(c);
    ghost var routed := c.trace;
    ok, at := WriteByte(c, v);
    RoutedWrite(c, old(c.trace), routed, c.trace, if ok then [v] else [], at);
    if ok {
      RoutedByLastCommand(old(c.trace), c.trace);
    }
  }

  lemma RoutedWrite(c: Controller, was: Trace, routed: Trace, now: Trace, sent: seq<Byte>, at: seq<nat>)
    requires Handshake(c, was, routed, [], [], []) && Handshake(c, routed, now, [], sent, at)
    ensures Handshake(c, was, now, [], sent, at)
  {
    HandshakesCompose(c, was, routed, now, [], [], [], sent, [], at);
    JustTheWrite(c, was, now, [] + [], [] + sent, [] + at, sent, at);
  }

  lemma JustTheWrite(c: Controller, was: Trace, now: Trace, got: seq<Byte>, bytes: seq<Byte>, indices: seq<nat>, sent: seq<Byte>, at: seq<nat>)
    requires Handshake(c, was, now, got, bytes, indices) && got == [] && bytes == [] + sent && indices == [] + at
    ensures Handshake(c, was, now, [], sent, at)
  {
    assert bytes == sent && indices == at;
  }

  /** The command 0xD4. */
  method RouteToSecondPort(c: Controller)
    modifies c
    ensures c.trace == old(c.trace) + [CommandWrite(0xd4)]
    ensures Handshake(c, old(c.trace), c.trace, [], [], [])
  {
    c.WriteCommand(WRITE_SECOND_INPUT);
    TrafficStep(old(c.trace), CommandWrite(0xd4));
    ConservedByWrite(c.m, old(c.trace), c.trace, []);
  }

  lemma RoutedByLastCommand(was: Trace, now: Trace)
    requires |now| > |was| + 1 && OnlyPolls(was + [CommandWrite(0xd4)], now[..|now| - 1])
    ensures Routed(now, |was|)
  {
    var j, front := |was|, now[..|now| - 1];
    assert now[j] == front[j] == CommandWrite(0xd4);
    assert forall k :: j < k < |front| ==> now[k] == front[k] && front[k].StatusRead?;
    assert RoutedAt(now, j, |now| - 1);
  }

  /** Mouse: one byte to the second port, acknowledged. */
  method SendToMouse(c: Controller, v: Byte)
    returns (r: Result<(), DeviceError>, ghost got: seq<Byte>, ghost sent: seq<Byte>, ghost at: seq<nat>)
    modifies c
    ensures old(c.trace) + [CommandWrite(0xd4)] <= c.trace && Routed(c.trace, |old(c.trace)|)
    ensures Handshake(c, old(c.trace), c.trace, got, sent, at)
    ensures |got| <= 1 && r == SendResult(got) && sent <= [v] && (got != [] ==> sent == [v])
    ensures Responsive(c) ==> sent == [v]
    ensures c.Good() && Responsive(c) && got == [] ==> c.State().output == []
  {
    var ok;
    ok, at := WriteToSecondPort(c, v);
    if !ok {
      return Err(ControllerFailure(Timeout)), [], [], at;
    }
    ghost var written := c.trace;
    var response;
    response, got := ReadResponse(c);
    SentAndAnswered(c, old(c.trace), written, c.trace, [], got, [v], at);
    RoutedExtends(written, c.trace, |old(c.trace)|);
    assert [] + got == got;
    r := Acknowledge(response);
    sent := [v];
  }

  /** A command, then its data byte if it has one. On a prompt controller it succeeds exactly when
      what waits and what is answered begin with the acknowledgements. */
  method MouseCommand(c: Controller, command: Byte, data: Option<Byte>)
    returns (r: Result<(), DeviceError>, ghost got: seq<Byte>, ghost sent: seq<Byte>, ghost at: seq<nat>)
    modifies c
    ensures old(c.trace) + [CommandWrite(0xd4)] <= c.trace && Routed(c.trace, |old(c.trace)|)
    ensures Handshake(c, old(c.trace), c.trace, got, sent, at)
    ensures |got| <= 1 + |Reply(data)| && r == CommandResult(got, data)
    ensures sent <= [command] + Reply(data) && (r.Ok? ==> sent == [command] + Reply(data))
    ensures Responsive(c) ==> sent != []
    ensures c.Good() && Responsive(c) && r == Err(ControllerFailure(Timeout)) ==> c.State().output == []
    ensures c.Good() && Responsive(c) && !old(c.State()).takesConfig ==>
              (r.Ok? <==> Acks(data) <= old(c.State()).output + AnswersTo(c.m, at))
  {
    r, got, sent, at := MouseSequence(c, command, data);
    if c.Good() && Responsive(c) && !old(c.State()).takesConfig {
      CommandStream(old(c.State()).output + AnswersTo(c.m, at), got, c.State().output, data);
    }
  }

  method MouseSequence(c: Controller, command: Byte, data: Option<Byte>)
    returns (r: Result<(), DeviceError>, ghost got: seq<Byte>, ghost sent: seq<Byte>, ghost at: seq<nat>)
    modifies c
    ensures old(c.trace) + [CommandWrite(0xd4)] <= c.trace && Routed(c.trace, |old(c.trace)|)
    ensures Handshake(c, old(c.trace), c.trace, got, sent, at)
    ensures |got| <= 1 + |Reply(data)| && r == CommandResult(got, data) && (|got| == 2 ==> got[0] == 0xfa)
    ensures sent <= [command] + Reply(data) && (r.Ok? ==> sent == [command] + Reply(data))
    ensures Responsive(c) ==> sent != []
    ensures c.Good() && Responsive(c) && r == Err(ControllerFailure(Timeout)) ==> c.State().output == []
  {
    r, got, sent, at := SendToMouse(c, command);
    if r.Ok? && data.Some? {
      ghost var between := c.trace;
      ghost var got', sent', at';
      r, got', sent', at' := SendToMouse(c, data.value);
      HandshakesCompose(c, old(c.trace), between, c.trace, got, got', sent, sent', at, at');
      RoutedTwice(|old(c.trace)|, between, c.trace);
      CommandGoesOn(got, got', data);
      got, sent, at := got + got', sent + sent', at + at';
    }
  }

  lemma RoutedTwice(from: nat, was: Trace, now: Trace)
    requires was <= now && from <= |was| && Routed(was, from) && Routed(now, |was|)
    ensures Routed(now, from)
  {
    forall i | |was| <= i < |now| && now[i].DataWrite?
      ensures RoutedAt(now, from, i)
    {
      assert RoutedAt(now, |was|, i);
    }
    RoutedExtends(was, now, from);
  }

  method EnableDataReporting(c: Controller)
    returns (r: Result<(), DeviceError>, ghost got: seq<Byte>, ghost sent: seq<Byte>, ghost at: seq<nat>)
    modifies c
    ensures Handshake(c, old(c.trace), c.trace, got, sent, at) && Routed(c.trace, |old(c.trace)|)
    ensures r.Ok? <==> got == [0xfa]
    ensures sent <= [0xf4] && (r.Ok? ==> sent == [0xf4])
    ensures c.Good() && Responsive(c) && !old(c.State()).takesConfig ==>
              sent == [0xf4] && (r.Ok? <==> [0xfa] <= old(c.State()).output + AnswersTo(c.m, at))
  {
    r, got, sent, at := MouseCommand(c, ENABLE_DATA_REPORTING, None);
  }

  /** The bytes that a mouse reset needs: 0xFA, 0xAA and an id. */
  ghost predicate BeginsWithReset(stream: seq<Byte>) {
    |stream| >= 3 && stream[0] == 0xfa && stream[1] == 0xaa
  }

  /** Mouse reset: it succeeds exactly on 0xFA, 0xAA and one more byte, which is the id returned,
      and on a prompt controller exactly when what waits and what is answered begin so. */
  method MouseReset(c: Controller)
    returns (r: Result<Byte, DeviceError>, ghost got: seq<Byte>, ghost sent: seq<Byte>, ghost at: seq<nat>)
    modifies c
    ensures old(c.trace) + [CommandWrite(0xd4)] <= c.trace && Routed(c.trace, |old(c.trace)|)
    ensures Handshake(c, old(c.trace), c.trace, got, sent, at)
    ensures r.Ok? <==> |got| == 3 && got[0] == 0xfa && got[1] == 0xaa
    ensures r.Ok? ==> r.value == got[2]
    ensures sent <= [0xff] && (r.Ok? ==> sent == [0xff])
    ensures r == Err(SelfTestFailed) <==> got == [0xfa, 0xfc] || got == [0xfa, 0xfd]
    ensures r == Err(InvalidResponse) <==> |got| == 2 && got[0] == 0xfa && got[1] in {0x00, 0xee, 0xfa, 0xfe, 0xff}
    ensures r == Err(ControllerFailure(Timeout)) <==> got == [] || got == [0xfa] || got == [0xfa, 0xaa]
    ensures c.Good() && Responsive(c) && !old(c.State()).takesConfig ==>
              sent == [0xff] && (r.Ok? <==> BeginsWithReset(old(c.State()).output + AnswersTo(c.m, at)))
  {
    var command;
    command, got, sent, at := MouseCommand(c, RESET, None);
    ghost var acknowledged, reply := c.trace, [];
    if command.Err? {
      r := Err(command.error);
    } else {
      r, reply := MouseSelfTest(c);
      SentAndAnswered(c, old(c.trace), acknowledged, c.trace, got, reply, sent, at);
      RoutedExtends(acknowledged, c.trace, |old(c.trace)|);
      AfterAcknowledge(reply, 0xaa);
      AfterAcknowledge(reply, 0xfc);
      AfterAcknowledge(reply, 0xfd);
      got := got + reply;
    }
    if c.Good() && Responsive(c) && !old(c.State()).takesConfig {
      StartsWithThree(old(c.State()).output + AnswersTo(c.m, at), got, c.State().output);
    }
  }

  lemma StartsWithThree(stream: seq<Byte>, got: seq<Byte>, left: seq<Byte>)
    requires stream == got + left && |got| <= 3
    requires got == [] || got == [0xfa] || got == [0xfa, 0xaa] ==> left == []
    requires (|got| >= 2 ==> got[0] == 0xfa) && (|got| == 3 ==> got[1] == 0xaa)
    ensures BeginsWithReset(stream) <==> |got| == 3
  {
    assert forall k :: 0 <= k < |got| ==> stream[k] == got[k];
    if |got| == 2 && got[1] == 0xaa {
      assert got == [0xfa, 0xaa];
    } else if |got| == 1 && got[0] == 0xfa {
      assert got == [0xfa];
    }
  }

  /** The replies that follow an acknowledged reset: the test result, and on success the id. */
  method MouseSelfTest(c: Controller) returns (r: Result<Byte, DeviceError>, ghost got: seq<Byte>)
    modifies c
    ensures Handshake(c, old(c.trace), c.trace, got, [], [])
    ensures forall i :: |old(c.trace)| <= i < |c.trace| ==> !c.trace[i].DataWrite?
    ensures |got| <= 2 && (r.Ok? <==> |got| == 2) && (|got| == 2 ==> got[0] == 0xaa)
    ensures r == Err(SelfTestFailed) <==> got == [0xfc] || got == [0xfd]
    ensures r == Err(InvalidResponse) <==> |got| == 1 && got[0] in {0x00, 0xee, 0xfa, 0xfe, 0xff}
    ensures r == Err(ControllerFailure(Timeout)) <==> got == [] || got == [0xaa]
    ensures r.Ok? ==> r.value == got[1]
    ensures c.Good() && (got == [] || got == [0xaa]) ==> c.State().output == []
  {
    var response;
    response, got := ReadResponse(c);
    ResultsOfReplies(got);
    if response.Err? {
      return Err(response.error), got;
    }
    if response.value != SelfTestPassed {
      r := Err(if response.value in {SelfTestFailed1, SelfTestFailed2} then SelfTestFailed else InvalidResponse);
      return;
    }
    ghost var tested := c.trace;
    var id := ReadByte(c);
    SentAndAnswered(c, old(c.trace), tested, c.trace, got, Reply(id), [], []);
    got := got + Reply(id);
    r := if id.None? then Err(ControllerFailure(Timeout)) else Ok(id.value);
  }
}
