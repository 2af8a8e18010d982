/** The shape every controller's init_display shares: after the reset, a
    list of commands, each with its parameter bytes and an optional pause.
    `Receive` is what the controller makes of a bus trace: every command
    byte opens an entry and every data byte joins the latest one. */
module Profile {
  import opened Bits
  import opened Bus
  import opened Display

  /** One command of an init list: write_command(cmd), then its parameters
      (write_data for one byte sends the same events as write_multy_data of
      a one-byte list), then sleep_ms(pause) when pause is positive. */
  datatype Step = Step(cmd: Byte, params: seq<Byte>, pause: nat)

  function StepTrace(s: Step): (r: Trace)
    ensures |r| >= 2 && r[..2] == WriteCommand(s.cmd)
  {
    WriteCommand(s.cmd)
      + (if |s.params| == 0 then [] else WriteMultyData(s.params))
      + (if s.pause > 0 then [Sleep(s.pause)] else [])
  }

  function StepsTrace(steps: seq<Step>): Trace
  {
    if |steps| == 0 then [] else StepTrace(steps[0]) + StepsTrace(steps[1..])
  }

  /** init_display: the reset, the profile's own steps, then the closing
      pair; the trace starts with the reset and ends with sleep out, the
      120 ms pause and display on. */
  function InitTrace(body: seq<Step>): (r: Trace)
    ensures |r| >= 12 && r[..7] == Reset()
    ensures r[|r| - 5..] == WriteCommand(0x11) + [Sleep(120)] + WriteCommand(0x29)
  {
    ClosingSteps(body);
    Reset() + StepsTrace(body + Closing)
  }

  /** A command as the controller receives it. */
  datatype Received = Received(cmd: Byte, params: seq<Byte>)

  /** The controller's view of a trace: a command byte opens an entry, a
      data byte is appended to the latest entry (and is ignored before the
      first command); the other events carry nothing. */
  function Receive(t: Trace): seq<Received>
    decreases |t|
  {
    if |t| == 0 then [] else Absorb(Receive(t[..|t| - 1]), t[|t| - 1])
  }

  /** One more event seen by the controller. */
  function Absorb(prev: seq<Received>, e: BusEvent): seq<Received>
  {
    match e
    case Cmd(c) => prev + [Received(c, [])]
    case Data(b) =>
      if |prev| == 0 then prev
      else prev[..|prev| - 1] + [Received(prev[|prev| - 1].cmd, prev[|prev| - 1].params + [b])]
    case _ => prev
  }

  /** A data byte joins the parameters of the latest command. */
  lemma AbsorbData(prev: seq<Received>, x: Received, b: Byte)
    ensures Absorb(prev + [x], Data(b)) == prev + [Received(x.cmd, x.params + [b])]
  {
    assert (prev + [x])[..|prev|] == prev;
  }

  lemma ReceiveSnoc(t: Trace, e: BusEvent)
    ensures Receive(t + [e]) == Absorb(Receive(t), e)
  {
    assert (t + [e])[..|t|] == t;
  }

  /** The commands a list of steps delivers, in order. */
  function Sent(steps: seq<Step>): (r: seq<Received>)
    ensures |r| == |steps|
    ensures forall i :: 0 <= i < |steps| ==> r[i] == Received(steps[i].cmd, steps[i].params)
  {
    seq(|steps|, i requires 0 <= i < |steps| => Received(steps[i].cmd, steps[i].params))
  }

  /** Events that carry no byte leave the controller's view unchanged. */
  lemma ReceiveQuiet(t: Trace, e: BusEvent)
    requires !e.Cmd? && !e.Data?
    ensures Receive(t + [e]) == Receive(t)
  {
    ReceiveSnoc(t, e);
  }

  /** A command and its parameter bytes arrive as one entry. */
  lemma {:induction false} ReceiveCommand(t: Trace, c: Byte, ps: seq<Byte>)
    decreases |ps|
    ensures Receive(t + WriteCommand(c) + DataBytes(ps)) == Receive(t) + [Received(c, ps)]
  {
    if |ps| == 0 {
      assert t + WriteCommand(c) + DataBytes(ps) == t + [Cmd(c)] + [CsHigh];
      ReceiveSnoc(t, Cmd(c));
      ReceiveQuiet(t + [Cmd(c)], CsHigh);
    } else {
      var init, last := ps[..|ps| - 1], ps[|ps| - 1];
      var v := t + WriteCommand(c) + DataBytes(init);
      assert Receive(v) == Receive(t) + [Received(c, init)] by {
        ReceiveCommand(t, c, init);
      }
      assert t + WriteCommand(c) + DataBytes(ps) == v + [Data(last)] by {
        assert ps == init + [last];
        DataBytesAppend(init, [last]);
      }
      ReceiveSnoc(v, Data(last));
      AbsorbData(Receive(t), Received(c, init), last);
      assert init + [last] == ps;
    }
  }

  /** write_command opens a new entry with no parameters yet. */
  lemma WriteCommandReceived(t: Trace, c: Byte)
    ensures Receive(t + WriteCommand(c)) == Receive(t) + [Received(c, [])]
  {
    ReceiveCommand(t, c, []);
    assert t + WriteCommand(c) + DataBytes([]) == t + WriteCommand(c);
  }

  /** write_data adds its byte to the parameters of the latest command,
      and is lost when no command has been sent yet. */
  lemma WriteDataReceived(t: Trace, b: Byte)
    ensures var prev := Receive(t);
      Receive(t + WriteData(b))
        == if |prev| == 0 then prev
           else prev[..|prev| - 1] + [Received(prev[|prev| - 1].cmd, prev[|prev| - 1].params + [b])]
  {
    assert t + WriteData(b) == t + [Data(b)] + [CsHigh];
    ReceiveSnoc(t, Data(b));
    ReceiveQuiet(t + [Data(b)], CsHigh);
  }

  /** What a step sends after its command and parameter bytes: the
      chip-select release of a parameter list, then the pause. */
  function StepTail(s: Step): (q: Trace)
    ensures forall k :: 0 <= k < |q| ==> !q[k].Cmd? && !q[k].Data?
  {
    (if |s.params| == 0 then [] else [CsHigh]) + (if s.pause > 0 then [Sleep(s.pause)] else [])
  }

  lemma StepTraceParts(s: Step)
    ensures StepTrace(s) == WriteCommand(s.cmd) + DataBytes(s.params) + StepTail(s)
  {
    if |s.params| == 0 {
      assert DataBytes(s.params) == [];
    }
  }

  /** A run of byte-less events leaves the controller's view unchanged. */
  lemma {:induction false} ReceiveQuietTail(t: Trace, q: Trace)
    requires forall k :: 0 <= k < |q| ==> !q[k].Cmd? && !q[k].Data?
    decreases |q|
    ensures Receive(t + q) == Receive(t)
  {
    if |q| > 0 {
      var init := q[..|q| - 1];
      ReceiveQuietTail(t, init);
      assert t + q == (t + init) + [q[|q| - 1]];
      ReceiveQuiet(t + init, q[|q| - 1]);
    } else {
      assert t + q == t;
    }
  }

  /** One step delivers exactly its command and parameters. */
  lemma ReceiveStep(t: Trace, s: Step)
    ensures Receive(t + StepTrace(s)) == Receive(t) + [Received(s.cmd, s.params)]
  {
    var u := t + WriteCommand(s.cmd) + DataBytes(s.params);
    StepTraceParts(s);
    assert t + StepTrace(s) == u + StepTail(s);
    ReceiveQuietTail(u, StepTail(s));
    ReceiveCommand(t, s.cmd, s.params);
  }

  lemma Assoc(a: Trace, b: Trace, c: Trace)
    ensures a + (b + c) == (a + b) + c
  {
  }

  lemma ReceivedAssoc(a: seq<Received>, b: seq<Received>, c: seq<Received>)
    ensures (a + b) + c == a + (b + c)
  {
  }

  lemma SentCons(steps: seq<Step>)
    requires |steps| > 0
    ensures Sent(steps) == [Received(steps[0].cmd, steps[0].params)] + Sent(steps[1..])
  {
  }

  /** Receive takes a trace apart at any split point. */
  lemma {:induction false} ReceiveAppendSteps(t: Trace, steps: seq<Step>)
    decreases |steps|
    ensures Receive(t + StepsTrace(steps)) == Receive(t) + Sent(steps)
  {
    if |steps| == 0 {
      assert t + StepsTrace(steps) == t;
    } else {
      var u := t + StepTrace(steps[0]);
      var rest := steps[1..];
      var first := [Received(steps[0].cmd, steps[0].params)];
      assert Receive(u) == Receive(t) + first by {
        ReceiveStep(t, steps[0]);
      }
      assert Receive(u + StepsTrace(rest)) == Receive(u) + Sent(rest) by {
        ReceiveAppendSteps(u, rest);
      }
      assert t + StepsTrace(steps) == u + StepsTrace(rest) by {
        assert StepsTrace(steps) == StepTrace(steps[0]) + StepsTrace(rest);
        Assoc(t, StepTrace(steps[0]), StepsTrace(rest));
      }
      assert Sent(steps) == first + Sent(rest) by {
        SentCons(steps);
      }
      ReceivedAssoc(Receive(t), first, Sent(rest));
    }
  }

  /** The reset delivers the software-reset command alone. */
  lemma ResetReceived()
    ensures Receive(Reset()) == [Received(0x01, [])]
  {
    var r := Reset();
    assert r[..4] == [Rst(false), Sleep(10), Rst(true), Sleep(120)];
    ReceiveQuiet([], Rst(false));
    ReceiveQuiet([Rst(false)], Sleep(10));
    ReceiveQuiet([Rst(false), Sleep(10)], Rst(true));
    ReceiveQuiet([Rst(false), Sleep(10), Rst(true)], Sleep(120));
    assert [Rst(false), Sleep(10), Rst(true), Sleep(120)] == [] + [Rst(false)] + [Sleep(10)] + [Rst(true)] + [Sleep(120)];
    ReceiveCommand(r[..4], 0x01, []);
    assert r[..6] == r[..4] + WriteCommand(0x01) + DataBytes([]);
    ReceiveQuiet(r[..6], Sleep(120));
    assert r == r[..6] + [Sleep(120)];
  }

  /** init_display round trip: the controller receives the software reset
      and then exactly the listed commands with their parameters. */
  lemma InitReceived(body: seq<Step>)
    ensures Receive(InitTrace(body)) == [Received(0x01, [])] + Sent(body + Closing)
  {
    ResetReceived();
    ReceiveAppendSteps(Reset(), body + Closing);
  }

  /** The controller receives the reset and one command per step. */
  lemma ReceivedCount(body: seq<Step>)
    ensures var rcv := Receive(InitTrace(body));
      |rcv| == |body| + 3 && rcv[0] == Received(0x01, [])
  {
    InitReceived(body);
  }

  lemma ReceivedStep(body: seq<Step>, i: nat, c: Byte, ps: seq<Byte>)
    requires i < |body| && body[i].cmd == c && body[i].params == ps
    ensures var rcv := Receive(InitTrace(body));
      |rcv| == |body| + 3 && rcv[i + 1] == Received(c, ps)
  {
    ReceivedAt(body, i);
    assert (body + Closing)[i] == body[i];
  }

  lemma ReceivedClosing(body: seq<Step>)
    ensures var rcv := Receive(InitTrace(body));
      |rcv| == |body| + 3 && rcv[|body| + 1] == Received(0x11, []) && rcv[|body| + 2] == Received(0x29, [])
  {
    ReceivedAt(body, |body|);
    ReceivedAt(body, |body| + 1);
  }

  /** The controller's i-th command after the reset is the i-th step's. */
  lemma ReceivedAt(body: seq<Step>, i: nat)
    requires i < |body| + 2
    ensures var rcv, steps := Receive(InitTrace(body)), body + Closing;
      |rcv| == |body| + 3 && rcv[0] == Received(0x01, [])
      && rcv[i + 1] == Received(steps[i].cmd, steps[i].params)
  {
    InitReceived(body);
  }

  /** Splitting the list splits the trace. */
  lemma {:induction false} StepsTraceAppend(a: seq<Step>, b: seq<Step>)
    decreases |a|
    ensures StepsTrace(a + b) == StepsTrace(a) + StepsTrace(b)
  {
    if |a| > 0 {
      assert (a + b)[1..] == a[1..] + b;
      StepsTraceAppend(a[1..], b);
    } else {
      assert a + b == b;
    }
  }

  /** The closing pair every profile ends with: sleep out, 120 ms, then
      display on. */
  const Closing: seq<Step> := [Step(0x11, [], 120), Step(0x29, [], 0)]

  lemma ClosingSteps(body: seq<Step>)
    ensures var t := StepsTrace(body + Closing);
      |t| >= 5 && t[|t| - 5..] == WriteCommand(0x11) + [Sleep(120)] + WriteCommand(0x29)
  {
    StepsTraceAppend(body, Closing);
    var last := [Step(0x29, [], 0)];
    assert Closing[1..] == last;
    assert StepsTrace(last) == StepTrace(last[0]) + StepsTrace([]);
    assert StepsTrace(Closing) == StepTrace(Closing[0]) + StepsTrace(last);
  }
}
