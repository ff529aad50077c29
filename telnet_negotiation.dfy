/**
 * The byte-at-a-time Telnet state machine of `TelnetOptionsNegotiator.java`
 * as functions over values: the command bytes assembled so far, when a
 * command is complete, what a complete command does, and the loop of
 * `processNegotiationsUntilData` over a finite input stream.
 */
module NegotiationModel {
  import opened Wrappers
  import opened Tn3270Constants
  import opened TelnetProtocol

  /** The size of `negotiationBuffer`. */
  const NEGOTIATION_BUFFER_SIZE: int := 256

  /**
   * The negotiator's state: flags, terminal type, the command bytes held
   * (`negotiationBuffer[..bufferPos]`), whether a command is being
   * assembled, the bytes sent, whether a buffer is attached, and how many
   * screen-update notifications that buffer has been given.
   */
  datatype Negotiator = Negotiator(
    flags: Flags,
    terminalType: seq<bv8>,
    pending: seq<bv8>,
    inCommand: bool,
    output: seq<bv8>,
    attached: bool,
    screenUpdates: nat)

  /** IAC SE somewhere from index 2 on: the end of a subnegotiation. */
  predicate HasSubnegotiationEnd(p: seq<bv8>) {
    exists i :: 2 <= i < |p| - 1 && p[i] == IAC && p[i + 1] == SE
  }

  /**
   * `isCompleteTelnetCommand`: two bytes at least; a negotiation needs its
   * option byte; a subnegotiation needs its IAC SE; anything else is complete.
   */
  predicate IsComplete(p: seq<bv8>) {
    |p| >= 2
    && (IsNegotiation(p[1]) ==> |p| >= 3)
    && (p[1] == SB ==> |p| >= 4 && HasSubnegotiationEnd(p))
  }

  /**
   * What the negotiator keeps between bytes: outside a command nothing is
   * held; inside one the bytes held start with IAC, fit the 256-byte array
   * and do not yet form a complete command.
   */
  predicate Valid(n: Negotiator) {
    |n.pending| <= NEGOTIATION_BUFFER_SIZE
    && (!n.inCommand ==> n.pending == [])
    && (n.inCommand ==> 1 <= |n.pending| && n.pending[0] == IAC && !IsComplete(n.pending))
  }

  /** A fresh negotiator: no flags, nothing held or sent, no buffer attached. */
  function Initial(terminalType: seq<bv8>): (n: Negotiator)
    ensures Valid(n)
  {
    Negotiator(Flags(false, false), terminalType, [], false, [], false, 0)
  }

  /** `processSubnegotiation`: only a terminal-type SEND of five bytes or more is answered. */
  function Subnegotiate(n: Negotiator): (r: Negotiator)
    ensures r == n.(output := r.output)
    ensures r.output == n.output
         || (|n.pending| >= 5 && n.pending[2] == TERMINAL_TYPE && n.pending[3] == TT_SEND
             && r.output == n.output + TerminalTypeReply(n.terminalType))
  {
    var p := n.pending;
    if |p| < 5 then n
    else if p[2] == TERMINAL_TYPE && p[3] == TT_SEND then n.(output := n.output + TerminalTypeReply(n.terminalType))
    else n
  }

  /**
   * `processTelnetCommand` on the bytes held: a negotiation runs its
   * handler, a subnegotiation may answer, a bare IAC SE notifies the
   * attached buffer, and IAC IAC yields the data byte 255.
   */
  function Execute(n: Negotiator): (r: (Negotiator, Option<int>))
    ensures r.0.pending == n.pending && r.0.inCommand == n.inCommand && r.0.terminalType == n.terminalType
    ensures r.1.Some? <==> |n.pending| >= 2 && n.pending[1] == IAC
    ensures r.1.Some? ==> r.1.value == 255
  {
    var p := n.pending;
    if |p| < 2 then (n, None)
    else
      var command := p[1];
      if IsNegotiation(command) then
        if |p| >= 3 then
          var reaction := Negotiate(n.flags, command, p[2]);
          (n.(flags := reaction.flags, output := n.output + reaction.reply), None)
        else (n, None)
      else if command == SB then (Subnegotiate(n), None)
      else if command == SE then
        (if n.attached then n.(screenUpdates := n.screenUpdates + 1) else n, None)
      else if command == IAC then (n, Some(255))
      else (n, None)
  }

  /**
   * `processOngoingTelnetByte(b)`: None when `b` is no Telnet byte, -1 when
   * it was consumed, and 255 for the second IAC of IAC IAC.  A byte that
   * arrives when 256 bytes are held is dropped; a command that completes is
   * executed and then forgotten.
   */
  function Step(n: Negotiator, b: bv8): (r: (Negotiator, Option<int>))
    requires Valid(n)
    ensures Valid(r.0) && r.0.terminalType == n.terminalType && r.0.attached == n.attached
    ensures r.1.None? <==> !n.inCommand && b != IAC
    ensures r.1.None? ==> r.0 == n
    ensures r.1.Some? ==> r.1.value == -1 || r.1.value == 255
    ensures n.inCommand && !r.0.inCommand ==> IsComplete(AcceptByte(n.pending, b))
  {
    if b == IAC && !n.inCommand then (n.(inCommand := true, pending := [IAC]), Some(-1))
    else if n.inCommand then
      var p := AcceptByte(n.pending, b);
      if IsComplete(p) then
        var (m, dataByte) := Execute(n.(pending := p));
        (m.(inCommand := false, pending := []), if dataByte.Some? then dataByte else Some(-1))
      else (n.(pending := p), Some(-1))
    else (n, None)
  }

  /** The bytes held after `b` arrives: appended while fewer than 256 are held. */
  function AcceptByte(pending: seq<bv8>, b: bv8): (p: seq<bv8>)
    ensures |pending| < NEGOTIATION_BUFFER_SIZE ==> p == pending + [b]
    ensures |pending| >= NEGOTIATION_BUFFER_SIZE ==> p == pending
  {
    if |pending| < NEGOTIATION_BUFFER_SIZE then pending + [b] else pending
  }

  /** The result of reading: the state, the value returned, the position after the last byte read, success. */
  datatype Read = Read(state: Negotiator, value: int, next: int, ok: bool)

  /**
   * `processNegotiationsUntilData` from position `pos`: feed the bytes to
   * the state machine until one is data (returned as is) or IAC IAC
   * completes (255 is returned); the end of the stream is an error.
   */
  function UntilData(n: Negotiator, input: seq<bv8>, pos: int): (r: Read)
    requires Valid(n) && 0 <= pos <= |input|
    ensures Valid(r.state) && pos <= r.next <= |input|
    ensures !r.ok ==> r.next == |input|
    ensures r.ok ==> pos < r.next && r.value == input[r.next - 1] as int
    decreases |input| - pos
  {
    if pos >= |input| then Read(n, 0, pos, false)
    else
      var (m, result) := Step(n, input[pos]);
      if result.None? then Read(n, input[pos] as int, pos + 1, true)
      else if result.value == -1 then UntilData(m, input, pos + 1)
      else Read(m, result.value, pos + 1, true)
  }

  /** Feed a sequence of bytes to the state machine, ignoring the values returned. */
  function Feed(n: Negotiator, bytes: seq<bv8>): (r: Negotiator)
    requires Valid(n)
    ensures Valid(r)
    decreases |bytes|
  {
    if bytes == [] then n else Feed(Step(n, bytes[0]).0, bytes[1..])
  }

  /** A complete command leaves nothing held and no command in progress. */
  lemma CompleteCommandResets(n: Negotiator, b: bv8)
    requires Valid(n) && n.inCommand && IsComplete(AcceptByte(n.pending, b))
    ensures var r := Step(n, b).0; !r.inCommand && r.pending == []
  {
  }

  /**
   * With 256 bytes held and no complete command, every later byte is
   * consumed and dropped: the command can never complete.
   */
  lemma FullBufferDropsBytes(n: Negotiator, b: bv8)
    requires Valid(n) && n.inCommand && |n.pending| == NEGOTIATION_BUFFER_SIZE
    ensures Step(n, b) == (n, Some(-1))
  {
  }

  /** Outside a command, IAC IAC is the data byte 255, and nothing else changes. */
  lemma EscapedIac(n: Negotiator)
    requires Valid(n) && !n.inCommand
    ensures var first := Step(n, IAC);
      first.1 == Some(-1) && Step(first.0, IAC) == (n, Some(255))
  {
    var first := Step(n, IAC);
    assert first.0.pending + [IAC] == [IAC, IAC];
  }

  /** Outside a command, IAC followed by a negotiation and its option runs that negotiation's handler. */
  lemma NegotiationRunsHandler(n: Negotiator, verb: bv8, option: bv8)
    requires Valid(n) && !n.inCommand && IsNegotiation(verb)
    ensures var reaction := Negotiate(n.flags, verb, option);
      Feed(n, [IAC, verb, option]) == n.(flags := reaction.flags, output := n.output + reaction.reply)
  {
    var n1 := Step(n, IAC).0;
    assert n1.pending + [verb] == [IAC, verb];
    var n2 := Step(n1, verb).0;
    assert n2.pending + [option] == [IAC, verb, option];
    var n3 := Step(n2, option).0;
    assert Feed(n, [IAC, verb, option]) == Feed(n1, [verb, option]);
    assert Feed(n1, [verb, option]) == Feed(n2, [option]);
    assert Feed(n2, [option]) == Feed(n3, []);
  }

  /** A bare IAC SE notifies the attached buffer once and sends nothing. */
  lemma BareSeNotifies(n: Negotiator)
    requires Valid(n) && !n.inCommand
    ensures Feed(n, [IAC, SE]) == n.(screenUpdates := if n.attached then n.screenUpdates + 1 else n.screenUpdates)
  {
    var n1 := Step(n, IAC).0;
    assert n1.pending + [SE] == [IAC, SE];
    var n2 := Step(n1, SE).0;
    assert Feed(n, [IAC, SE]) == Feed(n1, [SE]);
    assert Feed(n1, [SE]) == Feed(n2, []);
  }

  /** IAC SB TERMINAL-TYPE SEND IAC SE is answered with IAC SB TERMINAL-TYPE IS, the type, IAC SE. */
  lemma TerminalTypeSendAnswered(n: Negotiator)
    requires Valid(n) && !n.inCommand
    ensures Feed(n, [IAC, SB, TERMINAL_TYPE, TT_SEND, IAC, SE])
         == n.(output := n.output + TerminalTypeReply(n.terminalType))
  {
    var bytes := [IAC, SB, TERMINAL_TYPE, TT_SEND, IAC, SE];
    var n1 := Step(n, IAC).0;
    assert n1.pending + [SB] == bytes[..2];
    var n2 := Step(n1, SB).0;
    assert n2.pending + [TERMINAL_TYPE] == bytes[..3];
    var n3 := Step(n2, TERMINAL_TYPE).0;
    assert n3.pending + [TT_SEND] == bytes[..4];
    var n4 := Step(n3, TT_SEND).0;
    assert !HasSubnegotiationEnd(bytes[..4]);
    assert n4.pending + [IAC] == bytes[..5];
    assert !HasSubnegotiationEnd(bytes[..5]) by {
      forall i | 2 <= i < 4
        ensures !(bytes[..5][i] == IAC && bytes[..5][i + 1] == SE)
      {
      }
    }
    var n5 := Step(n4, IAC).0;
    assert n5.pending + [SE] == bytes;
    assert HasSubnegotiationEnd(bytes) by {
      assert bytes[4] == IAC && bytes[5] == SE;
    }
    var n6 := Step(n5, SE).0;
    assert Feed(n, bytes) == Feed(n1, bytes[1..]);
    assert Feed(n1, bytes[1..]) == Feed(n2, bytes[2..]);
    assert Feed(n2, bytes[2..]) == Feed(n3, bytes[3..]);
    assert Feed(n3, bytes[3..]) == Feed(n4, bytes[4..]);
    assert Feed(n4, bytes[4..]) == Feed(n5, bytes[5..]);
    assert Feed(n5, bytes[5..]) == Feed(n6, []);
  }

  /** Outside a command, a byte other than IAC is the data byte returned, and nothing changes. */
  lemma DataByteReturned(n: Negotiator, input: seq<bv8>, pos: int)
    requires Valid(n) && !n.inCommand && 0 <= pos < |input| && input[pos] != IAC
    ensures UntilData(n, input, pos) == Read(n, input[pos] as int, pos + 1, true)
  {
  }

  /** A negotiation triple in the input runs its handler, and reading goes on after it. */
  lemma NegotiationConsumed(n: Negotiator, input: seq<bv8>, pos: int)
    requires Valid(n) && !n.inCommand && 0 <= pos && pos + 3 <= |input|
    requires input[pos] == IAC && IsNegotiation(input[pos + 1])
    ensures var reaction := Negotiate(n.flags, input[pos + 1], input[pos + 2]);
      UntilData(n, input, pos)
      == UntilData(n.(flags := reaction.flags, output := n.output + reaction.reply), input, pos + 3)
  {
    var verb, option := input[pos + 1], input[pos + 2];
    var n1 := Step(n, IAC).0;
    assert n1.pending + [verb] == [IAC, verb];
    var n2 := Step(n1, verb).0;
    assert n2.pending + [option] == [IAC, verb, option];
    assert UntilData(n, input, pos) == UntilData(n1, input, pos + 1);
    assert UntilData(n1, input, pos + 1) == UntilData(n2, input, pos + 2);
  }

  /** IAC IAC in the input is the data byte 255; no Telnet state changes. */
  lemma EscapedIacReturned(n: Negotiator, input: seq<bv8>, pos: int)
    requires Valid(n) && !n.inCommand && 0 <= pos && pos + 2 <= |input|
    requires input[pos] == IAC && input[pos + 1] == IAC
    ensures UntilData(n, input, pos) == Read(n, 255, pos + 2, true)
  {
    EscapedIac(n);
    assert UntilData(n, input, pos) == UntilData(Step(n, IAC).0, input, pos + 1);
  }

  /**
   * Reading never reports data before the input is used up unless a byte
   * outside a command, or IAC IAC, was seen: the byte before `next` is that
   * data byte or the second IAC.
   */
  lemma {:induction false} ReadEndsAtData(n: Negotiator, input: seq<bv8>, pos: int)
    requires Valid(n) && 0 <= pos <= |input|
    ensures var r := UntilData(n, input, pos);
      r.ok ==> (!r.state.inCommand && r.state.pending == [])
               && (r.value == 255 ==> input[r.next - 1] == IAC)
    decreases |input| - pos
  {
    if pos < |input| {
      var (m, result) := Step(n, input[pos]);
      if result.Some? && result.value == -1 {
        ReadEndsAtData(m, input, pos + 1);
      }
    }
  }

  /**
   * The negotiator and the batch scanner of `TelnetOptions` answer a
   * negotiation triple alike: the same flags and the same reply.
   */
  lemma NegotiatorAgreesWithScanner(n: Negotiator, o: Options, verb: bv8, option: bv8)
    requires Valid(n) && !n.inCommand && IsNegotiation(verb) && o.flags == n.flags
    ensures var m := Feed(n, [IAC, verb, option]);
      var q := ScanCommands(o, [IAC, verb, option], 0, 3);
      m.flags == q.flags && m.output == n.output + (q.output[|o.output|..])
      && |q.output| == |o.output| + 3
  {
    NegotiationRunsHandler(n, verb, option);
    var data := [IAC, verb, option];
    NegotiationTriple(o, data, 0, 3);
    ShortTailIgnored(Options(Negotiate(o.flags, verb, option).flags, o.terminalType,
                             o.output + Negotiate(o.flags, verb, option).reply), data, 3, 3);
  }
}
