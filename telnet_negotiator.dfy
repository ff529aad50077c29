/**
 * `TelnetOptionsNegotiator.java` as a class: the fields the Java object
 * updates (the two mode flags, the terminal type, the 256-byte command
 * array with its fill level, the in-command flag) plus the bytes written to
 * the output stream.  The input stream is a sequence read from a position
 * the caller threads through.  Every method is proved against the value
 * model `NegotiationModel`: it leaves `Snap()` equal to a function of the
 * old `Snap()`.
 */
module TelnetNegotiation {
  import opened Wrappers
  import opened Tn3270Constants
  import opened TelnetProtocol
  import N = NegotiationModel
  import ScreenBuffer

  class TelnetOptionsNegotiator {
    /** The bytes the host sends, in order. */
    const input: seq<bv8>
    /** The bytes written to the output stream so far. */
    var output: seq<bv8>
    var binaryMode: bool
    var endOfRecord: bool
    var terminalType: seq<bv8>
    var buffer: ScreenBuffer.Buffer?
    /** How often `buffer.notifyScreenUpdate()` has been called. */
    var screenUpdates: nat
    const negotiationBuffer: array<bv8>
    var bufferPos: int
    var inTelnetCommand: bool

    /** The command array has its fixed size and the fill level is within it. */
    ghost predicate Inv()
      reads this
    {
      negotiationBuffer.Length == N.NEGOTIATION_BUFFER_SIZE && 0 <= bufferPos <= negotiationBuffer.Length
    }

    /** The negotiator as a value of the model. */
    function Snap(): N.Negotiator
      requires Inv()
      reads this, negotiationBuffer
    {
      N.Negotiator(Flags(binaryMode, endOfRecord), terminalType, negotiationBuffer[..bufferPos],
                   inTelnetCommand, output, buffer != null, screenUpdates)
    }

    /** What holds between bytes. */
    ghost predicate Valid()
      reads this, negotiationBuffer
    {
      Inv() && N.Valid(Snap())
    }

    constructor(input: seq<bv8>)
      ensures Valid() && Snap() == N.Initial(IBM3279()) && this.input == input
      ensures fresh(negotiationBuffer)
    {
      this.input := input;
      output := [];
      binaryMode := false;
      endOfRecord := false;
      terminalType := IBM3279();
      buffer := null;
      screenUpdates := 0;
      negotiationBuffer := new bv8[N.NEGOTIATION_BUFFER_SIZE](_ => 0);
      bufferPos := 0;
      inTelnetCommand := false;
    }

    method SetBuffer(buffer: ScreenBuffer.Buffer?)
      requires Valid()
      modifies this
      ensures Valid() && this.buffer == buffer
      ensures Snap() == old(Snap()).(attached := buffer != null)
    {
      this.buffer := buffer;
    }

    method SetTerminalType(terminalType: seq<bv8>)
      requires Valid()
      modifies this
      ensures Valid() && Snap() == old(Snap()).(terminalType := terminalType)
    {
      this.terminalType := terminalType;
    }

    /**
     * `negotiateOptions`: send the opening offer, then process the host's
     * negotiations until the first data byte.
     */
    method NegotiateOptions(pos: int) returns (value: int, next: int, ok: bool)
      requires Valid() && 0 <= pos <= |input|
      modifies this, negotiationBuffer
      ensures Valid()
      ensures N.Read(Snap(), value, next, ok) == N.UntilData(old(Snap()).(output := old(output) + Offer()), input, pos)
    {
      // The offer only appends to `output`; the snapshot's other parts need not be unfolded.
      hide Snap;
      SendWill(BINARY);
      SendDo(BINARY);
      SendWill(END_OF_RECORD);
      SendDo(END_OF_RECORD);
      SendWill(TERMINAL_TYPE);
      SendWill(SUPPRESS_GO_AHEAD);
      SendDo(SUPPRESS_GO_AHEAD);
      assert output == old(output) + Offer();
      value, next, ok := ProcessNegotiationsUntilData(pos);
    }

    /**
     * `processNegotiationsUntilData`: each byte read goes through the same
     * steps as `processOngoingTelnetByte`; the first byte outside a command
     * is returned, as is the 255 of IAC IAC.  Running out of input is the
     * "connection closed" error (`ok` false).
     */
    method ProcessNegotiationsUntilData(pos: int) returns (value: int, next: int, ok: bool)
      requires Valid() && 0 <= pos <= |input|
      modifies this, negotiationBuffer
      ensures Valid()
      ensures N.Read(Snap(), value, next, ok) == N.UntilData(old(Snap()), input, pos)
    {
      ghost var target := N.UntilData(Snap(), input, pos);
      next := pos;
      while next < |input|
        invariant Valid() && pos <= next <= |input|
        invariant N.UntilData(Snap(), input, next) == target
        decreases |input| - next
      {
        var b := input[next];
        next := next + 1;
        var result := ProcessOngoingTelnetByte(b);
        if result.None? {
          return b as int, next, true;
        } else if result.value != -1 {
          return result.value, next, true;
        }
      }
      return 0, next, false;
    }

    /** The bytes of the command assembled so far. */
    function Pending(): seq<bv8>
      requires Inv()
      reads this, negotiationBuffer
    {
      negotiationBuffer[..bufferPos]
    }

    /** `isCompleteTelnetCommand`, with its search for IAC SE. */
    method IsCompleteTelnetCommand() returns (complete: bool)
      requires Inv()
      ensures complete == N.IsComplete(Pending())
    {
      if bufferPos < 2 {
        return false;
      }
      var command := negotiationBuffer[1];
      if command == DO || command == DONT || command == WILL || command == WONT {
        return bufferPos >= 3;
      } else if command == SB {
        if bufferPos >= 4 {
          var i := 2;
          while i < bufferPos - 1
            invariant 2 <= i <= bufferPos - 1
            invariant forall j :: 2 <= j < i ==> !(negotiationBuffer[j] == IAC && negotiationBuffer[j + 1] == SE)
          {
            if negotiationBuffer[i] == IAC && negotiationBuffer[i + 1] == SE {
              assert Pending()[i] == IAC && Pending()[i + 1] == SE;
              return true;
            }
            i := i + 1;
          }
        }
        return false;
      } else {
        return true;
      }
    }

    /** `processTelnetCommand`: run the command held; IAC IAC yields the data byte 255. */
    method ProcessTelnetCommand() returns (dataByte: Option<int>)
      requires Inv()
      modifies this
      ensures Inv() && (Snap(), dataByte) == N.Execute(old(Snap()))
    {
      if bufferPos < 2 {
        return None;
      }
      var command := negotiationBuffer[1];
      if command == DO {
        if bufferPos >= 3 {
          HandleDo(negotiationBuffer[2]);
        }
      } else if command == DONT {
        if bufferPos >= 3 {
          HandleDont(negotiationBuffer[2]);
        }
      } else if command == WILL {
        if bufferPos >= 3 {
          HandleWill(negotiationBuffer[2]);
        }
      } else if command == WONT {
        if bufferPos >= 3 {
          HandleWont(negotiationBuffer[2]);
        }
      } else if command == SB {
        ProcessSubnegotiation();
      } else if command == SE {
        if buffer != null {
          screenUpdates := screenUpdates + 1;
        }
      } else if command == IAC {
        return Some(255);
      }
      return None;
    }

    /** `processSubnegotiation`: answer a terminal-type SEND of five bytes or more. */
    method ProcessSubnegotiation()
      requires Inv()
      modifies this
      ensures Inv() && Snap() == N.Subnegotiate(old(Snap()))
    {
      if bufferPos < 5 {
        return;
      }
      var option := negotiationBuffer[2];
      if option == TERMINAL_TYPE && bufferPos >= 5 {
        var subCommand := negotiationBuffer[3];
        if subCommand == TT_SEND {
          SendTerminalType();
        }
      }
    }

    method HandleDo(option: bv8)
      requires Inv()
      modifies this
      ensures Inv()
      ensures var r := TelnetProtocol.HandleDo(old(Snap()).flags, option);
        Snap() == old(Snap()).(flags := r.flags, output := old(output) + r.reply)
    {
      if option == BINARY {
        binaryMode := true;
        SendWill(option);
      } else if option == END_OF_RECORD {
        endOfRecord := true;
        SendWill(option);
      } else if option == TERMINAL_TYPE {
        SendWill(option);
      } else if option == SUPPRESS_GO_AHEAD {
        SendWill(option);
      } else {
        SendWont(option);
      }
    }

    method HandleDont(option: bv8)
      requires Inv()
      modifies this
      ensures Inv()
      ensures var r := TelnetProtocol.HandleDont(old(Snap()).flags, option);
        Snap() == old(Snap()).(flags := r.flags, output := old(output) + r.reply)
    {
      SendWont(option);
    }

    method HandleWill(option: bv8)
      requires Inv()
      modifies this
      ensures Inv()
      ensures var r := TelnetProtocol.HandleWill(old(Snap()).flags, option);
        Snap() == old(Snap()).(flags := r.flags, output := old(output) + r.reply)
    {
      if option == BINARY {
        binaryMode := true;
        SendDo(option);
      } else if option == END_OF_RECORD {
        endOfRecord := true;
        SendDo(option);
      } else if option == SUPPRESS_GO_AHEAD {
        SendDo(option);
      } else {
        SendDont(option);
      }
    }

    method HandleWont(option: bv8)
      requires Inv()
      modifies this
      ensures Inv()
      ensures var r := TelnetProtocol.HandleWont(old(Snap()).flags, option);
        Snap() == old(Snap()).(flags := r.flags, output := old(output) + r.reply)
    {
      if option == BINARY {
        binaryMode := false;
      } else if option == END_OF_RECORD {
        endOfRecord := false;
      }
      SendDont(option);
    }

    method SendTerminalType()
      requires Inv()
      modifies this
      ensures Inv() && Snap() == old(Snap()).(output := old(output) + TerminalTypeReply(terminalType))
    {
      output := output + [IAC, SB, TERMINAL_TYPE, TT_IS] + terminalType + [IAC, SE];
    }

    method SendWill(option: bv8)
      requires Inv()
      modifies this
      ensures Inv() && output == old(output) + Send(WILL, option)
      ensures Snap() == old(Snap()).(output := output)
    {
      output := output + [IAC, WILL, option];
    }

    method SendWont(option: bv8)
      requires Inv()
      modifies this
      ensures Inv() && output == old(output) + Send(WONT, option)
      ensures Snap() == old(Snap()).(output := output)
    {
      output := output + [IAC, WONT, option];
    }

    method SendDo(option: bv8)
      requires Inv()
      modifies this
      ensures Inv() && output == old(output) + Send(DO, option)
      ensures Snap() == old(Snap()).(output := output)
    {
      output := output + [IAC, DO, option];
    }

    method SendDont(option: bv8)
      requires Inv()
      modifies this
      ensures Inv() && output == old(output) + Send(DONT, option)
      ensures Snap() == old(Snap()).(output := output)
    {
      output := output + [IAC, DONT, option];
    }

    /**
     * `processOngoingTelnetByte(b)`: None for a byte outside any command, -1
     * for a byte consumed by a command, 255 for IAC IAC.
     */
    method ProcessOngoingTelnetByte(b: bv8) returns (r: Option<int>)
      requires Valid()
      modifies this, negotiationBuffer
      ensures Valid() && (Snap(), r) == N.Step(old(Snap()), b)
    {
      if b == IAC && !inTelnetCommand {
        inTelnetCommand := true;
        bufferPos := 0;
        negotiationBuffer[bufferPos] := b;
        bufferPos := bufferPos + 1;
        assert Pending() == [IAC];
        return Some(-1);
      }
      if inTelnetCommand {
        ghost var held := N.AcceptByte(Pending(), b);
        if bufferPos < negotiationBuffer.Length {
          ghost var before := Pending();
          negotiationBuffer[bufferPos] := b;
          bufferPos := bufferPos + 1;
          assert Pending() == before + [b];
        }
        assert Pending() == held;
        ghost var s := Snap();
        var complete := IsCompleteTelnetCommand();
        if complete {
          var dataByte := ProcessTelnetCommand();
          inTelnetCommand := false;
          bufferPos := 0;
          assert N.Execute(s) == (Snap().(inCommand := true, pending := held), dataByte);
          if dataByte.Some? {
            return dataByte;
          } else {
            return Some(-1);
          }
        }
        return Some(-1);
      }
      return None;
    }
  }
}
