/**
 * `TelnetOptions.java` as a class: the two mode flags, the terminal type
 * and the bytes written to the output stream.  Each method is proved
 * against the functions of `TelnetProtocol`.
 */
module TelnetOptionHandling {
  import opened Tn3270Constants
  import opened TelnetProtocol

  class TelnetOptions {
    /** The bytes written to the output stream so far. */
    var output: seq<bv8>
    var binaryMode: bool
    var endOfRecord: bool
    var terminalType: seq<bv8>

    /** The object as a value of the model. */
    function Snap(): Options
      reads this
    {
      Options(Flags(binaryMode, endOfRecord), terminalType, output)
    }

    constructor()
      ensures Snap() == Options(Flags(false, false), IBM3278(), [])
    {
      output := [];
      binaryMode := false;
      endOfRecord := false;
      terminalType := IBM3278();
    }

    method SetTerminalType(terminalType: seq<bv8>)
      modifies this
      ensures Snap() == old(Snap()).(terminalType := terminalType)
    {
      this.terminalType := terminalType;
    }

    /**
     * `negotiateOptions`: send the opening offer, then scan each read that
     * arrives (`chunks`, in order) for commands.
     */
    method NegotiateOptions(chunks: seq<seq<bv8>>)
      modifies this
      ensures Snap() == Negotiated(old(Snap()).(output := old(output) + Offer()), chunks)
    {
      SendWill(BINARY);
      SendDo(BINARY);
      SendWill(END_OF_RECORD);
      SendDo(END_OF_RECORD);
      SendWill(TERMINAL_TYPE);
      SendWill(SUPPRESS_GO_AHEAD);
      SendDo(SUPPRESS_GO_AHEAD);
      assert output == old(output) + Offer();
      ProcessOptionNegotiations(chunks);
    }

    /** `processOptionNegotiations`: every read is scanned from its start to its length. */
    method ProcessOptionNegotiations(chunks: seq<seq<bv8>>)
      modifies this
      ensures Snap() == Negotiated(old(Snap()), chunks)
    {
      var k := 0;
      while k < |chunks|
        invariant 0 <= k <= |chunks|
        invariant Negotiated(Snap(), chunks[k..]) == Negotiated(old(Snap()), chunks)
      {
        assert chunks[k..][1..] == chunks[k + 1..];
        ProcessTelnetCommands(chunks[k], |chunks[k]|);
        k := k + 1;
      }
    }

    /** `processTelnetCommands(data, length)`. */
    method ProcessTelnetCommands(data: seq<bv8>, length: int)
      requires length <= |data|
      modifies this
      ensures Snap() == ScanCommands(old(Snap()), data, 0, length)
    {
      var i := 0;
      while i < length
        invariant 0 <= i
        invariant ScanCommands(Snap(), data, i, length) == ScanCommands(old(Snap()), data, 0, length)
        decreases length - i
      {
        if data[i] == IAC && i + 2 < length {
          var command := data[i + 1];
          var option := data[i + 2];
          if command == DO {
            HandleDo(option);
          } else if command == DONT {
            HandleDont(option);
          } else if command == WILL {
            HandleWill(option);
          } else if command == WONT {
            HandleWont(option);
          } else if command == SB {
            i := HandleSubnegotiation(data, i, length);
            continue;
          }
          i := i + 3;
        } else {
          i := i + 1;
        }
      }
    }

    method HandleDo(option: bv8)
      modifies this
      ensures var r := TelnetProtocol.HandleDo(old(Snap()).flags, option);
        Snap() == old(Snap()).(flags := r.flags, output := old(output) + r.reply)
    {
      if option == BINARY {
        binaryMode := true;
        SendWill(option);
      } else if option == END_OF_RECORD {
        endOfRecord := true;
        SendWill(option);
      } else if option == TERMINAL_TYPE {
        SendWill(option);
      } else if option == SUPPRESS_GO_AHEAD {
        SendWill(option);
      } else {
        SendWont(option);
      }
    }

    method HandleDont(option: bv8)
      modifies this
      ensures var r := TelnetProtocol.HandleDont(old(Snap()).flags, option);
        Snap() == old(Snap()).(flags := r.flags, output := old(output) + r.reply)
    {
      SendWont(option);
    }

    method HandleWill(option: bv8)
      modifies this
      ensures var r := TelnetProtocol.HandleWill(old(Snap()).flags, option);
        Snap() == old(Snap()).(flags := r.flags, output := old(output) + r.reply)
    {
      if option == BINARY {
        binaryMode := true;
        SendDo(option);
      } else if option == END_OF_RECORD {
        endOfRecord := true;
        SendDo(option);
      } else if option == SUPPRESS_GO_AHEAD {
        SendDo(option);
      } else {
        SendDont(option);
      }
    }

    method HandleWont(option: bv8)
      modifies this
      ensures var r := TelnetProtocol.HandleWont(old(Snap()).flags, option);
        Snap() == old(Snap()).(flags := r.flags, output := old(output) + r.reply)
    {
      if option == BINARY {
        binaryMode := false;
      } else if option == END_OF_RECORD {
        endOfRecord := false;
      }
      SendDont(option);
    }

    /**
     * `handleSubnegotiation` for the IAC SB at `index`: search for IAC SE,
     * answer a terminal-type SEND, and return the index after IAC SE.
     */
    method HandleSubnegotiation(data: seq<bv8>, index: int, length: int) returns (next: int)
      requires 0 <= index && index + 2 < length <= |data|
      modifies this
      ensures (Snap(), next) == Subnegotiation(old(Snap()), data, index, length)
    {
      if index + 3 >= length {
        return index + 1;
      }
      ghost var o := Snap();
      var option := data[index + 2];
      var i := index + 3;
      while i < length - 1
        invariant index + 3 <= i <= length - 1
        invariant SubnegotiationEnd(data, i, length) == SubnegotiationEnd(data, index + 3, length)
      {
        if data[i] == IAC && data[i + 1] == SE {
          break;
        }
        i := i + 1;
      }
      assert i == SubnegotiationEnd(data, i, length);
      if option == TERMINAL_TYPE && i > index + 3 {
        var subCommand := data[index + 3];
        if subCommand == TT_SEND {
          SendTerminalType();
        }
      }
      assert o.output + [] == o.output;
      return i + 2;
    }

    method SendTerminalType()
      modifies this
      ensures Snap() == old(Snap()).(output := old(output) + TerminalTypeReply(terminalType))
    {
      output := output + [IAC, SB, TERMINAL_TYPE, TT_IS] + terminalType + [IAC, SE];
    }

    method SendWill(option: bv8)
      modifies this
      ensures Snap() == old(Snap()).(output := old(output) + Send(WILL, option))
    {
      output := output + [IAC, WILL, option];
    }

    method SendWont(option: bv8)
      modifies this
      ensures Snap() == old(Snap()).(output := old(output) + Send(WONT, option))
    {
      output := output + [IAC, WONT, option];
    }

    method SendDo(option: bv8)
      modifies this
      ensures Snap() == old(Snap()).(output := old(output) + Send(DO, option))
    {
      output := output + [IAC, DO, option];
    }

    method SendDont(option: bv8)
      modifies this
      ensures Snap() == old(Snap()).(output := old(output) + Send(DONT, option))
    {
      output := output + [IAC, DONT, option];
    }
  }
}
