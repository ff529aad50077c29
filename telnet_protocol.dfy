/**
 * The Telnet option negotiation shared by `TelnetOptionsNegotiator.java`
 * and `TelnetOptions.java` (RFC 854, "TELNET COMMAND STRUCTURE"), as
 * functions over values: the opening offer, the replies to DO, DONT, WILL
 * and WONT with the two mode flags they change, the terminal-type reply of
 * RFC 1091, and the batch scan of `TelnetOptions.processTelnetCommands`.
 * Replies are the bytes appended to the output stream.
 */
module TelnetProtocol {
  import opened Tn3270Constants

  /** `sendWill`, `sendWont`, `sendDo`, `sendDont`: IAC, the verb, the option. */
  function Send(verb: bv8, option: bv8): seq<bv8> {
    [IAC, verb, option]
  }

  /**
   * The opening offer of `negotiateOptions`: WILL and DO Binary, WILL and
   * DO End-of-Record, WILL Terminal-Type, WILL and DO Suppress-Go-Ahead.
   */
  function Offer(): (r: seq<bv8>)
    ensures r == [0xFF, 0xFB, 0, 0xFF, 0xFD, 0, 0xFF, 0xFB, 25, 0xFF, 0xFD, 25,
                  0xFF, 0xFB, 24, 0xFF, 0xFB, 3, 0xFF, 0xFD, 3]
  {
    Send(WILL, BINARY) + Send(DO, BINARY)
    + Send(WILL, END_OF_RECORD) + Send(DO, END_OF_RECORD)
    + Send(WILL, TERMINAL_TYPE)
    + Send(WILL, SUPPRESS_GO_AHEAD) + Send(DO, SUPPRESS_GO_AHEAD)
  }

  /** The two negotiated modes. */
  datatype Flags = Flags(binaryMode: bool, endOfRecord: bool)

  /** What a handler leaves: the new flags and the bytes it sent. */
  datatype Reaction = Reaction(flags: Flags, reply: seq<bv8>)

  /** Options the terminal agrees to perform itself. */
  predicate PerformsLocally(option: bv8) {
    option == BINARY || option == END_OF_RECORD || option == TERMINAL_TYPE || option == SUPPRESS_GO_AHEAD
  }

  /** Options the terminal asks the host to perform (Terminal-Type is not among them). */
  predicate AcceptsFromHost(option: bv8) {
    option == BINARY || option == END_OF_RECORD || option == SUPPRESS_GO_AHEAD
  }

  /** `handleDo`: WILL for the four supported options, WONT otherwise; Binary and End-of-Record switch on. */
  function HandleDo(f: Flags, option: bv8): (r: Reaction)
    ensures r.reply == Send(if PerformsLocally(option) then WILL else WONT, option)
    ensures r.flags == Flags(f.binaryMode || option == BINARY, f.endOfRecord || option == END_OF_RECORD)
  {
    if option == BINARY then Reaction(f.(binaryMode := true), Send(WILL, option))
    else if option == END_OF_RECORD then Reaction(f.(endOfRecord := true), Send(WILL, option))
    else if option == TERMINAL_TYPE then Reaction(f, Send(WILL, option))
    else if option == SUPPRESS_GO_AHEAD then Reaction(f, Send(WILL, option))
    else Reaction(f, Send(WONT, option))
  }

  /** `handleDont`: always WONT, and no flag changes. */
  function HandleDont(f: Flags, option: bv8): (r: Reaction)
    ensures r.reply == Send(WONT, option) && r.flags == f
  {
    Reaction(f, Send(WONT, option))
  }

  /** `handleWill`: DO for Binary, End-of-Record and Suppress-Go-Ahead, DONT otherwise. */
  function HandleWill(f: Flags, option: bv8): (r: Reaction)
    ensures r.reply == Send(if AcceptsFromHost(option) then DO else DONT, option)
    ensures r.flags == Flags(f.binaryMode || option == BINARY, f.endOfRecord || option == END_OF_RECORD)
  {
    if option == BINARY then Reaction(f.(binaryMode := true), Send(DO, option))
    else if option == END_OF_RECORD then Reaction(f.(endOfRecord := true), Send(DO, option))
    else if option == SUPPRESS_GO_AHEAD then Reaction(f, Send(DO, option))
    else Reaction(f, Send(DONT, option))
  }

  /** `handleWont`: Binary and End-of-Record switch off; the reply is always DONT. */
  function HandleWont(f: Flags, option: bv8): (r: Reaction)
    ensures r.reply == Send(DONT, option)
    ensures r.flags == Flags(f.binaryMode && option != BINARY, f.endOfRecord && option != END_OF_RECORD)
  {
    var g := if option == BINARY then f.(binaryMode := false)
             else if option == END_OF_RECORD then f.(endOfRecord := false)
             else f;
    Reaction(g, Send(DONT, option))
  }

  predicate IsNegotiation(verb: bv8) {
    verb == DO || verb == DONT || verb == WILL || verb == WONT
  }

  /** The handler a negotiation verb selects. */
  function Negotiate(f: Flags, verb: bv8, option: bv8): (r: Reaction)
    requires IsNegotiation(verb)
    ensures |r.reply| == 3 && r.reply[0] == IAC && r.reply[2] == option
  {
    if verb == DO then HandleDo(f, option)
    else if verb == DONT then HandleDont(f, option)
    else if verb == WILL then HandleWill(f, option)
    else HandleWont(f, option)
  }

  /**
   * Only DO and WILL for Binary or End-of-Record switch a mode on, only WONT
   * switches one off, and DONT never changes either.
   */
  lemma FlagsChangeOnlyAsNegotiated(f: Flags, verb: bv8, option: bv8)
    requires IsNegotiation(verb)
    ensures var g := Negotiate(f, verb, option).flags;
      g.binaryMode == (if option != BINARY then f.binaryMode else verb == DO || verb == WILL || (verb == DONT && f.binaryMode))
      && g.endOfRecord == (if option != END_OF_RECORD then f.endOfRecord else verb == DO || verb == WILL || (verb == DONT && f.endOfRecord))
      && (verb == DONT ==> g == f)
  {
  }

  /** `r` is what `String.getBytes` gives for `s`, a text of 7-bit characters: their codes. */
  predicate IsAsciiOf(r: seq<bv8>, s: string)
  {
    |r| == |s| && forall i :: 0 <= i < |s| ==> s[i] < 128 as char && r[i] as int == s[i] as int
  }

  /** `TERMINAL_TYPE_IBM3278` as the bytes sent. */
  function IBM3278(): (r: seq<bv8>)
    ensures IsAsciiOf(r, "IBM-3278-2-E")
  {
    [0x49, 0x42, 0x4D, 0x2D, 0x33, 0x32, 0x37, 0x38, 0x2D, 0x32, 0x2D, 0x45]
  }

  /** `TERMINAL_TYPE_IBM3279` as the bytes sent. */
  function IBM3279(): (r: seq<bv8>)
    ensures IsAsciiOf(r, "IBM-3279-2-E")
  {
    [0x49, 0x42, 0x4D, 0x2D, 0x33, 0x32, 0x37, 0x39, 0x2D, 0x32, 0x2D, 0x45]
  }

  /** `sendTerminalType`: IAC SB TERMINAL-TYPE IS, the type, IAC SE (section 2 of RFC 1091). */
  function TerminalTypeReply(terminalType: seq<bv8>): (r: seq<bv8>)
    ensures |r| == |terminalType| + 6
    ensures r[..4] == [IAC, SB, TERMINAL_TYPE, TT_IS] && r[4..|r| - 2] == terminalType
    ensures r[|r| - 2..] == [IAC, SE]
  {
    [IAC, SB, TERMINAL_TYPE, TT_IS] + terminalType + [IAC, SE]
  }

  // ------------------------------------------------- the batch scanner

  /** The state `TelnetOptions` keeps: its flags, its terminal type and what it has sent. */
  datatype Options = Options(flags: Flags, terminalType: seq<bv8>, output: seq<bv8>)

  /**
   * The inner loop of `handleSubnegotiation`: the first `i` from `from` on
   * with IAC SE at `i` and `i + 1` before `length`, else `length - 1`.
   */
  function SubnegotiationEnd(data: seq<bv8>, from: int, length: int): (i: int)
    requires 0 <= from < length <= |data|
    ensures from <= i <= length - 1
    ensures i < length - 1 ==> data[i] == IAC && data[i + 1] == SE
    ensures forall j :: from <= j < i ==> !(data[j] == IAC && data[j + 1] == SE)
    decreases length - from
  {
    if from >= length - 1 then from
    else if data[from] == IAC && data[from + 1] == SE then from
    else SubnegotiationEnd(data, from + 1, length)
  }

  /**
   * The IAC SB at `index` opens a terminal-type SEND followed by at least
   * one more byte: the only subnegotiation `handleSubnegotiation` answers.
   */
  predicate IsTerminalTypeSend(data: seq<bv8>, index: int, length: int)
    requires 0 <= index && length <= |data|
  {
    index + 4 < length && data[index + 2] == TERMINAL_TYPE && data[index + 3] == TT_SEND
  }

  /**
   * `handleSubnegotiation` for the IAC SB at `index`: with fewer than four
   * bytes from `index` it skips one byte; otherwise it skips past the IAC SE
   * ending the subnegotiation (two past the end when there is none), and
   * answers a terminal-type SEND whose body is not empty.
   */
  function Subnegotiation(o: Options, data: seq<bv8>, index: int, length: int): (r: (Options, int))
    requires 0 <= index && index + 2 < length <= |data|
    ensures r.1 > index
    ensures r.0.flags == o.flags && r.0.terminalType == o.terminalType
    ensures index + 3 >= length ==> r == (o, index + 1)
    ensures index + 3 < length ==> r.1 == SubnegotiationEnd(data, index + 3, length) + 2
    ensures IsTerminalTypeSend(data, index, length) ==> r.0.output == o.output + TerminalTypeReply(o.terminalType)
    ensures !IsTerminalTypeSend(data, index, length) ==> r.0.output == o.output
  {
    if index + 3 >= length then (o, index + 1)
    else
      var option := data[index + 2];
      var i := SubnegotiationEnd(data, index + 3, length);
      var reply := if option == TERMINAL_TYPE && i > index + 3 && data[index + 3] == TT_SEND
                   then TerminalTypeReply(o.terminalType) else [];
      (o.(output := o.output + reply), i + 2)
  }

  /**
   * `processTelnetCommands(data, length)` from index `i`: an IAC with two
   * more bytes before `length` is a command (a negotiation or a
   * subnegotiation; any other command is skipped with its two bytes); every
   * other byte is skipped.
   */
  function ScanCommands(o: Options, data: seq<bv8>, i: int, length: int): (r: Options)
    requires 0 <= i && length <= |data|
    ensures r.terminalType == o.terminalType
    decreases length - i
  {
    if i >= length then o
    else if data[i] == IAC && i + 2 < length then
      var command, option := data[i + 1], data[i + 2];
      if command == SB then
        var (next, j) := Subnegotiation(o, data, i, length);
        ScanCommands(next, data, j, length)
      else if IsNegotiation(command) then
        var reaction := Negotiate(o.flags, command, option);
        ScanCommands(Options(reaction.flags, o.terminalType, o.output + reaction.reply), data, i + 3, length)
      else ScanCommands(o, data, i + 3, length)
    else ScanCommands(o, data, i + 1, length)
  }

  /** An IAC in either of the last two positions starts no command: the scan ends with nothing done. */
  lemma {:induction false} ShortTailIgnored(o: Options, data: seq<bv8>, i: int, length: int)
    requires 0 <= i && length <= |data| && i + 2 >= length
    ensures ScanCommands(o, data, i, length) == o
    decreases length - i
  {
    if i < length {
      ShortTailIgnored(o, data, i + 1, length);
    }
  }

  /** IAC followed by anything but a negotiation verb or SB skips three bytes and changes nothing. */
  lemma OtherCommandSkipped(o: Options, data: seq<bv8>, i: int, length: int)
    requires 0 <= i && i + 2 < length <= |data| && data[i] == IAC
    requires !IsNegotiation(data[i + 1]) && data[i + 1] != SB
    ensures ScanCommands(o, data, i, length) == ScanCommands(o, data, i + 3, length)
  {
  }

  /** An IAC DO, DONT, WILL or WONT triple gets its handler's reply and flags, and the scan goes on three bytes later. */
  lemma NegotiationTriple(o: Options, data: seq<bv8>, i: int, length: int)
    requires 0 <= i && i + 2 < length <= |data| && data[i] == IAC && IsNegotiation(data[i + 1])
    ensures var reaction := Negotiate(o.flags, data[i + 1], data[i + 2]);
      ScanCommands(o, data, i, length)
      == ScanCommands(Options(reaction.flags, o.terminalType, o.output + reaction.reply), data, i + 3, length)
  {
  }

  /** A terminal-type SEND subnegotiation is answered with the terminal type. */
  lemma TerminalTypeRequestAnswered(o: Options, rest: seq<bv8>)
    ensures var data := [IAC, SB, TERMINAL_TYPE, TT_SEND, IAC, SE] + rest;
      ScanCommands(o, data, 0, |data|)
      == ScanCommands(o.(output := o.output + TerminalTypeReply(o.terminalType)), data, 6, |data|)
  {
    var data := [IAC, SB, TERMINAL_TYPE, TT_SEND, IAC, SE] + rest;
    assert SubnegotiationEnd(data, 3, |data|) == 4 by {
      assert SubnegotiationEnd(data, 4, |data|) == 4;
    }
  }

  /**
   * `processOptionNegotiations` over the reads that arrived before it gave
   * up waiting: each read is scanned on its own, from its first byte.
   */
  function Negotiated(o: Options, chunks: seq<seq<bv8>>): (r: Options)
    ensures r.terminalType == o.terminalType
    ensures chunks == [] ==> r == o
    decreases |chunks|
  {
    if chunks == [] then o
    else Negotiated(ScanCommands(o, chunks[0], 0, |chunks[0]|), chunks[1..])
  }

  /**
   * Each read is scanned on its own, so a command split across two reads is
   * lost: IAC DO BINARY in one read switches binary mode on, but IAC DO in
   * one read and BINARY in the next changes nothing and sends nothing.
   */
  lemma SplitCommandLost(o: Options)
    requires !o.flags.binaryMode
    ensures Negotiated(o, [[IAC, DO, BINARY]]).flags.binaryMode
    ensures Negotiated(o, [[IAC, DO], [BINARY]]) == o
  {
    var whole := [IAC, DO, BINARY];
    NegotiationTriple(o, whole, 0, 3);
    var reaction := Negotiate(o.flags, DO, BINARY);
    ShortTailIgnored(Options(reaction.flags, o.terminalType, o.output + reaction.reply), whole, 3, 3);
    assert [[IAC, DO, BINARY]][1..] == [];
    ShortTailIgnored(o, [IAC, DO], 0, 2);
    ShortTailIgnored(o, [BINARY], 0, 1);
    assert [[IAC, DO], [BINARY]][1..] == [[BINARY]];
    assert [[BINARY]][1..] == [];
  }
}
