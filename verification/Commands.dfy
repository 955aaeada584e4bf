/** Printing commands: the XOR checksum, its two hexadecimal digits, and the bytes that
    vndevice_writeOutCommand (and vndevice_transaction) put on the wire. */
module Commands {
  import opened Bytes
  import opened CrcDetection
  import opened Framer
  import opened Demultiplexing

  // ---------------------------------------------------------------------------
  // The checksum
  // ---------------------------------------------------------------------------

  function XorBytes(a: Byte, b: Byte): Byte {
    ByteOf(Xor(ByteBits(a), ByteBits(b)))
  }

  function XorAll(m: seq<Byte>): Byte {
    if m == [] then 0 else XorBytes(XorAll(m[..|m| - 1]), m[|m| - 1])
  }

  /** Bit k of every byte of a message. */
  function Column(m: seq<Byte>, k: nat): (c: Poly)
    requires k < 8
    ensures |c| == |m|
  {
    seq(|m|, i requires 0 <= i < |m| => ByteBits(m[i])[k])
  }

  /** Each bit of the checksum is the parity of its column. */
  lemma {:induction false} ChecksumIsColumnParity(m: seq<Byte>, k: nat)
    requires k < 8
    ensures ByteBits(XorAll(m))[k] == Odd(Column(m, k))
  {
    if m == [] {
      ZeroBits(8);
    } else {
      var n := |m| - 1;
      ChecksumIsColumnParity(m[..n], k);
      assert Column(m, k)[..n] == Column(m[..n], k);
    }
  }

  // ---------------------------------------------------------------------------
  // "%02X"
  // ---------------------------------------------------------------------------

  function HexDigit(n: nat): (c: Byte)
    requires n < 16
  {
    if n < 10 then (0x30 + n) as Byte else (0x41 + n - 10) as Byte
  }

  lemma HexDigitIs(n: nat)
    requires n < 16
    ensures HexDigit(n) as int == "0123456789ABCDEF"[n] as int
  {
    var text := "0123456789ABCDEF";
    assert n < 10 ==> text[n] as int == 0x30 + n;
    assert n >= 10 ==> text[n] as int == 0x41 + n - 10;
  }

  /** Reading an upper-case hexadecimal digit. */
  function HexValue(c: Byte): nat {
    if 0x30 <= c <= 0x39 then c as nat - 0x30
    else if 0x41 <= c <= 0x46 then c as nat - 0x41 + 10
    else 0
  }

  type Command = c: seq<Byte> | c != [] witness [ASCII_START]

  /** The command as it goes out: followed by '*', the checksum of everything after the
      '$' and the end characters. */
  function Printed(cmd: Command): (p: Packet)
    ensures |p| == |cmd| + 5
  {
    var cs := XorAll(cmd[1..]) as nat;
    cmd + [STAR, HexDigit(cs / 16), HexDigit(cs % 16), CARRIAGE_RETURN, LINE_FEED]
  }

  /** At most 250 characters, '$' first, then none of '$', CR, LF or NUL. */
  ghost predicate IsCommand(cmd: Command) {
    && 1 <= |cmd| <= 250 && cmd[0] == ASCII_START
    && forall i :: 1 <= i < |cmd| ==>
         cmd[i] != ASCII_START && cmd[i] != CARRIAGE_RETURN && cmd[i] != LINE_FEED && cmd[i] != 0
  }

  /** The two digits after the '*' read back as the XOR of the bytes between '$' and '*'. */
  lemma DigitsDecode(cmd: Command)
    requires IsCommand(cmd)
    ensures var p := Printed(cmd);
      && p[|cmd|] == STAR && p[1..|cmd|] == cmd[1..]
      && 16 * HexValue(p[|cmd| + 1]) + HexValue(p[|cmd| + 2]) == XorAll(p[1..|cmd|]) as nat
  {
    assert Printed(cmd)[1..|cmd|] == cmd[1..];
  }

  lemma PrintedIsTextPacket(cmd: Command)
    requires IsCommand(cmd)
    ensures IsTextPacket(Printed(cmd))
  {
  }

  ghost predicate AllCommands(cmds: seq<Command>) {
    forall i :: 0 <= i < |cmds| ==> IsCommand(cmds[i])
  }

  function PrintedAll(cmds: seq<Command>): seq<Byte> {
    if cmds == [] then [] else PrintedAll(cmds[..|cmds| - 1]) + Printed(cmds[|cmds| - 1])
  }

  function EachPrinted(cmds: seq<Command>): seq<Packet> {
    if cmds == [] then [] else EachPrinted(cmds[..|cmds| - 1]) + [Printed(cmds[|cmds| - 1])]
  }

  lemma OneMoreReadBack(s: AsciiState, input: seq<Byte>, cmd: Command)
    requires ValidAscii(s) && IsCommand(cmd)
    ensures RunAscii(s, input + Printed(cmd)).packets == RunAscii(s, input).packets + [Printed(cmd)]
  {
    AsciiConcat(s, input, Printed(cmd));
    PrintedIsTextPacket(cmd);
    TextFrameDispatched(RunAscii(s, input).state, Printed(cmd));
  }

  /** Any list of commands, read back by a framer in any state, comes out as exactly those
      commands in order. */
  lemma {:induction false} CommandsReadBack(s: AsciiState, cmds: seq<Command>)
    requires ValidAscii(s) && AllCommands(cmds)
    ensures RunAscii(s, PrintedAll(cmds)).packets == EachPrinted(cmds)
  {
    if cmds == [] {
    } else {
      var n := |cmds| - 1;
      CommandsReadBack(s, cmds[..n]);
      OneMoreReadBack(s, PrintedAll(cmds[..n]), cmds[n]);
    }
  }

  // ---------------------------------------------------------------------------
  // Writing a command out
  // ---------------------------------------------------------------------------

  /** The serial port, as the bytes written to it. */
  class ComPort {
    var written: seq<Byte>

    constructor ()
      ensures written == []
    {
      written := [];
    }

    method WriteData(data: seq<Byte>)
      modifies this
      ensures written == old(written) + data
    {
      written := written + data;
    }
  }

  method ComputeXorFromCommand(cmdToCheck: seq<Byte>) returns (xorVal: Byte)
    ensures xorVal == XorAll(cmdToCheck)
  {
    xorVal := 0;
    for i := 0 to |cmdToCheck|
      invariant xorVal == XorAll(cmdToCheck[..i])
    {
      assert cmdToCheck[..i + 1][..i] == cmdToCheck[..i];
      xorVal := XorBytes(xorVal, cmdToCheck[i]);
    }
    assert cmdToCheck[..|cmdToCheck|] == cmdToCheck;
  }

  /** Overwrites two characters of the tail with the digits of the checksum. */
  method ComputeAndReturnAsHex(cmdToCheck: seq<Byte>, checksum: array<Byte>, at: nat)
    requires at + 2 <= checksum.Length
    modifies checksum
    ensures var cs := XorAll(cmdToCheck) as nat;
      checksum[..] == old(checksum[..])[at := HexDigit(cs / 16)][at + 1 := HexDigit(cs % 16)]
  {
    var cs := ComputeXorFromCommand(cmdToCheck);
    checksum[at] := HexDigit(cs as nat / 16);
    checksum[at + 1] := HexDigit(cs as nat % 16);
  }

  method WriteOutCommand(port: ComPort, cmdToSend: Command)
    modifies port
    ensures port.written == old(port.written) + Printed(cmdToSend)
  {
    var packetTail := new Byte[5] [STAR, 0x46, 0x46, CARRIAGE_RETURN, LINE_FEED];
    ComputeAndReturnAsHex(cmdToSend[1..], packetTail, 1);
    port.WriteData(cmdToSend);
    port.WriteData(packetTail[..]);
    ghost var cs := XorAll(cmdToSend[1..]) as nat;
    assert packetTail[..] == [STAR, HexDigit(cs / 16), HexDigit(cs % 16), CARRIAGE_RETURN, LINE_FEED];
  }
}
