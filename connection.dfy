/**
 * `XRPCConnection`: one TCP session with the console's debug monitor (XBDM).  The socket
 * is modelled by what can still be read from it: the lines the monitor will send, in
 * order, and what a read meets once they are used up (the end of the stream, or the
 * five-second read timeout).  What the client writes is kept as a log.
 */
module Connection {
  import opened Wrappers
  import opened Text
  import opened Numbers

  /** What a read meets once the remaining lines are used up. */
  datatype Ending = EndOfStream | ReadTimeout

  /** The input side of an open socket: the lines still to come, then the ending. */
  datatype Stream = Stream(lines: seq<string>, ending: Ending)

  /** `BufferedReader.readLine`: a line, null at the end of the stream, or a SocketTimeoutException. */
  datatype ReadResult = Line(text: string) | EndOfInput | TimedOutRead

  /** `new Socket(ip, port)`: refused with the exception's message, or accepted with its input. */
  datatype Dial = Refuse(reason: string) | Accept(stream: Stream)

  /**
   * The exceptions a session raises: the IOExceptions of a refused socket, a closed
   * stream and a read timeout, and the IllegalArgumentException `new Socket` throws for
   * a port out of range.
   */
  datatype Fault = Unreachable(reason: string) | ClosedByXbdm | TimedOut | PortOutOfRange(port: int)

  /** The faults that are IOExceptions. */
  predicate IsIoFault(f: Fault) {
    !f.PortOutOfRange?
  }

  /** `ex.getMessage()` of each fault; a timeout and a bad port carry the JDK's messages. */
  function FaultMessage(f: Fault): string {
    match f
    case Unreachable(reason) => reason
    case ClosedByXbdm => "Connection closed by XBDM"
    case TimedOut => "Read timed out"
    case PortOutOfRange(port) => "port out of range:" + IntToString(port)
  }

  /** The ports `new Socket` accepts; any other is rejected before anything is dialled. */
  predicate ValidPort(port: int) {
    0 <= port <= 0xFFFF
  }

  /** What `connect()` on a closed session leaves: the input after the banner, or the fault. */
  function ConnectSpec(port: int, dial: Dial): (r: Result<Stream, Fault>)
    ensures r.Failure? <==> !ValidPort(port) || dial.Refuse?
    ensures !ValidPort(port) ==> r == Failure(PortOutOfRange(port))
    ensures ValidPort(port) && dial.Refuse? ==> r == Failure(Unreachable(dial.reason))
  {
    if !ValidPort(port) then Failure(PortOutOfRange(port))
    else match dial
      case Refuse(reason) => Failure(Unreachable(reason))
      case Accept(stream) => Success(Read(stream).1)
  }

  /** One `readLine` on the stream: what it returns and what is left. */
  function Read(s: Stream): (p: (ReadResult, Stream))
    ensures s.lines != [] ==> p.0 == Line(s.lines[0]) && p.1.lines == s.lines[1..]
    ensures s.lines == [] ==> p.1 == s && (p.0 == EndOfInput <==> s.ending == EndOfStream)
    ensures p.1.ending == s.ending
  {
    if s.lines != [] then (Line(s.lines[0]), Stream(s.lines[1..], s.ending))
    else if s.ending == EndOfStream then (EndOfInput, s)
    else (TimedOutRead, s)
  }

  // ---------------------------------------------------------------------------
  // Writing a command
  // ---------------------------------------------------------------------------

  /** The characters java.util.regex treats as line terminators. */
  predicate IsLineTerminator(c: char) {
    c == '\n' || c == '\r' || c == '\U{0085}' || c == '\U{2028}' || c == '\U{2029}'
  }

  /**
   * `s.replaceAll("\n$", "")` for text not ending in CR LF, the only text it is applied
   * to (a text ending in CR LF is written unchanged).  Outside multiline mode `$` matches at the very end and
   * also just before one final line terminator, so a line feed is deleted when it is the
   * last character and when it is followed by one last terminator; with two final line
   * feeds both go.
   */
  function StripFinalFeed(s: string): (r: string)
    ensures |r| <= |s|
  {
    var n := |s|;
    if n >= 2 && s[n - 2] == '\n' && IsLineTerminator(s[n - 1]) then
      (if s[n - 1] == '\n' then s[..n - 2] else s[..n - 2] + [s[n - 1]])
    else if n >= 1 && s[n - 1] == '\n' then s[..n - 1]
    else s
  }

  /**
   * The text `send` writes: a command already ending in CR LF as it is, any other with a
   * final line feed removed and CR LF appended.
   */
  function NormalizeCommand(cmd: string): (wire: string)
    ensures EndsWith(wire, "\r\n")
    ensures EndsWith(cmd, "\r\n") ==> wire == cmd
  {
    if EndsWith(cmd, "\r\n") then cmd else StripFinalFeed(cmd) + "\r\n"
  }

  /** A command with no final line terminator gets CR LF appended and is otherwise unchanged. */
  lemma NormalizePlainCommand(cmd: string)
    requires cmd == [] || !IsLineTerminator(cmd[|cmd| - 1])
    ensures NormalizeCommand(cmd) == cmd + "\r\n"
  {
  }

  /** A command ending in a lone line feed has it replaced by CR LF. */
  lemma NormalizeFeedCommand(body: string)
    requires body == [] || !IsLineTerminator(body[|body| - 1])
    ensures NormalizeCommand(body + "\n") == body + "\r\n"
  {
    var cmd := body + "\n";
    assert cmd[..|body|] == body;
    if body != [] {
      assert cmd[|cmd| - 2] == body[|body| - 1];
    }
  }

  // ---------------------------------------------------------------------------
  // Reading the reply
  // ---------------------------------------------------------------------------

  /** A status line announcing that a block of lines follows. */
  predicate Announces(status: string) {
    var lower := ToLower(status);
    Contains(lower, "response follows") || Contains(lower, "send binary data")
  }

  /** The index of the first lone `.` at or after `from`, or the number of lines. */
  function BlockEnd(lines: seq<string>, from: nat): (e: nat)
    requires from <= |lines|
    ensures from <= e <= |lines|
    ensures forall j :: from <= j < e ==> lines[j] != "."
    ensures e < |lines| ==> lines[e] == "."
    decreases |lines| - from
  {
    if from == |lines| || lines[from] == "." then from else BlockEnd(lines, from + 1)
  }

  lemma {:induction false} BlockEndAt(lines: seq<string>, from: nat, e: nat)
    requires from <= e <= |lines|
    requires forall j :: from <= j < e ==> lines[j] != "."
    requires e < |lines| ==> lines[e] == "."
    ensures BlockEnd(lines, from) == e
    decreases e - from
  {
    if from < e {
      BlockEndAt(lines, from + 1, e);
    }
  }

  /** What one exchange leaves: the reply or fault, and the socket afterwards (None once closed). */
  datatype Outcome = Outcome(reply: Result<string, Fault>, socket: Option<Stream>)

  /**
   * The block after an announcing status line: the lines up to the first lone `.`, which
   * is consumed, joined with line feeds after the status line.  The end of the stream also
   * ends the block, while a timeout inside the block raises a fault and leaves the socket
   * open.
   */
  function Continuation(status: string, t: Stream): Outcome {
    var e := BlockEnd(t.lines, 0);
    var reply := JoinLines([status] + t.lines[..e]);
    if e < |t.lines| then Outcome(Success(reply), Some(Stream(t.lines[e + 1..], t.ending)))
    else if t.ending == EndOfStream then Outcome(Success(reply), Some(Stream([], EndOfStream)))
    else Outcome(Failure(TimedOut), Some(Stream([], ReadTimeout)))
  }

  /**
   * Reading one reply after the command is written.  No status line closes the session
   * and raises a fault; an announcing status line is followed by its block.
   */
  function Exchange(s: Stream): Outcome {
    if s.lines == [] then
      Outcome(Failure(if s.ending == EndOfStream then ClosedByXbdm else TimedOut), None)
    else
      var first := s.lines[0];
      if !Announces(first) then Outcome(Success(first), Some(Stream(s.lines[1..], s.ending)))
      else Continuation(first, Stream(s.lines[1..], s.ending))
  }

  /** A status line with no announcement is the whole reply; nothing after it is read. */
  lemma ExchangeStatusOnly(status: string, rest: seq<string>, ending: Ending)
    requires !Announces(status)
    ensures Exchange(Stream([status] + rest, ending)) == Outcome(Success(status), Some(Stream(rest, ending)))
  {
    assert ([status] + rest)[1..] == rest;
  }

  /**
   * An announced block framed by a lone `.` is the reply, joined with line feeds after the
   * status line; the `.` is consumed and nothing after it is read.
   */
  lemma ExchangeFramed(status: string, block: seq<string>, rest: seq<string>, ending: Ending)
    requires Announces(status)
    requires forall j :: 0 <= j < |block| ==> block[j] != "."
    ensures Exchange(Stream([status] + block + ["."] + rest, ending)) ==
            Outcome(Success(JoinLines([status] + block)), Some(Stream(rest, ending)))
  {
    var tail := block + ["."] + rest;
    FramedAssoc(status, block, rest);
    ExchangeAnnounced(status, tail, ending);
    ContinuationFramed(status, block, rest, ending);
  }

  lemma FramedAssoc(status: string, block: seq<string>, rest: seq<string>)
    ensures [status] + block + ["."] + rest == [status] + (block + ["."] + rest)
  {
  }

  lemma ExchangeAnnounced(status: string, tail: seq<string>, ending: Ending)
    requires Announces(status)
    ensures Exchange(Stream([status] + tail, ending)) == Continuation(status, Stream(tail, ending))
  {
    assert ([status] + tail)[1..] == tail;
  }

  lemma ContinuationFramed(status: string, block: seq<string>, rest: seq<string>, ending: Ending)
    requires forall j :: 0 <= j < |block| ==> block[j] != "."
    ensures Continuation(status, Stream(block + ["."] + rest, ending)) ==
            Outcome(Success(JoinLines([status] + block)), Some(Stream(rest, ending)))
  {
    FramedBlockEnd(block, rest);
  }

  /** In `block + ["."] + rest` the block ends at the `.` after it. */
  lemma FramedBlockEnd(block: seq<string>, rest: seq<string>)
    requires forall j :: 0 <= j < |block| ==> block[j] != "."
    ensures BlockEnd(block + ["."] + rest, 0) == |block|
    ensures (block + ["."] + rest)[..|block|] == block
    ensures (block + ["."] + rest)[|block| + 1..] == rest
  {
    var lines := block + ["."] + rest;
    forall j | 0 <= j < |block| ensures lines[j] != "." {
      assert lines[j] == block[j];
    }
    BlockEndAt(lines, 0, |block|);
    assert lines[..|block|] == block;
    assert lines[|block| + 1..] == rest;
  }

  /** The reply splits back into the status line and the block lines it was read from. */
  lemma FramedReplyLines(status: string, block: seq<string>)
    requires '\n' !in status && forall j :: 0 <= j < |block| ==> '\n' !in block[j]
    ensures Lines(JoinLines([status] + block)) == [status] + block
  {
    var ls := [status] + block;
    forall k | 0 <= k < |ls| ensures '\n' !in ls[k] {
      if k > 0 {
        assert ls[k] == block[k - 1];
      }
    }
    LinesOfJoinLines(ls);
  }

  /** A missing status line, by the end of the stream or a timeout, closes the session with a fault. */
  lemma ExchangeTeardown(ending: Ending)
    ensures Exchange(Stream([], ending)).reply.Failure?
    ensures Exchange(Stream([], ending)).socket == None
    ensures FaultMessage(Exchange(Stream([], ending)).reply.error) ==
            (if ending == EndOfStream then "Connection closed by XBDM" else "Read timed out")
  {
  }

  /** What `send` leaves on a session with the given socket: the outcome and what it wrote. */
  datatype SendResult = SendResult(outcome: Outcome, written: seq<string>)

  /**
   * `send` on a session for `port`: a closed session connects first (a bad port or a
   * refusal raises before anything is written and leaves it closed); then the normalized
   * command is written and one reply is read.
   */
  function SendSpec(socket: Option<Stream>, port: int, cmd: string, dial: Dial): SendResult {
    var live := if socket.Some? then Success(socket.value) else ConnectSpec(port, dial);
    match live
    case Failure(f) => SendResult(Outcome(Failure(f), None), [])
    case Success(s) => SendResult(Exchange(s), [NormalizeCommand(cmd)])
  }

  /** Every command that reaches the wire ends in CR LF. */
  lemma SendWritesCrlf(socket: Option<Stream>, port: int, cmd: string, dial: Dial)
    ensures |SendSpec(socket, port, cmd, dial).written| <= 1
    ensures forall k :: 0 <= k < |SendSpec(socket, port, cmd, dial).written| ==>
              EndsWith(SendSpec(socket, port, cmd, dial).written[k], "\r\n")
  {
  }

  /** An open session writes the command once, normalized, whatever a dial would do. */
  lemma SendOpenWrites(s: Stream, port: int, cmd: string, dial: Dial)
    ensures SendSpec(Some(s), port, cmd, dial).written == [NormalizeCommand(cmd)]
    ensures SendSpec(Some(s), port, cmd, dial).outcome == Exchange(s)
  {
  }

  /**
   * A closed session that cannot connect raises the connect fault, writes nothing and
   * stays closed.
   */
  lemma SendUnconnected(port: int, cmd: string, dial: Dial)
    requires !ValidPort(port) || dial.Refuse?
    ensures SendSpec(None, port, cmd, dial).written == []
    ensures SendSpec(None, port, cmd, dial).outcome.socket == None
    ensures SendSpec(None, port, cmd, dial).outcome.reply ==
            Failure(if ValidPort(port) then Unreachable(dial.reason) else PortOutOfRange(port))
  {
  }

  /**
   * A reply always leaves the session open: only a missing status line closes it, and a
   * timeout inside a block raises with the socket still open.
   */
  lemma ExchangeReplyKeepsOpen(s: Stream)
    ensures Exchange(s).reply.Success? ==> Exchange(s).socket.Some?
  {
  }

  /**
   * A closed session that dials successfully skips the banner line and then behaves like
   * an open one.
   */
  lemma SendReconnects(port: int, cmd: string, stream: Stream)
    requires ValidPort(port)
    ensures SendSpec(None, port, cmd, Accept(stream)) == SendSpec(Some(Read(stream).1), port, cmd, Accept(stream))
    ensures SendSpec(None, port, cmd, Accept(stream)).written == [NormalizeCommand(cmd)]
  {
  }

  // ---------------------------------------------------------------------------
  // The session object
  // ---------------------------------------------------------------------------

  class XrpcConnection {
    const ip: string
    const port: int
    /** The open socket's input, or None for a null or closed socket. */
    var socket: Option<Stream>
    /** Every text written to the socket, in order. */
    var sent: seq<string>

    /** The fields of a new session; the constructor's `connect()` is `Connect`. */
    constructor (ip: string, port: int)
      ensures this.ip == ip && this.port == port
      ensures socket == None && sent == []
    {
      this.ip := ip;
      this.port := port;
      socket := None;
      sent := [];
    }

    /** `isConnected`: a socket that exists, is connected and is not closed. */
    function IsConnected(): (b: bool)
      reads this
      ensures b <==> socket.Some?
    {
      socket.Some?
    }

    /** Every text written so far ends in CR LF. */
    predicate Framed()
      reads this
    {
      forall k :: 0 <= k < |sent| ==> EndsWith(sent[k], "\r\n")
    }

    /** `in.readLine()` on the open socket. */
    method ReadLine() returns (r: ReadResult)
      requires socket.Some?
      modifies this
      ensures socket.Some? && (r, socket.value) == Read(old(socket.value))
      ensures sent == old(sent)
    {
      var p := Read(socket.value);
      r := p.0;
      socket := Some(p.1);
    }

    /**
     * `connect`: opens the socket (a port out of range or a refusal raises and leaves the
     * fields as they were), then reads one banner line, ignoring what the read returns or
     * raises.
     */
    method Connect(dial: Dial) returns (fault: Option<Fault>)
      modifies this
      ensures !ValidPort(port) ==> fault == Some(PortOutOfRange(port)) && socket == old(socket)
      ensures ValidPort(port) && dial.Refuse? ==> fault == Some(Unreachable(dial.reason)) && socket == old(socket)
      ensures ValidPort(port) && dial.Accept? ==> fault == None && socket == Some(Read(dial.stream).1)
      ensures sent == old(sent)
    {
      if !ValidPort(port) {
        return Some(PortOutOfRange(port));
      }
      match dial
      case Refuse(reason) =>
        fault := Some(Unreachable(reason));
      case Accept(stream) =>
        socket := Some(stream);
        var banner := ReadLine();
        fault := None;
    }

    /** `close`: drops the socket; closing again does the same. */
    method Close()
      modifies this
      ensures socket == None && sent == old(sent)
    {
      socket := None;
    }

    /**
     * `send`: reconnects a closed session, writes the command with CR LF framing, reads the
     * status line (closing the session on end of stream or timeout) and, when it
     * announces a block, the lines up to the lone `.`.
     */
    method Send(cmd: string, dial: Dial) returns (r: Result<string, Fault>)
      modifies this
      ensures r == SendSpec(old(socket), port, cmd, dial).outcome.reply
      ensures socket == SendSpec(old(socket), port, cmd, dial).outcome.socket
      ensures sent == old(sent) + SendSpec(old(socket), port, cmd, dial).written
      ensures old(Framed()) ==> Framed()
    {
      if socket.None? {
        var fault := Connect(dial);
        if fault.Some? {
          return Failure(fault.value);
        }
      }
      r := Transact(cmd);
    }

    /** The body of `send` on an open socket: write the framed command, then read one reply. */
    method Transact(cmd: string) returns (r: Result<string, Fault>)
      requires socket.Some?
      modifies this
      ensures r == Exchange(old(socket.value)).reply
      ensures socket == Exchange(old(socket.value)).socket
      ensures sent == old(sent) + [NormalizeCommand(cmd)]
      ensures old(Framed()) ==> Framed()
    {
      var wire := NormalizeCommand(cmd);
      sent := sent + [wire];
      var first := ReadLine();
      match first
      case Line(status) =>
        if Announces(status) {
          r := ReadBlock(status);
        } else {
          r := Success(status);
        }
      case EndOfInput =>
        Close();
        r := Failure(ClosedByXbdm);
      case TimedOutRead =>
        Close();
        r := Failure(TimedOut);
    }

    /** The `while` loop of `send`: the lines after an announcing status line, up to the `.`. */
    method ReadBlock(status: string) returns (r: Result<string, Fault>)
      requires socket.Some?
      modifies this
      ensures r == Continuation(status, old(socket.value)).reply
      ensures socket == Continuation(status, old(socket.value)).socket
      ensures sent == old(sent)
    {
      var t := socket.value;
      var lines := t.lines;
      var sb := status;
      var i := 0;
      while true
        invariant 0 <= i <= |lines|
        invariant socket == Some(Stream(lines[i..], t.ending))
        invariant forall j :: 0 <= j < i ==> lines[j] != "."
        invariant sb == JoinLines([status] + lines[..i])
        invariant sent == old(sent)
        decreases |lines| - i
      {
        var line := ReadLine();
        if line.TimedOutRead? {
          BlockEndAt(lines, 0, i);
          return Failure(TimedOut);
        }
        if line.EndOfInput? {
          BlockEndAt(lines, 0, i);
          break;
        }
        if line.text == "." {
          BlockEndAt(lines, 0, i);
          assert lines[i..][1..] == lines[i + 1..];
          break;
        }
        assert [status] + lines[..i + 1] == ([status] + lines[..i]) + [lines[i]];
        JoinLinesSnoc([status] + lines[..i], lines[i]);
        sb := sb + "\n" + line.text;
        i := i + 1;
      }
      r := Success(sb);
    }
  }
}
