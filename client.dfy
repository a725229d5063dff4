/**
 * The window's session handling: the cached connection with the endpoint it was opened
 * for (`getConnection`), a request over it, and the console-info refresh, which opens a
 * session of its own.  The ip and port fields are passed in as their text; the outcome
 * of each `new Socket` is the `dial` argument.
 */
module Client {
  import opened Wrappers
  import opened Text
  import opened Numbers
  import opened Commands
  import opened ResponseParser
  import opened Connection

  class XrpcClient {
    /** `xrpcConnection`, `lastIp` and `lastPort`. */
    var connection: XrpcConnection?
    var lastIp: string
    var lastPort: int

    constructor ()
      ensures connection == null && lastIp == "" && lastPort == -1
    {
      connection := null;
      lastIp := "";
      lastPort := -1;
    }

    /** The cached session exists, is connected and was opened for this endpoint. */
    predicate Reusable(ip: string, port: int)
      reads this, connection
    {
      connection != null && connection.IsConnected() && ip == lastIp && port == lastPort
    }

    /**
     * The decision of `getConnection` for the endpoint `ip:port`: hands out the cached
     * session when it can serve the endpoint; otherwise closes it, opens a new one and
     * records the endpoint.  When the new session cannot connect (a port out of range or a
     * refused socket) the old session stays cached, closed, with its endpoint.
     */
    method Open(ip: string, port: int, dial: Dial) returns (r: Result<XrpcConnection, Fault>)
      modifies this, connection
      ensures old(Reusable(ip, port)) ==>
                r == Success(old(connection)) && connection == old(connection) &&
                lastIp == old(lastIp) && lastPort == old(lastPort) && unchanged(old(connection))
      ensures !old(Reusable(ip, port)) && old(connection) != null ==>
                old(connection).socket == None && old(connection).sent == old(connection.sent)
      ensures !old(Reusable(ip, port)) && ValidPort(port) && dial.Accept? ==>
                r.Success? && fresh(r.value) && connection == r.value &&
                lastIp == ip && lastPort == port && r.value.ip == ip && r.value.port == port &&
                r.value.socket == Some(Read(dial.stream).1) && r.value.sent == []
      ensures !old(Reusable(ip, port)) && ValidPort(port) && dial.Refuse? ==>
                r == Failure(Unreachable(dial.reason)) && connection == old(connection) &&
                lastIp == old(lastIp) && lastPort == old(lastPort)
      ensures !old(Reusable(ip, port)) && !ValidPort(port) ==>
                r == Failure(PortOutOfRange(port)) && connection == old(connection) &&
                lastIp == old(lastIp) && lastPort == old(lastPort)
    {
      if connection == null || !connection.IsConnected() || ip != lastIp || port != lastPort {
        if connection != null {
          connection.Close();
        }
        var session := new XrpcConnection(ip, port);
        var fault := session.Connect(dial);
        if fault.Some? {
          return Failure(fault.value);
        }
        connection := session;
        lastIp := ip;
        lastPort := port;
      }
      r := Success(connection);
    }

    /** `getConnection`: the endpoint is the trimmed ip field and the parsed port field. */
    method GetConnection(ipField: string, portField: string, dial: Dial) returns (r: Result<XrpcConnection, Fault>)
      modifies this, connection
      ensures old(Reusable(GetIp(ipField), GetPort(portField))) ==>
                r == Success(old(connection)) && connection == old(connection) &&
                lastIp == old(lastIp) && lastPort == old(lastPort) && unchanged(old(connection))
      ensures !old(Reusable(GetIp(ipField), GetPort(portField))) && old(connection) != null ==>
                old(connection).socket == None && old(connection).sent == old(connection.sent)
      ensures !old(Reusable(GetIp(ipField), GetPort(portField))) && ValidPort(GetPort(portField)) && dial.Accept? ==>
                r.Success? && fresh(r.value) && connection == r.value &&
                lastIp == GetIp(ipField) && lastPort == GetPort(portField) &&
                r.value.ip == GetIp(ipField) && r.value.port == GetPort(portField) &&
                r.value.socket == Some(Read(dial.stream).1) && r.value.sent == []
      ensures !old(Reusable(GetIp(ipField), GetPort(portField))) && ValidPort(GetPort(portField)) && dial.Refuse? ==>
                r == Failure(Unreachable(dial.reason)) && connection == old(connection) &&
                lastIp == old(lastIp) && lastPort == old(lastPort)
      ensures !old(Reusable(GetIp(ipField), GetPort(portField))) && !ValidPort(GetPort(portField)) ==>
                r == Failure(PortOutOfRange(GetPort(portField))) && connection == old(connection) &&
                lastIp == old(lastIp) && lastPort == old(lastPort)
    {
      r := Open(GetIp(ipField), GetPort(portField), dial);
    }

    /**
     * `getConnection().send(cmd)` for the endpoint `ip:port`: a session that cannot
     * connect raises before anything is written, otherwise the session sends the command.
     * The fields change as `getConnection` changes them, and a reply leaves a session the
     * next request to the same endpoint reuses.
     */
    method RequestAt(cmd: string, ip: string, port: int, dial: Dial) returns (r: Result<string, Fault>)
      modifies this, connection
      ensures old(Reusable(ip, port)) ==>
                connection == old(connection) && lastIp == old(lastIp) && lastPort == old(lastPort) &&
                r == Exchange(old(connection.socket).value).reply &&
                connection.socket == Exchange(old(connection.socket).value).socket &&
                connection.sent == old(connection.sent) + [NormalizeCommand(cmd)]
      ensures !old(Reusable(ip, port)) && old(connection) != null ==>
                old(connection).socket == None && old(connection).sent == old(connection.sent)
      ensures !old(Reusable(ip, port)) && ValidPort(port) && dial.Accept? ==>
                fresh(connection) && lastIp == ip && lastPort == port &&
                connection.ip == ip && connection.port == port &&
                r == Exchange(Read(dial.stream).1).reply &&
                connection.socket == Exchange(Read(dial.stream).1).socket &&
                connection.sent == [NormalizeCommand(cmd)]
      ensures !old(Reusable(ip, port)) && ValidPort(port) && dial.Refuse? ==>
                r == Failure(Unreachable(dial.reason)) && connection == old(connection) &&
                lastIp == old(lastIp) && lastPort == old(lastPort)
      ensures !old(Reusable(ip, port)) && !ValidPort(port) ==>
                r == Failure(PortOutOfRange(port)) && connection == old(connection) &&
                lastIp == old(lastIp) && lastPort == old(lastPort)
      ensures r.Success? ==> Reusable(ip, port)
    {
      var c := Open(ip, port, dial);
      match c
      case Failure(f) =>
        r := Failure(f);
      case Success(conn) =>
        ghost var s := conn.socket.value;
        SendOpenWrites(s, conn.port, cmd, dial);
        ExchangeReplyKeepsOpen(s);
        r := conn.Send(cmd, dial);
    }

    /**
     * `getConnection().send(cmd)`, what every button but Refresh Info does, with the
     * endpoint taken from the ip and port fields.
     */
    method Request(cmd: string, ipField: string, portField: string, dial: Dial) returns (r: Result<string, Fault>)
      modifies this, connection
      ensures old(Reusable(GetIp(ipField), GetPort(portField))) ==>
                connection == old(connection) && lastIp == old(lastIp) && lastPort == old(lastPort) &&
                r == Exchange(old(connection.socket).value).reply &&
                connection.socket == Exchange(old(connection.socket).value).socket &&
                connection.sent == old(connection.sent) + [NormalizeCommand(cmd)]
      ensures !old(Reusable(GetIp(ipField), GetPort(portField))) && old(connection) != null ==>
                old(connection).socket == None && old(connection).sent == old(connection.sent)
      ensures !old(Reusable(GetIp(ipField), GetPort(portField))) && ValidPort(GetPort(portField)) && dial.Accept? ==>
                fresh(connection) && lastIp == GetIp(ipField) && lastPort == GetPort(portField) &&
                connection.ip == GetIp(ipField) && connection.port == GetPort(portField) &&
                r == Exchange(Read(dial.stream).1).reply &&
                connection.socket == Exchange(Read(dial.stream).1).socket &&
                connection.sent == [NormalizeCommand(cmd)]
      ensures !old(Reusable(GetIp(ipField), GetPort(portField))) && ValidPort(GetPort(portField)) && dial.Refuse? ==>
                r == Failure(Unreachable(dial.reason)) && connection == old(connection) &&
                lastIp == old(lastIp) && lastPort == old(lastPort)
      ensures !old(Reusable(GetIp(ipField), GetPort(portField))) && !ValidPort(GetPort(portField)) ==>
                r == Failure(PortOutOfRange(GetPort(portField))) && connection == old(connection) &&
                lastIp == old(lastIp) && lastPort == old(lastPort)
      ensures r.Success? ==> Reusable(GetIp(ipField), GetPort(portField))
    {
      r := RequestAt(cmd, GetIp(ipField), GetPort(portField), dial);
    }
  }

  // ---------------------------------------------------------------------------
  // fetchConsoleInfo
  // ---------------------------------------------------------------------------

  /** The line the info panel shows when the refresh raises. */
  function ErrorLine(f: Fault): string {
    "Error fetching console info: " + FaultMessage(f) + "\n"
  }

  /**
   * The panel text from query `i` on, with the session's input at `s`: each reply's value
   * under its label, until a query fails, whose fault ends the panel.
   */
  function InfoRun(labels: seq<string>, s: Stream, i: nat): string
    requires i <= |labels|
    decreases |labels| - i
  {
    if i == |labels| then ""
    else
      var o := Exchange(s);
      match o.reply
      case Failure(f) => ErrorLine(f)
      case Success(resp) =>
        InfoLine(labels[i], ExtractValue(resp)) + (if o.socket.Some? then InfoRun(labels, o.socket.value, i + 1) else "")
  }

  /**
   * The number of queries the refresh writes from query `i` on: each query is written
   * before its reply is read, and the first one that raises is the last.
   */
  function QueriesSent(labels: seq<string>, s: Stream, i: nat): (n: nat)
    requires i <= |labels|
    ensures n <= |labels| - i
    ensures i < |labels| ==> n >= 1
    decreases |labels| - i
  {
    if i == |labels| then 0
    else
      var o := Exchange(s);
      if o.reply.Success? && o.socket.Some? then 1 + QueriesSent(labels, o.socket.value, i + 1) else 1
  }

  /**
   * The whole panel for a refresh of the session for `port`: cleared first, then the
   * query loop, or the message of the connect fault when it is an IOException.  A port
   * out of range raises an exception the refresh does not catch, so the panel stays empty.
   */
  function InfoPanel(port: int, dial: Dial): string {
    match ConnectSpec(port, dial)
    case Failure(f) => if IsIoFault(f) then ErrorLine(f) else ""
    case Success(s) => InfoRun(Labels, s, 0)
  }

  /** The three ways a refresh can start: a bad port, a refused socket, or the query loop. */
  lemma InfoPanelCases(port: int, dial: Dial)
    ensures !ValidPort(port) ==> InfoPanel(port, dial) == ""
    ensures ValidPort(port) && dial.Refuse? ==> InfoPanel(port, dial) == ErrorLine(Unreachable(dial.reason))
    ensures ValidPort(port) && dial.Accept? ==> InfoPanel(port, dial) == InfoRun(Labels, Read(dial.stream).1, 0)
  {
  }

  /** One query of the refresh: a reply adds its labelled line and the session goes on. */
  lemma InfoRunStep(labels: seq<string>, s: Stream, i: nat, resp: string, next: Stream)
    requires i < |labels|
    requires Exchange(s).reply == Success(resp) && Exchange(s).socket == Some(next)
    ensures InfoRun(labels, s, i) == InfoLine(labels[i], ExtractValue(resp)) + InfoRun(labels, next, i + 1)
    ensures QueriesSent(labels, s, i) == 1 + QueriesSent(labels, next, i + 1)
  {
  }

  /** A query that raises ends the panel with the fault's message, and no query follows it. */
  lemma InfoRunFault(labels: seq<string>, s: Stream, i: nat, f: Fault)
    requires i < |labels|
    requires Exchange(s).reply == Failure(f)
    ensures InfoRun(labels, s, i) == ErrorLine(f)
    ensures QueriesSent(labels, s, i) == 1
  {
  }

  /** The six labels go with the six queries. */
  lemma QueriesMatchLabels()
    ensures |QueryCommands| == |Labels| == 6
  {
  }

  /** The commands as `send` puts them on the wire, in order. */
  function Normalized(cmds: seq<string>): (wire: seq<string>)
    ensures |wire| == |cmds|
  {
    if cmds == [] then [] else Normalized(cmds[..|cmds| - 1]) + [NormalizeCommand(cmds[|cmds| - 1])]
  }

  /** Each command on the wire is its command, normalized. */
  lemma {:induction false} NormalizedAt(cmds: seq<string>, j: nat)
    requires j < |cmds|
    ensures Normalized(cmds)[j] == NormalizeCommand(cmds[j])
    decreases |cmds|
  {
    if j < |cmds| - 1 {
      NormalizedAt(cmds[..|cmds| - 1], j);
    }
  }

  /** Sending the next query extends what was written by that query. */
  lemma WroteNextQuery(cmds: seq<string>, i: nat)
    requires i < |cmds|
    ensures Normalized(cmds[..i]) + [NormalizeCommand(cmds[i])] == Normalized(cmds[..i + 1])
  {
    assert cmds[..i + 1][..i] == cmds[..i];
  }

  /**
   * The loop of `fetchConsoleInfo` over an open session: query `i` sends `cmds[i]` and
   * appends its reply's value under `labels[i]`; the first query that raises ends the loop
   * with the fault's message.  `wrote` is what the session wrote on the wire: one query
   * per exchange of the loop.
   */
  method QueryAll(conn: XrpcConnection, labels: seq<string>, cmds: seq<string>) returns (area: string, wrote: seq<string>)
    requires |labels| <= |cmds| && conn.socket.Some? && conn.sent == []
    modifies conn
    ensures area == InfoRun(labels, old(conn.socket.value), 0)
    ensures |wrote| == QueriesSent(labels, old(conn.socket.value), 0)
    ensures wrote == conn.sent && wrote == Normalized(cmds[..|wrote|])
  {
    area := "";
    var i := 0;
    while i < |labels|
      invariant 0 <= i <= |labels| && conn.socket.Some?
      invariant area + InfoRun(labels, conn.socket.value, i) == InfoRun(labels, old(conn.socket.value), 0)
      invariant i + QueriesSent(labels, conn.socket.value, i) == QueriesSent(labels, old(conn.socket.value), 0)
      invariant conn.sent == Normalized(cmds[..i])
      decreases |labels| - i
    {
      WroteNextQuery(cmds, i);
      var line, ok := Query(conn, labels, i, cmds[i]);
      if !ok {
        area := area + line;
        wrote := conn.sent;
        return;
      }
      AppendAssoc(area, line, InfoRun(labels, conn.socket.value, i + 1));
      area := area + line;
      i := i + 1;
    }
    wrote := conn.sent;
  }

  /**
   * Query `i` of the refresh on an open session: its reply's value under `labels[i]`, or
   * the fault's message with `ok` false, which ends the panel.  A reply always leaves the
   * session open.
   */
  method Query(conn: XrpcConnection, labels: seq<string>, i: nat, cmd: string) returns (line: string, ok: bool)
    requires i < |labels| && conn.socket.Some?
    modifies conn
    ensures conn.sent == old(conn.sent) + [NormalizeCommand(cmd)]
    ensures ok <==> Exchange(old(conn.socket.value)).reply.Success?
    ensures !ok ==> line == InfoRun(labels, old(conn.socket.value), i) && QueriesSent(labels, old(conn.socket.value), i) == 1
    ensures ok ==> conn.socket.Some? && conn.socket == Exchange(old(conn.socket.value)).socket &&
                   InfoRun(labels, old(conn.socket.value), i) == line + InfoRun(labels, conn.socket.value, i + 1) &&
                   QueriesSent(labels, old(conn.socket.value), i) == 1 + QueriesSent(labels, conn.socket.value, i + 1)
  {
    ghost var s := conn.socket.value;
    SendOpenWrites(s, conn.port, cmd, Refuse(""));
    ExchangeReplyKeepsOpen(s);
    var resp := conn.Send(cmd, Refuse(""));
    match resp
    case Failure(f) =>
      InfoRunFault(labels, s, i, f);
      line, ok := ErrorLine(f), false;
    case Success(text) =>
      InfoRunStep(labels, s, i, text, conn.socket.value);
      line, ok := InfoLine(labels[i], ExtractValue(text)), true;
  }

  /**
   * `fetchConsoleInfo`: clears the panel, opens a session of its own, sends the six
   * queries in order and shows each value under its label; an IOException ends the panel
   * with its message.  The session is closed on every path.  `wrote` is what reached the
   * wire; `escaped` is the exception for a port out of range, which the refresh does not
   * catch.
   */
  method FetchConsoleInfo(ipField: string, portField: string, dial: Dial)
      returns (area: string, wrote: seq<string>, escaped: Option<Fault>)
    ensures area == InfoPanel(GetPort(portField), dial)
    ensures escaped == if ValidPort(GetPort(portField)) then None else Some(PortOutOfRange(GetPort(portField)))
    ensures ValidPort(GetPort(portField)) && dial.Accept? ==> |wrote| == QueriesSent(Labels, Read(dial.stream).1, 0)
    ensures !(ValidPort(GetPort(portField)) && dial.Accept?) ==> wrote == []
    ensures wrote == Normalized(QueryCommands[..|wrote|])
  {
    QueriesMatchLabels();
    area, wrote, escaped := "", [], None;
    var conn := new XrpcConnection(GetIp(ipField), GetPort(portField));
    var fault := conn.Connect(dial);
    if fault.Some? {
      if IsIoFault(fault.value) {
        area := ErrorLine(fault.value);
      } else {
        escaped := fault;
      }
      return;
    }
    area, wrote := QueryAll(conn, Labels, QueryCommands);
    conn.Close();
  }

  /** The panel of replies: each label followed by the value its reply carries. */
  function Panel(labels: seq<string>, replies: seq<string>, i: nat): string
    requires |replies| == |labels| && i <= |labels|
    decreases |labels| - i
  {
    if i == |labels| then "" else InfoLine(labels[i], ExtractValue(replies[i])) + Panel(labels, replies, i + 1)
  }

  /**
   * When the console answers each query with one status line that announces nothing, the
   * panel lists those replies' values under the labels, in order.
   */
  lemma {:induction false} InfoRunOfReplies(labels: seq<string>, replies: seq<string>, i: nat, rest: seq<string>, ending: Ending)
    requires |replies| == |labels| && i <= |labels|
    requires forall k :: 0 <= k < |replies| ==> !Announces(replies[k])
    ensures InfoRun(labels, Stream(replies[i..] + rest, ending), i) == Panel(labels, replies, i)
    ensures QueriesSent(labels, Stream(replies[i..] + rest, ending), i) == |labels| - i
    decreases |labels| - i
  {
    if i < |labels| {
      var s := Stream(replies[i..] + rest, ending);
      var next := Stream(replies[i + 1..] + rest, ending);
      assert replies[i..] + rest == [replies[i]] + (replies[i + 1..] + rest);
      ExchangeStatusOnly(replies[i], replies[i + 1..] + rest, ending);
      InfoRunStep(labels, s, i, replies[i], next);
      InfoRunOfReplies(labels, replies, i + 1, rest, ending);
    }
  }

  /** After the banner line, a session answered by plain status lines shows those values. */
  lemma InfoRunAfterBanner(labels: seq<string>, banner: string, replies: seq<string>, rest: seq<string>, ending: Ending)
    requires |replies| == |labels|
    requires forall k :: 0 <= k < |replies| ==> !Announces(replies[k])
    ensures InfoRun(labels, Read(Stream([banner] + replies + rest, ending)).1, 0) == Panel(labels, replies, 0)
    ensures QueriesSent(labels, Read(Stream([banner] + replies + rest, ending)).1, 0) == |labels|
  {
    BannerSkipped(banner, replies, rest);
    InfoRunOfReplies(labels, replies, 0, rest, ending);
  }

  /** Dropping the banner line leaves the replies and what follows them. */
  lemma BannerSkipped(banner: string, replies: seq<string>, rest: seq<string>)
    ensures ([banner] + replies + rest)[1..] == replies[0..] + rest
  {
    assert [banner] + replies + rest == [banner] + (replies + rest);
  }

  /**
   * A refresh answered by six plain status lines after the banner shows exactly those
   * values, and writes all six queries.
   */
  lemma InfoPanelOfReplies(port: int, banner: string, replies: seq<string>, rest: seq<string>, ending: Ending)
    requires ValidPort(port) && |replies| == |Labels|
    requires forall k :: 0 <= k < |replies| ==> !Announces(replies[k])
    ensures InfoPanel(port, Accept(Stream([banner] + replies + rest, ending))) == Panel(Labels, replies, 0)
    ensures QueriesSent(Labels, Read(Stream([banner] + replies + rest, ending)).1, 0) == |Labels|
  {
    InfoRunAfterBanner(Labels, banner, replies, rest, ending);
  }

  /**
   * When the console answers the first queries with plain status lines and then closes
   * the stream or stops answering, the query after the last answered one is still written
   * and is the last.
   */
  lemma {:induction false} QueriesSentUntilSilence(labels: seq<string>, replies: seq<string>, i: nat, ending: Ending)
    requires i <= |replies| < |labels|
    requires forall k :: 0 <= k < |replies| ==> !Announces(replies[k])
    ensures QueriesSent(labels, Stream(replies[i..], ending), i) == |replies| - i + 1
    decreases |replies| - i
  {
    if i < |replies| {
      assert replies[i..] == [replies[i]] + replies[i + 1..];
      ExchangeStatusOnly(replies[i], replies[i + 1..], ending);
      QueriesSentUntilSilence(labels, replies, i + 1, ending);
    } else {
      assert replies[i..] == [];
    }
  }
}
