/**
 * The connection side of WebSocketServer: the shared `clients` set, `broadcast` over it, the
 * message loop of handleWebSocketMessages, and handleClient from the first request line to
 * the `finally` block. One connection is followed at a time; the other connections are the
 * sockets already in the registry.
 */
module WebSocketServer {
  import opened Wrappers
  import opened Bytes
  import opened FrameCodec
  import opened FrameProperties
  import Text
  import Handshake

  /** A socket, by identity. */
  type ConnId = nat

  /**
   * The shared state: the sockets in `clients`, the sockets the server has closed, and for
   * each socket that was ever registered the frames broadcast handed to its output stream.
   */
  datatype Registry = Registry(clients: set<ConnId>, closed: set<ConnId>, sent: map<ConnId, seq<seq<byte>>>)

  /** No closed socket stays registered, and every registered socket has an output log. */
  predicate Coherent(r: Registry) {
    r.clients !! r.closed && r.clients <= r.sent.Keys
  }

  /** `frames` appended to the log of every socket in `targets`. */
  function Appended(sent: map<ConnId, seq<seq<byte>>>, targets: set<ConnId>, frames: seq<seq<byte>>)
    : (r: map<ConnId, seq<seq<byte>>>)
    ensures r.Keys == sent.Keys
  {
    map c | c in sent :: if c in targets then sent[c] + frames else sent[c]
  }

  /** clients.add(socket): a set, so adding twice changes nothing. */
  function Added(r: Registry, c: ConnId): Registry {
    Registry(r.clients + {c}, r.closed, if c in r.sent then r.sent else r.sent[c := []])
  }

  /** The `finally` block: clients.remove(socket), then socket.close(). */
  function Removed(r: Registry, c: ConnId): Registry {
    Registry(r.clients - {c}, r.closed + {c}, r.sent)
  }

  /**
   * broadcast: the frame is written to every registered socket; the sockets in `failing`,
   * whose write throws an IOException, are removed from the set and closed.
   */
  function Broadcasted(r: Registry, frame: seq<byte>, failing: set<ConnId>): Registry {
    Registry(r.clients - failing, r.closed + (r.clients * failing), Appended(r.sent, r.clients, [frame]))
  }

  /** The registry while broadcast is under way: the sockets in `done` have been written to. */
  function BroadcastedTo(r: Registry, frame: seq<byte>, failing: set<ConnId>, done: set<ConnId>): Registry {
    Registry(r.clients - done * failing, r.closed + done * failing, Appended(r.sent, done, [frame]))
  }

  /** Writing to one more socket `c`: its log grows; if its write fails it is removed and closed. */
  lemma BroadcastedStep(r: Registry, frame: seq<byte>, failing: set<ConnId>, done: set<ConnId>, c: ConnId)
    requires c in r.sent && c !in done
    ensures var p := BroadcastedTo(r, frame, failing, done);
      BroadcastedTo(r, frame, failing, done + {c})
        == Registry(if c in failing then p.clients - {c} else p.clients,
                    if c in failing then p.closed + {c} else p.closed,
                    p.sent[c := p.sent[c] + [frame]])
  {
    AppendedStep(r.sent, done, c, [frame]);
  }

  /** Once every member has been written to, that is the whole broadcast. */
  lemma BroadcastedAll(r: Registry, frame: seq<byte>, failing: set<ConnId>)
    ensures BroadcastedTo(r, frame, failing, r.clients) == Broadcasted(r, frame, failing)
  {
    assert r.clients - r.clients * failing == r.clients - failing;
  }

  /** Registering a socket that is not closed keeps the registry coherent. */
  lemma AddedCoherent(r: Registry, c: ConnId)
    requires Coherent(r) && c !in r.closed
    ensures Coherent(Added(r, c))
    ensures Added(r, c).clients == r.clients + {c} && Added(Added(r, c), c) == Added(r, c)
  {
  }

  /** Removing keeps the registry coherent and is idempotent. */
  lemma RemovedCoherent(r: Registry, c: ConnId)
    requires Coherent(r)
    ensures Coherent(Removed(r, c)) && c !in Removed(r, c).clients
    ensures Removed(Removed(r, c), c) == Removed(r, c)
  {
  }

  /**
   * A broadcast keeps the registry coherent; it removes exactly the failing members and
   * keeps all others; each member's log grows by the one frame, every other log is unchanged.
   */
  lemma BroadcastedMembers(r: Registry, frame: seq<byte>, failing: set<ConnId>, c: ConnId)
    requires Coherent(r)
    ensures Coherent(Broadcasted(r, frame, failing))
    ensures c in Broadcasted(r, frame, failing).clients <==> c in r.clients && c !in failing
    ensures c in Broadcasted(r, frame, failing).closed <==> c in r.closed || (c in r.clients && c in failing)
    ensures c in r.sent ==>
      Broadcasted(r, frame, failing).sent[c] == (if c in r.clients then r.sent[c] + [frame] else r.sent[c])
  {
  }

  /** Appending twice to the same sockets appends the concatenation. */
  lemma AppendedTwice(sent: map<ConnId, seq<seq<byte>>>, targets: set<ConnId>, a: seq<seq<byte>>, b: seq<seq<byte>>)
    ensures Appended(Appended(sent, targets, a), targets, b) == Appended(sent, targets, a + b)
  {
    var left, right := Appended(Appended(sent, targets, a), targets, b), Appended(sent, targets, a + b);
    forall c | c in sent
      ensures left[c] == right[c]
    {
      if c in targets {
        assert left[c] == sent[c] + a + b;
      }
    }
  }

  /** Why the message loop of one connection stopped. */
  datatype Exit =
    | StreamEnded      // read returned -1
    | CloseFrame       // opcode 8
    | LengthTooLong    // length code 127: the exception ends handleClient
    | OwnSocketClosed  // its own write failed, so broadcast closed it and the next read throws

  /** The registry when the loop stopped, why, and how many messages it broadcast. */
  datatype Ending = Ending(registry: Registry, exit: Exit, broadcasts: nat)

  /**
   * handleWebSocketMessages for connection `me` on the stream `data` from `pos`, with bytes 0..3
   * of the buffer in `window`: each data frame is broadcast as it comes; `failing(k)` are the
   * sockets whose write fails in the k-th broadcast of the connection.
   */
  function Run(r: Registry, me: ConnId, data: seq<byte>, pos: nat, window: seq<byte>, k: nat,
               failing: nat -> set<ConnId>): (e: Ending)
    requires pos <= |data| && |window| == 4
    decreases |data| - pos
  {
    var d := DecodeStep(data, pos, window);
    match d.step
    case EndOfStream => Ending(r, StreamEnded, k)
    case Close => Ending(r, CloseFrame, k)
    case TooLong => Ending(r, LengthTooLong, k)
    case Message(f) =>
      var r' := Broadcasted(r, EncodeFrame(f.payload), failing(k));
      if me in r'.closed then Ending(r', OwnSocketClosed, k + 1)
      else Run(r', me, data, d.next, d.window, k + 1, failing)
  }

  /**
   * The loop only ever removes and closes sockets, never registers one, and only ever
   * appends to the logs; the registry stays coherent.
   */
  lemma {:induction false} RunShrinks(r: Registry, me: ConnId, data: seq<byte>, pos: nat, window: seq<byte>,
                                      k: nat, failing: nat -> set<ConnId>)
    requires pos <= |data| && |window| == 4 && Coherent(r)
    ensures var e := Run(r, me, data, pos, window, k, failing).registry;
      Coherent(e) && e.clients <= r.clients && r.closed <= e.closed && e.sent.Keys == r.sent.Keys &&
      forall c :: c in r.sent ==> r.sent[c] <= e.sent[c]
    decreases |data| - pos
  {
    var d := DecodeStep(data, pos, window);
    if d.step.Message? {
      var r' := Broadcasted(r, EncodeFrame(d.step.frame.payload), failing(k));
      assert Coherent(r') by {
        BroadcastedMembers(r, EncodeFrame(d.step.frame.payload), failing(k), me);
      }
      assert forall c :: c in r.sent ==> r.sent[c] <= r'.sent[c];
      if me !in r'.closed {
        RunShrinks(r', me, data, d.next, d.window, k + 1, failing);
      }
    }
  }

  /** A frame with length code 127 ends the connection before anything is broadcast. */
  lemma RunTooLong(r: Registry, me: ConnId, data: seq<byte>, pos: nat, window: seq<byte>, k: nat,
                   failing: nat -> set<ConnId>)
    requires |window| == 4 && pos + 2 <= |data| && Low4(data[pos]) != 8 && Low7(data[pos + 1]) == 127
    ensures Run(r, me, data, pos, window, k, failing) == Ending(r, LengthTooLong, k)
  {
    LongLengthRefused(data, pos, window);
  }

  /** A close frame ends the connection before anything is broadcast. */
  lemma RunClose(r: Registry, me: ConnId, data: seq<byte>, pos: nat, window: seq<byte>, k: nat,
                 failing: nat -> set<ConnId>)
    requires |window| == 4 && pos + 2 <= |data| && Low4(data[pos]) == 8
    ensures Run(r, me, data, pos, window, k, failing) == Ending(r, CloseFrame, k)
  {
    CloseFrameStops(data, pos, window);
  }

  /** Masked text frames from the client, each a 4-byte key and a payload under 64 KiB. */
  predicate AllValid(ms: seq<(seq<byte>, seq<byte>)>) {
    ms == [] || (|ms[0].0| == 4 && |ms[0].1| < 65536 && AllValid(ms[1..]))
  }

  /** What a client sends for its messages: a final masked text frame each. */
  function Texts(ms: seq<(seq<byte>, seq<byte>)>): seq<byte>
    requires AllValid(ms)
  {
    if ms == [] then [] else ClientFrame(0x81, Some(ms[0].0), ms[0].1) + Texts(ms[1..])
  }

  /** The frames the server writes back for those messages. */
  function Echoes(ms: seq<(seq<byte>, seq<byte>)>): seq<seq<byte>>
    requires AllValid(ms)
  {
    if ms == [] then [] else [EncodeFrame(ms[0].1)] + Echoes(ms[1..])
  }

  /** One more socket handed the frames. */
  lemma AppendedStep(sent: map<ConnId, seq<seq<byte>>>, done: set<ConnId>, c: ConnId, frames: seq<seq<byte>>)
    requires c in sent && c !in done
    ensures var m := Appended(sent, done, frames);
      m[c := m[c] + frames] == Appended(sent, done + {c}, frames)
  {
  }

  lemma AppendedNothing(sent: map<ConnId, seq<seq<byte>>>, targets: set<ConnId>)
    ensures Appended(sent, targets, []) == sent
  {
    assert forall c :: c in sent ==> sent[c] + [] == sent[c];
  }

  /** The stream from `pos` on split after its first `|a|` bytes. */
  lemma SplitAt(data: seq<byte>, pos: nat, a: seq<byte>, b: seq<byte>)
    requires pos <= |data| && data[pos..] == a + b
    ensures pos + |a| <= |data| && data[pos..pos + |a|] == a && data[pos + |a|..] == b
  {
    assert data[pos..pos + |a|] == data[pos..][..|a|];
    assert data[pos + |a|..] == data[pos..][|a|..];
  }

  /** A final masked text frame from the client, followed by `rest`, is decoded as such. */
  lemma DecodeTextFrame(data: seq<byte>, pos: nat, window: seq<byte>, key: seq<byte>, payload: seq<byte>,
                        rest: seq<byte>)
    requires |window| == 4 && |key| == 4 && |payload| < 65536
    requires pos <= |data| && data[pos..] == ClientFrame(0x81, Some(key), payload) + rest
    ensures DecodeStep(data, pos, window).step == Message(Frame(true, 1, true, key, payload))
    ensures DecodeStep(data, pos, window).next == pos + |ClientFrame(0x81, Some(key), payload)|
    ensures pos + |ClientFrame(0x81, Some(key), payload)| <= |data|
    ensures data[pos + |ClientFrame(0x81, Some(key), payload)|..] == rest
  {
    var f := ClientFrame(0x81, Some(key), payload);
    assert pos + |f| <= |data| && data[pos..pos + |f|] == f && data[pos + |f|..] == rest by {
      SplitAt(data, pos, f, rest);
    }
    assert HighBit(0x81) && Low4(0x81) == 1 && KeyOf(Some(key)) == key;
    DecodeClientFrame(data, pos, window, 0x81, Some(key), payload);
  }

  /** The stream of messages is the first frame followed by the others. */
  lemma TextsCons(ms: seq<(seq<byte>, seq<byte>)>, tail: seq<byte>)
    requires AllValid(ms) && ms != []
    ensures AllValid(ms[1..])
    ensures Texts(ms) + tail == ClientFrame(0x81, Some(ms[0].0), ms[0].1) + (Texts(ms[1..]) + tail)
    ensures |ClientFrame(0x81, Some(ms[0].0), ms[0].1)| == TextLength(ms[0])
  {
  }

  /** The size of the frame a client sends for one message. */
  function TextLength(m: (seq<byte>, seq<byte>)): nat {
    (if |m.1| < 126 then 2 else 4) + 4 + |m.1|
  }

  /**
   * The first of the messages decodes as a final text frame, read up to its last byte; the
   * stream then holds the other messages and the tail.
   */
  lemma FirstText(data: seq<byte>, pos: nat, window: seq<byte>, ms: seq<(seq<byte>, seq<byte>)>, tail: seq<byte>)
    requires |window| == 4 && pos <= |data| && AllValid(ms) && ms != []
    requires data[pos..] == Texts(ms) + tail
    ensures DecodeStep(data, pos, window).step == Message(Frame(true, 1, true, ms[0].0, ms[0].1))
    ensures DecodeStep(data, pos, window).next == pos + TextLength(ms[0])
    ensures data[DecodeStep(data, pos, window).next..] == Texts(ms[1..]) + tail
  {
    TextsCons(ms, tail);
    DecodeTextFrame(data, pos, window, ms[0].0, ms[0].1, Texts(ms[1..]) + tail);
  }

  /**
   * Any frame the reader delivers as a message, while no write fails, is echoed to every
   * registered socket as a final text frame: the opcode and the FIN bit play no part.
   */
  lemma RunEcho(r: Registry, me: ConnId, data: seq<byte>, pos: nat, window: seq<byte>, k: nat,
                failing: nat -> set<ConnId>)
    requires |window| == 4 && pos <= |data|
    requires DecodeStep(data, pos, window).step.Message?
    requires failing(k) == {} && me !in r.closed
    ensures var d := DecodeStep(data, pos, window);
      Run(r, me, data, pos, window, k, failing)
        == Run(Registry(r.clients, r.closed, Appended(r.sent, r.clients, [EncodeFrame(d.step.frame.payload)])),
               me, data, d.next, d.window, k + 1, failing)
  {
    var d := DecodeStep(data, pos, window);
    var r' := Broadcasted(r, EncodeFrame(d.step.frame.payload), failing(k));
    assert r' == Registry(r.clients, r.closed, Appended(r.sent, r.clients, [EncodeFrame(d.step.frame.payload)]));
  }

  /**
   * The loop's reading from `pos` on meets the messages `ms`, one final text frame each, and
   * then a close frame.
   */
  predicate Echoable(data: seq<byte>, pos: nat, window: seq<byte>, ms: seq<(seq<byte>, seq<byte>)>)
    requires pos <= |data| && |window| == 4
    decreases ms
  {
    var d := DecodeStep(data, pos, window);
    if ms == [] then d.step == Close
    else d.step == Message(Frame(true, 1, true, ms[0].0, ms[0].1)) && Echoable(data, d.next, d.window, ms[1..])
  }

  /** The client's frames for `ms` followed by a close frame are read that way. */
  lemma {:induction false} TextsEchoable(data: seq<byte>, pos: nat, window: seq<byte>,
                                         ms: seq<(seq<byte>, seq<byte>)>, tail: seq<byte>)
    requires |window| == 4 && pos <= |data| && AllValid(ms)
    requires data[pos..] == Texts(ms) + tail && 2 <= |tail| && Low4(tail[0]) == 8
    ensures Echoable(data, pos, window, ms)
    decreases ms
  {
    if ms == [] {
      assert data[pos] == tail[0] && pos + 2 <= |data| by {
        assert data[pos..] == tail;
        assert data[pos..][0] == tail[0];
      }
      CloseFrameStops(data, pos, window);
    } else {
      var d := DecodeStep(data, pos, window);
      FirstText(data, pos, window, ms, tail);
      TextsEchoable(data, d.next, d.window, ms[1..], tail);
    }
  }

  /**
   * While every write succeeds, a stream of masked text frames ended by a close frame is
   * echoed frame by frame, in order, to every registered socket, the sender included; the
   * loop stops at the close frame with the same sockets registered.
   */
  lemma {:induction false} RunEchoes(r: Registry, me: ConnId, data: seq<byte>, pos: nat, window: seq<byte>, k: nat,
                                     failing: nat -> set<ConnId>, ms: seq<(seq<byte>, seq<byte>)>)
    requires |window| == 4 && pos <= |data| && AllValid(ms) && Echoable(data, pos, window, ms)
    requires forall j :: failing(j) == {}
    requires me !in r.closed
    ensures Run(r, me, data, pos, window, k, failing)
      == Ending(Registry(r.clients, r.closed, Appended(r.sent, r.clients, Echoes(ms))), CloseFrame, k + |ms|)
    decreases ms
  {
    if ms == [] {
      AppendedNothing(r.sent, r.clients);
    } else {
      var d := DecodeStep(data, pos, window);
      RunEcho(r, me, data, pos, window, k, failing);
      var r' := Registry(r.clients, r.closed, Appended(r.sent, r.clients, [EncodeFrame(ms[0].1)]));
      RunEchoes(r', me, data, d.next, d.window, k + 1, failing, ms[1..]);
      assert Appended(r'.sent, r.clients, Echoes(ms[1..])) == Appended(r.sent, r.clients, Echoes(ms)) by {
        assert Echoes(ms) == [EncodeFrame(ms[0].1)] + Echoes(ms[1..]);
        AppendedTwice(r.sent, r.clients, [EncodeFrame(ms[0].1)], Echoes(ms[1..]));
      }
    }
  }

  /**
   * handleClient for a new socket `me`: the request lines, the raw bytes the frame reader sees
   * afterwards, SHA-1 as `digest`, the HTML page, whether writing the 101 reply throws
   * (`replyFails`), and the write failures of the broadcasts. The result is what is written to
   * `me` before any frame, and the registry afterwards. A 101 reply that cannot be written
   * skips registration and the message loop: the exception goes straight to the `finally`.
   */
  function Session(r: Registry, me: ConnId, lines: seq<string>, data: seq<byte>,
                   digest: seq<byte> -> seq<bv8>, page: string, replyFails: bool, failing: nat -> set<ConnId>)
    : (s: (seq<byte>, Registry))
    ensures me !in s.1.clients && me in s.1.closed
    ensures !Handshake.Negotiate(lines, digest).Upgraded? || replyFails ==> s.1 == Removed(r, me)
  {
    match Handshake.Negotiate(lines, digest)
    case NotRequest => ([], Removed(r, me))
    case HeadersCut => ([], Removed(r, me))
    case Page => (Handshake.OkResponse(page), Removed(r, me))
    case Upgraded(accept) =>
      if replyFails then (Handshake.SwitchingResponse(accept), Removed(r, me))
      else (Handshake.SwitchingResponse(accept),
            Removed(Run(Added(r, me), me, data, 0, Zeros(4), 0, failing).registry, me))
  }

  /**
   * A connection that is not upgraded, or whose 101 reply cannot be written, is never
   * registered: the other sockets and every log are as before.
   */
  lemma SessionUnregistered(r: Registry, me: ConnId, lines: seq<string>, data: seq<byte>,
                            digest: seq<byte> -> seq<bv8>, page: string, replyFails: bool,
                            failing: nat -> set<ConnId>)
    requires Coherent(r) && me !in r.clients
    requires !Handshake.Negotiate(lines, digest).Upgraded? || replyFails
    ensures var s := Session(r, me, lines, data, digest, page, replyFails, failing).1;
      s.clients == r.clients && s.sent == r.sent && Coherent(s)
  {
  }

  /**
   * Whatever the request and the stream, the session leaves the registry coherent, registers
   * no other socket, and only appends to the logs.
   */
  lemma SessionShrinks(r: Registry, me: ConnId, lines: seq<string>, data: seq<byte>,
                       digest: seq<byte> -> seq<bv8>, page: string, replyFails: bool,
                       failing: nat -> set<ConnId>)
    requires Coherent(r) && me !in r.closed
    ensures var s := Session(r, me, lines, data, digest, page, replyFails, failing).1;
      Coherent(s) && s.clients <= r.clients && r.closed <= s.closed && r.sent.Keys <= s.sent.Keys &&
      forall c :: c in r.sent ==> r.sent[c] <= s.sent[c]
  {
    var outcome := Handshake.Negotiate(lines, digest);
    if outcome.Upgraded? && !replyFails {
      var a := Added(r, me);
      assert Coherent(a) && forall c :: c in r.sent ==> r.sent[c] == a.sent[c] by {
        AddedCoherent(r, me);
      }
      var final := Run(a, me, data, 0, Zeros(4), 0, failing).registry;
      RunShrinks(a, me, data, 0, Zeros(4), 0, failing);
      SessionUpgraded(r, me, lines, data, digest, page, replyFails, failing, outcome.accept, final);
    }
  }

  /**
   * An upgraded session answers with the 101 response; it ends with the loop's registry when
   * that reply is written, and with the registry it started from when writing it throws.
   */
  lemma SessionUpgraded(r: Registry, me: ConnId, lines: seq<string>, data: seq<byte>,
                        digest: seq<byte> -> seq<bv8>, page: string, replyFails: bool,
                        failing: nat -> set<ConnId>, accept: string, final: Registry)
    requires Handshake.Negotiate(lines, digest) == Handshake.Upgraded(accept)
    requires Run(Added(r, me), me, data, 0, Zeros(4), 0, failing).registry == final
    ensures Session(r, me, lines, data, digest, page, replyFails, failing)
      == (Handshake.SwitchingResponse(accept), if replyFails then Removed(r, me) else Removed(final, me))
  {
  }

  /**
   * A whole chat session: a GET request whose last Sec-WebSocket-Key line gives `key` is
   * answered with the 101 response for that key; while every write succeeds, each masked text
   * message of the client is echoed to every registered socket and to the client itself, in
   * order; the close frame then ends the session, and the client is removed and closed.
   */
  lemma ChatSession(r: Registry, me: ConnId, requestLine: string, fields: seq<string>, rest: seq<string>,
                    i: nat, key: string, ms: seq<(seq<byte>, seq<byte>)>, tail: seq<byte>,
                    digest: seq<byte> -> seq<bv8>, page: string, failing: nat -> set<ConnId>)
    requires me !in r.clients && me !in r.closed && me !in r.sent
    requires Text.Contains(requestLine, "GET")
    requires forall j :: 0 <= j < |fields| ==> |fields[j]| > 0
    requires i < |fields| && Handshake.ParseHeader(fields[i]) == Some((Handshake.KeyField, key))
    requires forall j :: i < j < |fields| ==> !Handshake.Names(fields[j], Handshake.KeyField)
    requires AllValid(ms) && 2 <= |tail| && Low4(tail[0]) == 8
    requires forall j :: failing(j) == {}
    ensures Session(r, me, Handshake.Request(requestLine, fields, rest), Texts(ms) + tail, digest, page, false, failing)
      == (Handshake.SwitchingResponse(Handshake.AcceptKey(key, digest)),
          Registry(r.clients, r.closed + {me}, Appended(r.sent[me := []], r.clients + {me}, Echoes(ms))))
  {
    var lines, data := Handshake.Request(requestLine, fields, rest), Texts(ms) + tail;
    var accept := Handshake.AcceptKey(key, digest);
    assert Handshake.Negotiate(lines, digest) == Handshake.Upgraded(accept) by {
      Handshake.NegotiateUpgrades(requestLine, fields, rest, i, key, digest);
    }
    var a := Added(r, me);
    assert a == Registry(r.clients + {me}, r.closed, r.sent[me := []]) && a.clients - {me} == r.clients;
    var final := Registry(a.clients, a.closed, Appended(a.sent, a.clients, Echoes(ms)));
    assert Run(a, me, data, 0, Zeros(4), 0, failing).registry == final by {
      assert Echoable(data, 0, Zeros(4), ms) by {
        assert data[0..] == data;
        TextsEchoable(data, 0, Zeros(4), ms, tail);
      }
      RunEchoes(a, me, data, 0, Zeros(4), 0, failing, ms);
    }
    SessionUpgraded(r, me, lines, data, digest, page, false, failing, accept, final);
  }

  /**
   * The registry as the server holds it: the `clients` set, the sockets closed so far, and the
   * frames each socket was handed.
   */
  class Hub {
    var clients: set<ConnId>
    var closed: set<ConnId>
    var sent: map<ConnId, seq<seq<byte>>>

    function State(): Registry
      reads this
    {
      Registry(clients, closed, sent)
    }

    constructor()
      ensures State() == Registry({}, {}, map[])
    {
      clients, closed, sent := {}, {}, map[];
    }

    /** clients.add(socket). */
    method Add(c: ConnId)
      modifies this
      ensures State() == Added(old(State()), c)
    {
      clients := clients + {c};
      if c !in sent {
        sent := sent[c := []];
      }
    }

    /** clients.remove(socket); socket.close(). */
    method Remove(c: ConnId)
      modifies this
      ensures State() == Removed(old(State()), c)
    {
      clients := clients - {c};
      closed := closed + {c};
    }

    /**
     * broadcast: the frame is built once, then written to each member in the iterator's
     * order, which the model leaves open; a member whose write fails is removed and closed.
     */
    method Broadcast(payload: seq<byte>, failing: set<ConnId>)
      requires |payload| < 0x8000_0000 && Coherent(State())
      modifies this
      ensures State() == Broadcasted(old(State()), EncodeFrame(payload), failing)
    {
      var frame := CreateFrame(payload);
      ghost var r0 := State();
      ghost var done: set<ConnId> := {};
      var pending := clients;
      while pending != {}
        invariant done !! pending && done + pending == r0.clients
        invariant State() == BroadcastedTo(r0, frame, failing, done)
        decreases pending
      {
        var c :| c in pending;
        BroadcastedStep(r0, frame, failing, done, c);
        sent := sent[c := sent[c] + [frame]];
        if c in failing {
          clients := clients - {c};
          closed := closed + {c};
        }
        pending, done := pending - {c}, done + {c};
      }
      BroadcastedAll(r0, frame, failing);
    }

    /** handleWebSocketMessages on the raw input `data` of socket `me`. */
    method MessageLoop(me: ConnId, data: seq<byte>, failing: nat -> set<ConnId>) returns (exit: Exit)
      requires Coherent(State())
      modifies this
      ensures var e := Run(old(State()), me, data, 0, Zeros(4), 0, failing);
        State() == e.registry && exit == e.exit
    {
      var s := new ByteStream(data);
      var buffer := new byte[8192](_ => 0);
      assert buffer[..4] == Zeros(4);
      ghost var goal := Run(State(), me, data, 0, Zeros(4), 0, failing);
      var k := 0;
      while true
        invariant s.Valid() && s.data == data && buffer.Length == 8192
        invariant Coherent(State())
        invariant Run(State(), me, data, s.pos, buffer[..4], k, failing) == goal
        decreases |data| - s.pos
      {
        ghost var d := DecodeStep(data, s.pos, buffer[..4]);
        ghost var r := State();
        var step := ReadFrame(s, buffer);
        match step
        case EndOfStream =>
          return StreamEnded;
        case Close =>
          return CloseFrame;
        case TooLong =>
          return LengthTooLong;
        case Message(f) =>
          Broadcast(f.payload, failing(k));
          BroadcastedMembers(r, EncodeFrame(f.payload), failing(k), me);
          k := k + 1;
          if me in closed {
            return OwnSocketClosed;
          }
      }
    }

    /** handleClient for the new socket `me`; `reply` is what it writes to `me` before any frame. */
    method HandleClient(me: ConnId, lines: seq<string>, data: seq<byte>, digest: seq<byte> -> seq<bv8>,
                        page: string, replyFails: bool, failing: nat -> set<ConnId>) returns (reply: seq<byte>)
      requires Coherent(State()) && me !in closed
      modifies this
      ensures (reply, State()) == Session(old(State()), me, lines, data, digest, page, replyFails, failing)
    {
      var outcome := Handshake.NegotiateRequest(lines, digest);
      match outcome {
        case NotRequest =>
          reply := [];
        case HeadersCut =>
          reply := [];
        case Page =>
          reply := Handshake.OkResponse(page);
        case Upgraded(accept) =>
          reply := Handshake.SwitchingResponse(accept);
          if !replyFails {
            ghost var r0 := State();
            Add(me);
            AddedCoherent(r0, me);
            var exit := MessageLoop(me, data, failing);
            SessionUpgraded(r0, me, lines, data, digest, page, replyFails, failing, accept, State());
          }
      }
      Remove(me);
    }
  }
}
