/** The LOGIN phase of the Minecraft protocol, whose framing changes in mid-stream
(e2e/scripts/minecraft-login-probe.py). */
module Login {
  import opened Wrappers
  import opened Bytes
  import opened Framing

  const LOGIN_DISCONNECT := 0x00
  const LOGIN_ENCRYPTION_REQUEST := 0x01
  const LOGIN_SUCCESS := 0x02
  const LOGIN_SET_COMPRESSION := 0x03
  const LOGIN_CUSTOM_QUERY := 0x04
  const LOGIN_COOKIE_REQUEST := 0x05
  const CUSTOM_QUERY_ANSWER := 0x02
  const LOGIN_ACKNOWLEDGED := 0x03

  /** How the phase ends; the last four raise an exception in the script. */
  datatype Terminal = Configuration | LoginEof | LoginReset | LoginDisconnect
                    | EofRaised | ResetRaised | ProtocolError | TimedOut

  /** Whether the server may end the phase early, and whether the connection, where its bytes end, was reset. */
  datatype Setting = Setting(allow: bool, reset: bool)

  datatype Outcome = Outcome(terminal: Terminal, packets: nat, threshold: Option<nat>, wire: nat, sent: Bytes)

  /** One more packet before the rest of the conversation. */
  function Counted(wire: nat, sent: Bytes, rest: Outcome): Outcome {
    rest.(packets := rest.packets + 1, wire := rest.wire + wire, sent := sent + rest.sent)
  }

  /** The answer of a client that knows no such channel: the transaction id, and a null payload. */
  function Answer(transaction: nat): Bytes {
    Varint(CUSTOM_QUERY_ANSWER) + Varint(transaction) + [0]
  }

  function Ended(threshold: Option<nat>, how: Setting): Outcome {
    Outcome(Ending(how), 0, threshold, 0, [])
  }

  function Ending(how: Setting): Terminal {
    if how.reset then if how.allow then LoginReset else ResetRaised
    else if how.allow then LoginEof else EofRaised
  }

  function Failed(threshold: Option<nat>): Outcome {
    Outcome(ProtocolError, 0, threshold, 0, [])
  }

  /** `receive_packet` on a whole stream: the id and body at `pos`, under the threshold in force. */
  datatype Received = End | Malformed | Got(id: nat, body: Bytes, wire: nat, next: nat)

  function Receive(z: Zlib, input: Bytes, pos: nat, threshold: Option<nat>): (r: Received)
    ensures r.Got? ==> pos < r.next <= |input|
  {
    match ReadFrame(input, pos)
    case Eof => End
    case Bad => Malformed
    case Frame(bytes, next) =>
      var payload := Deframe(z, bytes, threshold);
      if payload.None? || !DecodeVarint(payload.value, 0).Decoded? then Malformed
      else
        var id := DecodeVarint(payload.value, 0);
        Got(id.value, payload.value[id.end..], |Varint(|bytes|)| + |bytes|, next)
  }

  /** The branch taken for one received packet: the phase ends, or goes on under a threshold; there may be a reply. */
  datatype Reaction = Ends(terminal: Terminal, reply: Bytes) | GoesOn(threshold: Option<nat>, reply: Bytes)

  function React(z: Zlib, id: nat, body: Bytes, threshold: Option<nat>, how: Setting): (r: Reaction)
    ensures r.Ends? ==> r.terminal != TimedOut
  {
    if id == LOGIN_DISCONNECT then Ends(if how.allow then LoginDisconnect else ProtocolError, [])
    else if id == LOGIN_SET_COMPRESSION then
      var t := DecodeVarint(body, 0);
      if !t.Decoded? || t.end != |body| then Ends(ProtocolError, []) else GoesOn(Some(t.value), [])
    else if id == LOGIN_CUSTOM_QUERY then
      var transaction := DecodeVarint(body, 0);
      if !transaction.Decoded? then Ends(ProtocolError, [])
      else GoesOn(threshold, Framed(z, Answer(transaction.value), threshold))
    else if id == LOGIN_SUCCESS then Ends(Configuration, Framed(z, Varint(LOGIN_ACKNOWLEDGED), threshold))
    else Ends(ProtocolError, [])
  }

  /** What the client makes of the bytes a server sends, from `pos` on. */
  function Talk(z: Zlib, input: Bytes, pos: nat, threshold: Option<nat>, how: Setting): Outcome
    requires pos <= |input|
    decreases |input| - pos
  {
    match Receive(z, input, pos, threshold)
    case End => Ended(threshold, how)
    case Malformed => Failed(threshold)
    case Got(id, body, wire, next) =>
      match React(z, id, body, threshold, how)
      case Ends(terminal, reply) => Outcome(terminal, 1, threshold, wire, reply)
      case GoesOn(changed, reply) => Counted(wire, reply, Talk(z, input, next, changed, how))
  }

  /** The deadline passes after `rounds` rounds of the loop; in round `k` the receive times out if `silent(k)`, after it
  has taken `lost(k)` bytes of a packet. */
  datatype Schedule = Schedule(rounds: nat, silent: nat -> bool, lost: nat -> nat)

  function Skip(input: Bytes, pos: nat, n: nat): (r: nat)
    requires pos <= |input|
    ensures pos <= r <= |input|
  {
    if pos + n <= |input| then pos + n else |input|
  }

  /** The same under a schedule, from a round on. */
  function Listen(z: Zlib, input: Bytes, pos: nat, threshold: Option<nat>, how: Setting, s: Schedule, round: nat)
    : Outcome
    requires pos <= |input| && round <= s.rounds
    decreases s.rounds - round
  {
    if round == s.rounds then Outcome(TimedOut, 0, threshold, 0, [])
    else if s.silent(round) then Listen(z, input, Skip(input, pos, s.lost(round)), threshold, how, s, round + 1)
    else
      match Receive(z, input, pos, threshold)
      case End => Ended(threshold, how)
      case Malformed => Failed(threshold)
      case Got(id, body, wire, next) =>
        match React(z, id, body, threshold, how)
        case Ends(terminal, reply) => Outcome(terminal, 1, threshold, wire, reply)
        case GoesOn(changed, reply) => Counted(wire, reply, Listen(z, input, next, changed, how, s, round + 1))
  }

  // ---------------------------------------------------------------- the client over a socket

  class Socket {
    const inbound: Bytes
    var at: nat
    var outbound: Bytes

    ghost predicate Valid()
      reads this
    {
      at <= |inbound|
    }

    constructor (inbound: Bytes)
      ensures Valid() && this.inbound == inbound && at == 0 && outbound == []
    {
      this.inbound := inbound;
      at, outbound := 0, [];
    }

    /** Some of the bytes that are left, as many as happen to have arrived; none only at the end of the stream. */
    method Recv(limit: nat) returns (chunk: Bytes)
      requires Valid() && limit > 0
      modifies this`at
      ensures Valid() && |chunk| <= limit && at == old(at) + |chunk| && chunk == inbound[old(at)..at]
      ensures chunk == [] <==> old(at) == |inbound|
    {
      var arrived: nat := *;
      var most := if |inbound| - at < limit then |inbound| - at else limit;
      arrived := if 1 <= arrived <= most then arrived else most;
      chunk := inbound[at..at + arrived];
      at := at + arrived;
    }

    method ReadVarint() returns (r: Varied)
      requires Valid()
      modifies this`at
      ensures Valid() && r == DecodeVarint(inbound, old(at))
      ensures r.Decoded? ==> at == r.end
    {
      hide DecodeFrom, More, DecodeVarint;
      ghost var start := at;
      var value: nat, scale: nat := 0, 1;
      DecodeBegins(inbound, start);
      for index := 0 to 5
        invariant Valid() && at == start + index
        invariant DecodeVarint(inbound, start) == More(value, scale, DecodeFrom(inbound, start + index, 5 - index))
      {
        DecodeByte(inbound, at, 5 - index, value, scale);
        var raw := Recv(1);
        if raw == [] {
          return Truncated;
        }
        var byte: nat := raw[0];
        var digit: nat := if byte < 128 then byte else byte - 128;
        value := value + digit * scale;
        scale := scale * 128;
        if byte < 128 {
          return Decoded(value, at);
        }
      }
      DecodeEnds(inbound, at, value, scale);
      r := TooLong;
    }

    /** Exactly `length` bytes, however they arrive. */
    method ReadExact(length: nat) returns (r: Option<Bytes>)
      requires Valid()
      modifies this`at
      ensures Valid()
      ensures r == if old(at) + length <= |inbound| then Some(inbound[old(at)..old(at) + length]) else None
      ensures r.Some? ==> at == old(at) + length
    {
      var out: Bytes := [];
      while |out| < length
        invariant Valid() && |out| <= length && at == old(at) + |out| && out == inbound[old(at)..at]
        decreases length - |out|
      {
        var chunk := Recv(length - |out|);
        if chunk == [] {
          return None;
        }
        out := out + chunk;
      }
      r := Some(out);
    }

    method ReceivePacket(z: Zlib, threshold: Option<nat>) returns (r: Received)
      requires Valid()
      modifies this`at
      ensures Valid() && r == Receive(z, inbound, old(at), threshold)
      ensures r.Got? ==> at == r.next
    {
      hide DecodeFrom;
      var length := ReadVarint();
      if length.Truncated? {
        return End;
      }
      if length.TooLong? || length.value > MAX_PACKET_LENGTH {
        return Malformed;
      }
      var frame := ReadExact(length.value);
      if frame.None? {
        return End;
      }
      var wire := |Varint(length.value)| + length.value;
      var payload := frame.value;
      if threshold.Some? {
        var announced := DecodeVarintBytes(frame.value, 0);
        if !announced.Decoded? {
          return Malformed;
        }
        var encoded := frame.value[announced.end..];
        if announced.value == 0 {
          payload := encoded;
        } else {
          if announced.value < threshold.value {
            return Malformed;
          }
          var inflated := z.decompress(encoded);
          if inflated.None? || |inflated.value| != announced.value {
            return Malformed;
          }
          payload := inflated.value;
        }
      }
      var id := DecodeVarintBytes(payload, 0);
      if !id.Decoded? {
        return Malformed;
      }
      r := Got(id.value, payload[id.end..], wire, at);
    }

    method Send(z: Zlib, payload: Bytes, threshold: Option<nat>)
      modifies this`outbound
      ensures outbound == old(outbound) + Framed(z, payload, threshold)
    {
      outbound := outbound + Framed(z, payload, threshold);
    }

    /** What the client does about one packet: it answers and goes on, or the phase ends. */
    method Respond(z: Zlib, packet: Received, threshold: Option<nat>, how: Setting)
        returns (ended: Option<Terminal>, next: Option<nat>, ghost reply: Bytes)
      requires packet.Got?
      modifies this`outbound
      ensures outbound == old(outbound) + reply
      ensures React(z, packet.id, packet.body, threshold, how) ==
              if ended.Some? then Ends(ended.value, reply) else GoesOn(next, reply)
    {
      hide Framed, DecodeFrom;
      ended, next, reply := None, threshold, [];
      if packet.id == LOGIN_DISCONNECT {
        ended := Some(if how.allow then LoginDisconnect else ProtocolError);
      } else if packet.id == LOGIN_SET_COMPRESSION {
        var t := DecodeVarintBytes(packet.body, 0);
        if !t.Decoded? || t.end != |packet.body| {
          ended := Some(ProtocolError);
        } else {
          next := Some(t.value);
        }
      } else if packet.id == LOGIN_CUSTOM_QUERY {
        var transaction := DecodeVarintBytes(packet.body, 0);
        if !transaction.Decoded? {
          ended := Some(ProtocolError);
        } else {
          Send(z, Answer(transaction.value), threshold);
          reply := Framed(z, Answer(transaction.value), threshold);
        }
      } else if packet.id == LOGIN_SUCCESS {
        Send(z, Varint(LOGIN_ACKNOWLEDGED), threshold);
        ended, reply := Some(Configuration), Framed(z, Varint(LOGIN_ACKNOWLEDGED), threshold);
      } else {
        // Encryption requests, cookie requests and unknown packets.
        ended := Some(ProtocolError);
      }
    }

    /** `enter_configuration`. */
    method EnterConfiguration(z: Zlib, how: Setting, s: Schedule)
        returns (terminal: Terminal, packets: nat, threshold: Option<nat>, wire: nat)
      requires Valid()
      modifies this
      ensures Valid() && old(outbound) <= outbound
      ensures Outcome(terminal, packets, threshold, wire, outbound[|old(outbound)|..]) ==
              Listen(z, inbound, old(at), None, how, s, 0)
    {
      hide Receive, React, Listen, Joined;
      ghost var start, before := at, outbound;
      ghost var sent: Bytes := [];
      packets, threshold, wire := 0, None, 0;
      JoinedNothing(Listen(z, inbound, at, None, how, s, 0));
      for round := 0 to s.rounds
        invariant Valid() && outbound == before + sent
        invariant Listen(z, inbound, start, None, how, s, 0) ==
                  Joined(packets, wire, sent, Listen(z, inbound, at, threshold, how, s, round))
      {
        ListenStep(z, inbound, at, threshold, how, s, round);
        ghost var rest := Listen(z, inbound, at, threshold, how, s, round);
        if s.silent(round) {
          at := Skip(inbound, at, s.lost(round));
          continue;
        }
        var packet := ReceivePacket(z, threshold);
        JoinedEnds(packets, wire, sent, rest);
        if !packet.Got? {
          terminal := if packet.Malformed? then ProtocolError else Ending(how);
          return;
        }
        var ended, next; ghost var reply;
        ended, next, reply := Respond(z, packet, threshold, how);
        if ended.Some? {
          packets, wire := packets + 1, wire + packet.wire;
          terminal := ended.value;
          return;
        }
        JoinedCounted(packets, wire, sent, packet.wire, reply, Listen(z, inbound, at, next, how, s, round + 1));
        sent := sent + reply;
        packets, wire, threshold := packets + 1, wire + packet.wire, next;
      }
      ListenEnds(z, inbound, at, threshold, how, s);
      JoinedEnds(packets, wire, sent, Listen(z, inbound, at, threshold, how, s, s.rounds));
      terminal := TimedOut;
    }
  }

  lemma ListenStep(z: Zlib, input: Bytes, pos: nat, threshold: Option<nat>, how: Setting, s: Schedule, round: nat)
    requires pos <= |input| && round < s.rounds
    ensures var packet := Receive(z, input, pos, threshold);
            Listen(z, input, pos, threshold, how, s, round) ==
            if s.silent(round) then Listen(z, input, Skip(input, pos, s.lost(round)), threshold, how, s, round + 1)
            else if packet.End? then Ended(threshold, how)
            else if packet.Malformed? then Failed(threshold)
            else
              var r := React(z, packet.id, packet.body, threshold, how);
              if r.Ends? then Outcome(r.terminal, 1, threshold, packet.wire, r.reply)
              else Counted(packet.wire, r.reply, Listen(z, input, packet.next, r.threshold, how, s, round + 1))
  {
    hide Receive, React;
  }

  lemma ListenEnds(z: Zlib, input: Bytes, pos: nat, threshold: Option<nat>, how: Setting, s: Schedule)
    requires pos <= |input|
    ensures Listen(z, input, pos, threshold, how, s, s.rounds) == Outcome(TimedOut, 0, threshold, 0, [])
  {
  }

  lemma TalkStep(z: Zlib, input: Bytes, pos: nat, threshold: Option<nat>, how: Setting)
    requires pos <= |input|
    ensures var packet := Receive(z, input, pos, threshold);
            Talk(z, input, pos, threshold, how) ==
            if packet.End? then Ended(threshold, how)
            else if packet.Malformed? then Failed(threshold)
            else
              var r := React(z, packet.id, packet.body, threshold, how);
              if r.Ends? then Outcome(r.terminal, 1, threshold, packet.wire, r.reply)
              else Counted(packet.wire, r.reply, Talk(z, input, packet.next, r.threshold, how))
  {
    hide Receive, React;
  }

  // ---------------------------------------------------------------- what a schedule can change

  /** No receive from this round on times out inside a packet. */
  predicate InStep(s: Schedule, round: nat) {
    forall k: nat | round <= k < s.rounds && s.silent(k) :: s.lost(k) == 0
  }

  /** The rounds from this one on that time out. */
  function Silences(s: Schedule, round: nat): nat
    decreases s.rounds - round
  {
    if round >= s.rounds then 0 else (if s.silent(round) then 1 else 0) + Silences(s, round + 1)
  }

  /** The deadline passes only after one packet for every round that was not silent, so never with a byte to spare. */
  lemma {:induction false} DeadlineCounts(z: Zlib, input: Bytes, pos: nat, threshold: Option<nat>, how: Setting,
                                          s: Schedule, round: nat)
    requires pos <= |input| && round <= s.rounds
    ensures var o := Listen(z, input, pos, threshold, how, s, round);
            o.terminal == TimedOut ==>
              o.packets + Silences(s, round) == s.rounds - round && o.packets <= |input| - pos
    decreases s.rounds - round
  {
    hide Receive, React;
    if round < s.rounds {
      ListenStep(z, input, pos, threshold, how, s, round);
      var packet := Receive(z, input, pos, threshold);
      if s.silent(round) {
        DeadlineCounts(z, input, Skip(input, pos, s.lost(round)), threshold, how, s, round + 1);
      } else if packet.Got? && React(z, packet.id, packet.body, threshold, how).GoesOn? {
        var changed := React(z, packet.id, packet.body, threshold, how).threshold;
        DeadlineCounts(z, input, packet.next, changed, how, s, round + 1);
      }
    }
  }

  /** `o` is how the conversation that would end as `whole` looks when it is cut short. */
  ghost predicate CutShort(z: Zlib, input: Bytes, whole: Outcome, o: Outcome, how: Setting) {
    exists later: nat :: later <= |input|
                         && whole == Joined(o.packets, o.wire, o.sent, Talk(z, input, later, o.threshold, how))
  }

  lemma CutOneLater(z: Zlib, input: Bytes, whole: Outcome, o: Outcome, how: Setting, wire: nat, reply: Bytes)
    requires CutShort(z, input, whole, o, how)
    ensures CutShort(z, input, Counted(wire, reply, whole), Counted(wire, reply, o), how)
  {
    hide Talk;
    var later: nat :| later <= |input|
                      && whole == Joined(o.packets, o.wire, o.sent, Talk(z, input, later, o.threshold, how));
    var rest := Talk(z, input, later, o.threshold, how);
    assert reply + (o.sent + rest.sent) == reply + o.sent + rest.sent;
    assert Counted(wire, reply, whole) == Joined(o.packets + 1, o.wire + wire, reply + o.sent, rest);
  }

  /** As long as no receive times out inside a packet, the schedule does not matter: the outcome is that of the stream,
  or the deadline cut it short. */
  lemma {:induction false} InStepIsTalk(z: Zlib, input: Bytes, pos: nat, threshold: Option<nat>, how: Setting,
                                        s: Schedule, round: nat)
    requires pos <= |input| && round <= s.rounds && InStep(s, round)
    ensures var o, whole := Listen(z, input, pos, threshold, how, s, round), Talk(z, input, pos, threshold, how);
            if o.terminal == TimedOut then CutShort(z, input, whole, o, how) else o == whole
    decreases s.rounds - round
  {
    hide Receive, React, CutShort;
    if round == s.rounds {
      ListenEnds(z, input, pos, threshold, how, s);
      CutHere(z, input, pos, threshold, how);
    } else {
      ListenStep(z, input, pos, threshold, how, s, round);
      TalkStep(z, input, pos, threshold, how);
      var packet := Receive(z, input, pos, threshold);
      if s.silent(round) {
        InStepIsTalk(z, input, pos, threshold, how, s, round + 1);
      } else if packet.Got? && React(z, packet.id, packet.body, threshold, how).GoesOn? {
        var r := React(z, packet.id, packet.body, threshold, how);
        InStepIsTalk(z, input, packet.next, r.threshold, how, s, round + 1);
        var o := Listen(z, input, packet.next, r.threshold, how, s, round + 1);
        if o.terminal == TimedOut {
          CutOneLater(z, input, Talk(z, input, packet.next, r.threshold, how), o, how, packet.wire, r.reply);
        }
      }
    }
  }

  lemma CutHere(z: Zlib, input: Bytes, pos: nat, threshold: Option<nat>, how: Setting)
    requires pos <= |input|
    ensures CutShort(z, input, Talk(z, input, pos, threshold, how), Outcome(TimedOut, 0, threshold, 0, []), how)
  {
    hide Talk;
    JoinedNothing(Talk(z, input, pos, threshold, how));
  }

  /** An outcome after `packets` packets that took `wire` bytes and were answered by `sent`. */
  function Joined(packets: nat, wire: nat, sent: Bytes, rest: Outcome): Outcome {
    rest.(packets := packets + rest.packets, wire := wire + rest.wire, sent := sent + rest.sent)
  }

  lemma JoinedEnds(packets: nat, wire: nat, sent: Bytes, rest: Outcome)
    ensures Joined(packets, wire, sent, rest) ==
            Outcome(rest.terminal, packets + rest.packets, rest.threshold, wire + rest.wire, sent + rest.sent)
    ensures sent + [] == sent
  {
  }

  lemma JoinedNothing(rest: Outcome)
    ensures Joined(0, 0, [], rest) == rest
  {
    assert [] + rest.sent == rest.sent;
  }

  lemma JoinedCounted(packets: nat, wire: nat, sent: Bytes, more: nat, answer: Bytes, rest: Outcome)
    ensures Joined(packets, wire, sent, Counted(more, answer, rest)) ==
            Joined(packets + 1, wire + more, sent + answer, rest)
  {
    assert sent + (answer + rest.sent) == sent + answer + rest.sent;
  }

  // ---------------------------------------------------------------- a server that follows a script

  datatype Message = Disconnect(body: Bytes) | Encryption(body: Bytes) | Success(body: Bytes)
                   | SetCompression(limit: nat) | Query(transaction: nat, body: Bytes)
                   | Cookie(body: Bytes) | Unknown(id: nat, body: Bytes)

  function PayloadOf(m: Message): Bytes {
    match m
    case Disconnect(body) => Varint(LOGIN_DISCONNECT) + body
    case Encryption(body) => Varint(LOGIN_ENCRYPTION_REQUEST) + body
    case Success(body) => Varint(LOGIN_SUCCESS) + body
    case SetCompression(limit) => Varint(LOGIN_SET_COMPRESSION) + Varint(limit)
    case Query(transaction, body) => Varint(LOGIN_CUSTOM_QUERY) + (Varint(transaction) + body)
    case Cookie(body) => Varint(LOGIN_COOKIE_REQUEST) + body
    case Unknown(id, body) => Varint(id) + body
  }

  function IdOf(m: Message): nat {
    match m
    case Disconnect(_) => LOGIN_DISCONNECT
    case Encryption(_) => LOGIN_ENCRYPTION_REQUEST
    case Success(_) => LOGIN_SUCCESS
    case SetCompression(_) => LOGIN_SET_COMPRESSION
    case Query(_, _) => LOGIN_CUSTOM_QUERY
    case Cookie(_) => LOGIN_COOKIE_REQUEST
    case Unknown(id, _) => id
  }

  function BodyOf(m: Message): Bytes {
    match m
    case SetCompression(limit) => Varint(limit)
    case Query(transaction, body) => Varint(transaction) + body
    case _ => m.body
  }

  /** The message fits its frame, and its numbers fit the protocol's 32 bits. */
  predicate Sendable(z: Zlib, m: Message, threshold: Option<nat>) {
    && Carries(z, PayloadOf(m), threshold)
    && (m.SetCompression? ==> m.limit < 0x8000_0000)
    && (m.Query? ==> m.transaction < TWO32)
    && (m.Unknown? ==> 6 <= m.id < TWO32)
  }

  predicate Continues(m: Message) {
    m.SetCompression? || m.Query?
  }

  /** The threshold in force after a message. */
  function Next(m: Message, threshold: Option<nat>): Option<nat> {
    if m.SetCompression? then Some(m.limit) else threshold
  }

  /** The bytes of a script, each message framed under the threshold in force when it is sent. */
  function Stream(z: Zlib, script: seq<Message>, threshold: Option<nat>): Bytes {
    if script == [] then []
    else Framed(z, PayloadOf(script[0]), threshold) + Stream(z, script[1..], Next(script[0], threshold))
  }

  /** Everything up to the first message that ends the phase can be sent. */
  predicate Speakable(z: Zlib, script: seq<Message>, threshold: Option<nat>) {
    script == []
    || (Sendable(z, script[0], threshold)
        && (Continues(script[0]) ==> Speakable(z, script[1..], Next(script[0], threshold))))
  }

  /** How the phase goes, told from the script alone. */
  function Expected(z: Zlib, script: seq<Message>, threshold: Option<nat>, how: Setting): Outcome {
    if script == [] then Outcome(Ending(how), 0, threshold, 0, [])
    else
      var wire := |Framed(z, PayloadOf(script[0]), threshold)|;
      match script[0]
      case SetCompression(limit) => Counted(wire, [], Expected(z, script[1..], Some(limit), how))
      case Query(transaction, _) =>
        Counted(wire, Framed(z, Answer(transaction), threshold), Expected(z, script[1..], threshold, how))
      case Success(_) => Outcome(Configuration, 1, threshold, wire, Framed(z, Varint(LOGIN_ACKNOWLEDGED), threshold))
      case Disconnect(_) => Outcome(if how.allow then LoginDisconnect else ProtocolError, 1, threshold, wire, [])
      case _ => Outcome(ProtocolError, 1, threshold, wire, [])
  }

  predicate AllContinue(script: seq<Message>) {
    forall i | 0 <= i < |script| :: Continues(script[i])
  }

  lemma PayloadIsIdAndBody(m: Message)
    ensures PayloadOf(m) == Varint(IdOf(m)) + BodyOf(m)
  {
  }

  /** One message is received as it was sent. */
  lemma MessageArrives(z: Zlib, m: Message, threshold: Option<nat>, input: Bytes, pos: nat)
    requires Inverse(z) && Sendable(z, m, threshold) && Has(input, pos, Framed(z, PayloadOf(m), threshold))
    ensures Receive(z, input, pos, threshold) ==
            Got(IdOf(m), BodyOf(m), |Framed(z, PayloadOf(m), threshold)|, pos + |Framed(z, PayloadOf(m), threshold)|)
  {
    hide FrameBody, ReadFrame, Deframe, DecodeFrom, EncodeVarint;
    var payload := PayloadOf(m);
    FrameRoundTrip(z, payload, threshold, input, pos);
    PayloadIsIdAndBody(m);
    assert payload[..|Varint(IdOf(m))|] == Varint(IdOf(m)) && payload[|Varint(IdOf(m))|..] == BodyOf(m);
    VarintRoundTrip(IdOf(m), payload, 0);
  }

  /** The numbers inside a message are read back. */
  lemma NumberArrives(m: Message)
    requires m.SetCompression? ==> m.limit < 0x8000_0000
    requires m.Query? ==> m.transaction < TWO32
    ensures m.SetCompression? ==> DecodeVarint(BodyOf(m), 0) == Decoded(m.limit, |BodyOf(m)|)
    ensures m.Query? ==> DecodeVarint(BodyOf(m), 0) == Decoded(m.transaction, |Varint(m.transaction)|)
  {
    hide DecodeFrom, EncodeVarint;
    if m.SetCompression? {
      assert BodyOf(m)[..|BodyOf(m)|] == Varint(m.limit);
      VarintRoundTrip(m.limit, BodyOf(m), 0);
    } else if m.Query? {
      assert BodyOf(m)[..|Varint(m.transaction)|] == Varint(m.transaction);
      VarintRoundTrip(m.transaction, BodyOf(m), 0);
    }
  }

  /** For every script, with Set Compression anywhere in it, the client decodes the concatenated bytes to exactly the
  script up to the first message that ends the phase, and answers accordingly. */
  lemma {:induction false} LoginFollowsTheScript(z: Zlib, script: seq<Message>, threshold: Option<nat>, how: Setting,
                                                 input: Bytes, pos: nat)
    requires Inverse(z) && Speakable(z, script, threshold) && Has(input, pos, Stream(z, script, threshold))
    requires AllContinue(script) ==> pos + |Stream(z, script, threshold)| == |input|
    ensures Talk(z, input, pos, threshold, how) == Expected(z, script, threshold, how)
    decreases |script|
  {
    hide Framed, Receive, Talk, DecodeFrom, Sendable, PayloadOf;
    TalkStep(z, input, pos, threshold, how);
    if script == [] {
      NothingArrives(z, input, pos, threshold);
    } else {
      var m := script[0];
      var first := Framed(z, PayloadOf(m), threshold);
      var rest := Stream(z, script[1..], Next(m, threshold));
      HasSplit(input, pos, first, rest);
      MessageArrives(z, m, threshold, input, pos);
      SendableNumbers(z, m, threshold);
      NumberArrives(m);
      if Continues(m) {
        assert AllContinue(script[1..]) ==> AllContinue(script);
        LoginFollowsTheScript(z, script[1..], Next(m, threshold), how, input, pos + |first|);
      }
    }
  }

  lemma SendableNumbers(z: Zlib, m: Message, threshold: Option<nat>)
    requires Sendable(z, m, threshold)
    ensures (m.SetCompression? ==> m.limit < 0x8000_0000) && (m.Query? ==> m.transaction < TWO32)
    ensures m.Unknown? ==> 6 <= m.id
  {
  }

  lemma NothingArrives(z: Zlib, input: Bytes, pos: nat, threshold: Option<nat>)
    requires pos == |input|
    ensures Receive(z, input, pos, threshold) == End
  {
  }

  // ---------------------------------------------------------------- what the client says, and under which framing

  datatype Said = Answered(transaction: nat, threshold: Option<nat>) | Acknowledged(threshold: Option<nat>)

  function Wire(z: Zlib, said: seq<Said>): Bytes {
    if said == [] then []
    else
      (match said[0]
       case Answered(transaction, threshold) => Framed(z, Answer(transaction), threshold)
       case Acknowledged(threshold) => Framed(z, Varint(LOGIN_ACKNOWLEDGED), threshold))
      + Wire(z, said[1..])
  }

  /** The threshold in force after a whole script. */
  function InForce(script: seq<Message>, threshold: Option<nat>): Option<nat> {
    if script == [] then threshold else InForce(script[1..], Next(script[0], threshold))
  }

  /** The script up to and including the first message that ends the phase. */
  function Heard(script: seq<Message>): seq<Message> {
    if script == [] then [] else if Continues(script[0]) then [script[0]] + Heard(script[1..]) else [script[0]]
  }

  /** One answer per query heard, in order, and one acknowledgement exactly if the phase ended in success. */
  function Replies(script: seq<Message>, threshold: Option<nat>): seq<Said> {
    if script == [] then []
    else if script[0].Query? then [Answered(script[0].transaction, threshold)] + Replies(script[1..], threshold)
    else if script[0].Success? then [Acknowledged(threshold)] + Replies(script[1..], threshold)
    else Replies(script[1..], Next(script[0], threshold))
  }

  /** A message is answered under the framing its predecessors have set up, whatever follows it. */
  lemma {:induction false} RepliesAfter(a: seq<Message>, b: seq<Message>, threshold: Option<nat>)
    ensures Replies(a + b, threshold) == Replies(a, threshold) + Replies(b, InForce(a, threshold))
    decreases |a|
  {
    if a == [] {
      assert a + b == b;
    } else {
      assert (a + b)[1..] == a[1..] + b;
      RepliesAfter(a[1..], b, Next(a[0], threshold));
    }
  }

  lemma HeardStep(m: Message, rest: seq<Message>)
    ensures Heard([m] + rest) == [m] + if Continues(m) then Heard(rest) else []
  {
    assert ([m] + rest)[1..] == rest;
    assert [m] + [] == [m];
  }

  lemma RepliesStep(z: Zlib, m: Message, rest: seq<Message>, threshold: Option<nat>)
    ensures var more := Wire(z, Replies(rest, Next(m, threshold)));
            Wire(z, Replies([m] + rest, threshold)) ==
            if m.Query? then Framed(z, Answer(m.transaction), threshold) + more
            else if m.Success? then Framed(z, Varint(LOGIN_ACKNOWLEDGED), threshold) + more
            else more
  {
    hide Framed, Answer;
    var said := Replies([m] + rest, threshold);
    assert ([m] + rest)[1..] == rest;
    if m.Query? || m.Success? {
      assert said[1..] == Replies(rest, Next(m, threshold));
    }
  }

  lemma StreamStep(z: Zlib, m: Message, rest: seq<Message>, threshold: Option<nat>)
    ensures Stream(z, [m] + rest, threshold) == Framed(z, PayloadOf(m), threshold) + Stream(z, rest, Next(m, threshold))
    ensures InForce([m] + rest, threshold) == InForce(rest, Next(m, threshold))
  {
    hide Framed, PayloadOf;
    assert ([m] + rest)[1..] == rest;
  }

  /** The client has sent exactly the replies to what it heard, counted every packet it heard, and reached
  CONFIGURATION exactly if the last of them is Login Success. */
  lemma {:induction false} ClientRepliesToWhatItHears(z: Zlib, script: seq<Message>, threshold: Option<nat>,
                                                      how: Setting)
    ensures var o, heard := Expected(z, script, threshold, how), Heard(script);
            && o.sent == Wire(z, Replies(heard, threshold))
            && o.packets == |heard|
            && o.threshold == InForce(heard, threshold)
            && o.wire == |Stream(z, heard, threshold)|
            && (o.terminal == Configuration <==> heard != [] && heard[|heard| - 1].Success?)
    decreases |script|
  {
    hide Framed, PayloadOf, Answer, Heard, Replies, Wire, Stream, InForce;
    HeardNothing(z, threshold);
    if script != [] {
      var m, rest := script[0], script[1..];
      assert [m] + rest == script;
      var after := if Continues(m) then Heard(rest) else [];
      HeardStep(m, rest);
      RepliesStep(z, m, after, threshold);
      StreamStep(z, m, after, threshold);
      if Continues(m) {
        ClientRepliesToWhatItHears(z, rest, Next(m, threshold), how);
      } else {
        HeardNothing(z, Next(m, threshold));
      }
    }
  }

  lemma HeardNothing(z: Zlib, threshold: Option<nat>)
    ensures Heard([]) == [] && Wire(z, Replies([], threshold)) == [] && Stream(z, [], threshold) == []
    ensures InForce([], threshold) == threshold
  {
  }

  /** What the client does about each packet, by the numbers of the protocol: 0 disconnect, 2 success, 3 compression,
  4 query; an encryption request (1), a cookie request (5) and anything else end the phase. */
  lemma ReactExactly(z: Zlib, id: nat, body: Bytes, threshold: Option<nat>, how: Setting)
    ensures var r, number := React(z, id, body, threshold, how), DecodeVarint(body, 0);
            if id == 0 then r == Ends(if how.allow then LoginDisconnect else ProtocolError, [])
            else if id == 2 then r == Ends(Configuration, Framed(z, [3], threshold))
            else if id == 3 && number.Decoded? && number.end == |body| then r == GoesOn(Some(number.value), [])
            else if id == 4 && number.Decoded? then
              r == GoesOn(threshold, Framed(z, [2] + Varint(number.value) + [0], threshold))
            else r == Ends(ProtocolError, [])
  {
    hide DecodeFrom;
  }

  /** How the phase ends where the server closes or resets the connection. */
  lemma EndingExactly(how: Setting)
    ensures how.allow && !how.reset ==> Ending(how) == LoginEof
    ensures how.allow && how.reset ==> Ending(how) == LoginReset
    ensures !how.allow && !how.reset ==> Ending(how) == EofRaised
    ensures !how.allow && how.reset ==> Ending(how) == ResetRaised
  {
  }

  // ---------------------------------------------------------------- what the server reads back

  /** Read as frames, each under its own threshold, `sent` is these replies: a packet 2 with the transaction id and a
  zero byte for an answer, an empty packet 3 for an acknowledgement. */
  ghost predicate ServerReads(z: Zlib, sent: Bytes, pos: nat, replies: seq<Said>)
    requires pos <= |sent|
    decreases |replies|
  {
    if replies == [] then pos == |sent|
    else
      match replies[0]
      case Answered(transaction, threshold) =>
        var r := Receive(z, sent, pos, threshold);
        r.Got? && r.id == 2 && r.body == Varint(transaction) + [0] && ServerReads(z, sent, r.next, replies[1..])
      case Acknowledged(threshold) =>
        var r := Receive(z, sent, pos, threshold);
        r.Got? && r.id == 3 && r.body == [] && ServerReads(z, sent, r.next, replies[1..])
  }

  /** Compressing a few bytes does not blow them up beyond the packet limit. */
  ghost predicate Modest(z: Zlib) {
    forall b: Bytes | |b| <= 8 :: |z.compress(b)| <= 1_000_000
  }

  /** One reply is received as the packet it is. */
  lemma ReplyArrives(z: Zlib, id: nat, body: Bytes, threshold: Option<nat>, sent: Bytes, pos: nat)
    requires Inverse(z) && Modest(z) && id < 128 && |body| <= 7
    requires Has(sent, pos, Framed(z, [id] + body, threshold))
    ensures var r := Receive(z, sent, pos, threshold);
            r.Got? && r.id == id && r.body == body && r.next == pos + |Framed(z, [id] + body, threshold)|
  {
    var payload := [id] + body;
    assert |z.compress(payload)| <= 1_000_000;
    LengthOfVarint(|payload|);
    FrameRoundTrip(z, payload, threshold, sent, pos);
    assert DecodeVarint(payload, 0) == Decoded(id, 1);
    assert payload[1..] == body;
    hide FrameBody, ReadFrame, Deframe, DecodeVarint, Framed, Varint;
  }

  lemma LengthOfVarint(n: int)
    ensures 1 <= |Varint(n)| <= 5
  {
    hide Varint, SevenBits;
    VarintExactly(n, Varint(n));
  }

  lemma {:induction false} WireIsRead(z: Zlib, replies: seq<Said>, sent: Bytes, pos: nat)
    requires Inverse(z) && Modest(z)
    requires Has(sent, pos, Wire(z, replies)) && pos + |Wire(z, replies)| == |sent|
    ensures ServerReads(z, sent, pos, replies)
    decreases |replies|
  {
    hide Framed, Receive, Varint;
    if replies != [] {
      var body: Bytes := if replies[0].Answered? then Varint(replies[0].transaction) + [0] else [];
      var id := if replies[0].Answered? then 2 else 3;
      var first := Framed(z, [id] + body, replies[0].threshold);
      SmallVarints();
      if replies[0].Answered? {
        LengthOfVarint(replies[0].transaction);
        assert [2] + Varint(replies[0].transaction) + [0] == [id] + body;
      } else {
        assert [3] == [id] + body;
      }
      HasSplit(sent, pos, first, Wire(z, replies[1..]));
      ReplyArrives(z, id, body, replies[0].threshold, sent, pos);
      WireIsRead(z, replies[1..], sent, pos + |first|);
    }
  }

  lemma SmallVarints()
    ensures Varint(2) == [2] && Varint(3) == [3]
  {
  }

  /** For every script the server reads back, frame by frame and under the threshold then in force, an answer with the
  transaction id of each query heard, in order, and an acknowledgement exactly if the last message was Login Success. */
  lemma ServerReadsTheReplies(z: Zlib, script: seq<Message>, threshold: Option<nat>, how: Setting)
    requires Inverse(z) && Modest(z)
    ensures ServerReads(z, Expected(z, script, threshold, how).sent, 0, Replies(Heard(script), threshold))
  {
    hide Expected, Wire, Replies, Heard, ServerReads, Stream;
    ClientRepliesToWhatItHears(z, script, threshold, how);
    var sent := Expected(z, script, threshold, how).sent;
    assert sent[0..|sent|] == sent;
    WireIsRead(z, Replies(Heard(script), threshold), sent, 0);
  }

  // ---------------------------------------------------------------- a timeout inside a packet

  lemma {:induction false} VarintIsShort(m: nat)
    requires m >= 2
    ensures |EncodeVarint(m)| < m
  {
    if m >= 256 {
      VarintIsShort(m / 128);
    }
  }

  lemma LengthIsShort(m: nat)
    requires 2 <= m < TWO32
    ensures |Varint(m)| < m
  {
    VarintIsShort(m);
  }

  function Zeros(n: nat): (b: Bytes)
    ensures |b| == n
  {
    seq(n, _ => 0)
  }

  /** A frame whose length is one small byte. */
  lemma SmallLength(input: Bytes, pos: nat)
    requires pos < |input| && input[pos] < 128
    ensures ReadFrame(input, pos) ==
            var end := pos + 1 + input[pos];
            if end > |input| then Eof else Frame(input[pos + 1..end], end)
  {
  }

  lemma ZeroIsMalformed(z: Zlib, input: Bytes, pos: nat)
    requires pos < |input| && input[pos] == 0
    ensures Receive(z, input, pos, None) == Malformed
  {
    SmallLength(input, pos);
    assert input[pos + 1..pos + 1] == [];
  }

  lemma TwoIsNoSuccess(z: Zlib, input: Bytes, pos: nat)
    requires pos < |input| && input[pos] == 2 && forall i | pos < i < |input| :: input[i] == 0
    ensures var r := Receive(z, input, pos, None);
            r == End || (r.Got? && r.id == LOGIN_DISCONNECT)
  {
    SmallLength(input, pos);
    if pos + 3 <= |input| {
      assert input[pos + 1..pos + 3] == [0, 0];
    }
  }

  /** How a Login Success with `n` zeros lies in the stream. */
  lemma SuccessLayout(n: nat, input: Bytes, at: nat)
    requires n < TWO32 - 1
    requires var data := Packet([LOGIN_SUCCESS] + Zeros(n));
             Has(input, at, data) && at + |data| == |input|
    ensures var v := |Varint(n + 1)|;
            && |input| == at + v + 1 + n && input[at + v] == LOGIN_SUCCESS
            && forall i | at + v < i < |input| :: input[i] == 0
  {
    hide Varint;
    var payload: Bytes := [LOGIN_SUCCESS] + Zeros(n);
    var v := |Varint(n + 1)|;
    HasSplit(input, at, Varint(n + 1), payload);
    forall i | at + v <= i < |input|
      ensures input[i] == payload[i - at - v]
    {
      assert input[at + v..at + v + |payload|][i - at - v] == input[i];
    }
  }

  /** A Login Success whose first `n` bytes are lost is not heard as one: the client reads on in the middle of it. */
  lemma LostBytesMislead(z: Zlib, n: nat, input: Bytes, at: nat, how: Setting)
    requires 0 < n < MAX_PACKET_LENGTH
    requires var data := Packet([LOGIN_SUCCESS] + Zeros(n));
             Has(input, at, data) && at + |data| == |input|
    ensures at + n <= |input| && Talk(z, input, at + n, None, how).terminal != Configuration
  {
    hide Varint, Talk, Receive, Packet, Framed, DecodeVarint;
    LengthIsShort(n + 1);
    SuccessLayout(n, input, at);
    TalkStep(z, input, at + n, None, how);
    if |Varint(n + 1)| == n {
      TwoIsNoSuccess(z, input, at + n);
    } else {
      ZeroIsMalformed(z, input, at + n);
    }
  }

  /** A script that only continues can be followed by a Login Success. */
  lemma {:induction false} ThenSuccess(z: Zlib, pre: seq<Message>, body: Bytes, threshold: Option<nat>, how: Setting)
    requires AllContinue(pre) && Speakable(z, pre, threshold)
    requires Sendable(z, Message.Success(body), InForce(pre, threshold))
    ensures var script, last := pre + [Message.Success(body)], Message.Success(body);
            && Speakable(z, script, threshold) && Expected(z, script, threshold, how).terminal == Configuration
            && Stream(z, script, threshold) ==
               Stream(z, pre, threshold) + Framed(z, PayloadOf(last), InForce(pre, threshold))
    decreases |pre|
  {
    hide Framed, PayloadOf, Sendable;
    var last := Message.Success(body);
    if pre == [] {
      assert pre + [last] == [last] && [last][1..] == [];
      assert Stream(z, [last], threshold) == Framed(z, PayloadOf(last), threshold) + Stream(z, [], threshold);
    } else {
      var m, rest := pre[0], pre[1..];
      assert [m] + rest == pre && [m] + (rest + [last]) == pre + [last];
      assert (pre + [last])[1..] == rest + [last];
      ThenSuccess(z, rest, body, Next(m, threshold), how);
      StreamStep(z, m, rest, threshold);
      StreamStep(z, m, rest + [last], threshold);
    }
  }

  lemma SuccessIsSent(z: Zlib, n: nat)
    requires n < MAX_PACKET_LENGTH
    ensures var last := Message.Success(Zeros(n));
            Sendable(z, last, None) && Framed(z, PayloadOf(last), None) == Packet([LOGIN_SUCCESS] + Zeros(n))
  {
    assert Varint(LOGIN_SUCCESS) == [LOGIN_SUCCESS];
  }

  /** Whatever came before, as long as it did not turn compression on: for every number of lost bytes there is a Login
  Success that the client, were they not lost, would hear, and does not. */
  lemma EveryLossMatters(z: Zlib, pre: seq<Message>, n: nat, how: Setting)
    requires AllContinue(pre) && Speakable(z, pre, None) && InForce(pre, None) == None && 0 < n < MAX_PACKET_LENGTH
    ensures var script, at := pre + [Message.Success(Zeros(n))], |Stream(z, pre, None)|;
            var input := Stream(z, script, None);
            && Speakable(z, script, None) && Expected(z, script, None, how).terminal == Configuration
            && Has(input, 0, Stream(z, pre, None))
            && at + n <= |input| && Talk(z, input, at + n, None, how).terminal != Configuration
  {
    hide Framed, Talk, Expected, PayloadOf, Packet, Sendable, Stream, Speakable, InForce, AllContinue, Zeros, Has;
    SuccessIsSent(z, n);
    ThenSuccess(z, pre, Zeros(n), None, how);
    LostInTheMiddle(z, n, Stream(z, pre, None), how);
  }

  lemma LostInTheMiddle(z: Zlib, n: nat, before: Bytes, how: Setting)
    requires 0 < n < MAX_PACKET_LENGTH
    ensures var input := before + Packet([LOGIN_SUCCESS] + Zeros(n));
            && Has(input, 0, before) && |before| + n <= |input|
            && Talk(z, input, |before| + n, None, how).terminal != Configuration
  {
    hide Talk, Packet, Zeros, Has;
    var data := Packet([LOGIN_SUCCESS] + Zeros(n));
    HasBoth(before, data);
    LostBytesMislead(z, n, before + data, |before|, how);
  }

  /** The client follows a script that only continues, round by round, as long as no receive times out. */
  lemma {:induction false} FollowsWhileHeard(z: Zlib, pre: seq<Message>, threshold: Option<nat>, input: Bytes, pos: nat,
                                             how: Setting, s: Schedule, round: nat)
    requires Inverse(z) && AllContinue(pre) && Speakable(z, pre, threshold)
    requires Has(input, pos, Stream(z, pre, threshold))
    requires round + |pre| <= s.rounds && forall k | round <= k < round + |pre| :: !s.silent(k)
    ensures var end := pos + |Stream(z, pre, threshold)|;
            Listen(z, input, pos, threshold, how, s, round).terminal ==
            Listen(z, input, end, InForce(pre, threshold), how, s, round + |pre|).terminal
    decreases |pre|
  {
    hide Framed, Receive, Listen, DecodeFrom, Sendable, PayloadOf;
    if pre != [] {
      var m := pre[0];
      var first := Framed(z, PayloadOf(m), threshold);
      HasSplit(input, pos, first, Stream(z, pre[1..], Next(m, threshold)));
      MessageArrives(z, m, threshold, input, pos);
      SendableNumbers(z, m, threshold);
      NumberArrives(m);
      ListenStep(z, input, pos, threshold, how, s, round);
      assert Continues(pre[0]);
      FollowsWhileHeard(z, pre[1..], Next(m, threshold), input, pos + |first|, how, s, round + 1);
    }
  }

  /** The same under the schedule: the first receive that times out inside a packet loses the login, whatever the
  deadline and however quietly the rest goes. */
  lemma LossyRoundLosesTheLogin(z: Zlib, pre: seq<Message>, n: nat, how: Setting, s: Schedule)
    requires Inverse(z) && AllContinue(pre) && Speakable(z, pre, None) && InForce(pre, None) == None
    requires 0 < n < MAX_PACKET_LENGTH && |pre| < s.rounds && forall k | 0 <= k < |pre| :: !s.silent(k)
    requires s.silent(|pre|) && s.lost(|pre|) == n && InStep(s, |pre| + 1)
    ensures var script := pre + [Message.Success(Zeros(n))];
            && Expected(z, script, None, how).terminal == Configuration
            && Listen(z, Stream(z, script, None), 0, None, how, s, 0).terminal != Configuration
  {
    hide Framed, Talk, Listen, Expected, PayloadOf, Sendable, Speakable, Receive, React, InStep, Stream, InForce,
         AllContinue, Zeros, Has;
    EveryLossMatters(z, pre, n, how);
    var input, at := Stream(z, pre + [Message.Success(Zeros(n))], None), |Stream(z, pre, None)|;
    FollowsWhileHeard(z, pre, None, input, 0, how, s, 0);
    AfterLoss(z, input, at, n, how, s, |pre|);
  }

  lemma AfterLoss(z: Zlib, input: Bytes, at: nat, n: nat, how: Setting, s: Schedule, round: nat)
    requires at + n <= |input| && round < s.rounds && s.silent(round) && s.lost(round) == n && InStep(s, round + 1)
    requires Talk(z, input, at + n, None, how).terminal != Configuration
    ensures Listen(z, input, at, None, how, s, round).terminal != Configuration
  {
    hide Talk, Listen, Receive, React, InStep;
    ListenStep(z, input, at, None, how, s, round);
    InStepIsTalk(z, input, at + n, None, how, s, round + 1);
  }

  /** The client follows every script if and only if no byte was lost on the way to the first packet. */
  lemma InStepExactly(z: Zlib, n: nat, how: Setting)
    requires Inverse(z) && n < MAX_PACKET_LENGTH
    ensures n == 0 <==>
            forall script: seq<Message> | Speakable(z, script, None) && n <= |Stream(z, script, None)| ::
              Talk(z, Stream(z, script, None), n, None, how) == Expected(z, script, None, how)
  {
    hide Talk, Expected, Stream, Speakable;
    if n == 0 {
      forall script: seq<Message> | Speakable(z, script, None)
        ensures Talk(z, Stream(z, script, None), 0, None, how) == Expected(z, script, None, how)
      {
        var input := Stream(z, script, None);
        assert input[0..|input|] == input;
        LoginFollowsTheScript(z, script, None, how, input, 0);
      }
    } else {
      NothingSaid(z);
      EveryLossMatters(z, [], n, how);
      var script := [] + [Message.Success(Zeros(n))];
      assert Speakable(z, script, None);
    }
  }

  lemma NothingSaid(z: Zlib)
    ensures AllContinue([]) && Speakable(z, [], None) && InForce([], None) == None && Stream(z, [], None) == []
  {
  }
}
