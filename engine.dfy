/** The protocol side of `StreamEngine`: the greeting it sends, the
    classification of the peer's greeting (ZMTP/1.0 without a revision,
    ZMTP/1.0, ZMTP/2.0) and the choice of codecs, the identity message it
    sends once, the identity and phony subscription it handles once on the
    way in, and the decode loop of `inEvent`.

    The socket is a queue of chunks, each what one read can return at most;
    the session is a value holding the messages `pullMsg` hands out, the
    answers `pushMsg` will give and the messages it has accepted. Pollers,
    the output side and the teardown itself are left out; `error()` only
    marks the engine as torn down. */
module Engine {
  import opened Wire
  import opened Handlers
  import opened Decoding
  import Encoding

  /** `GREETING_SIZE`: the ten-byte preamble, the revision and the socket type. */
  const GREETING_SIZE: nat := 12
  /** Position of the revision byte in the greeting. */
  const VERSION_POS: nat := 10
  /** `ZMQ.ZMQ_PUB` and `ZMQ.ZMQ_XPUB`. */
  const ZMQ_PUB: int := 1
  const ZMQ_XPUB: int := 9
  /** `ZError.EAGAIN`: the session cannot take more messages for now. */
  const EAGAIN: int := 35

  datatype Option<T> = None | Some(value: T)

  /** The options the engine reads. `custom` stands for the probe of the
      encoder class for a `RAW_ENCODER` field. */
  datatype Options = Options(
    identity: seq<byte>,
    socketType: int,
    recvIdentity: bool,
    maxMsgSize: int,
    custom: bool)

  // ---------------------------------------------------------------------
  // The greetings

  /** The ten bytes `plug` puts in the outgoing greeting: 0xFF, the
      identity size plus one as a 64-bit big-endian long, and 0x7F. To a
      ZMTP/1.0 peer they are the header of the identity message. */
  function GreetingPrefix(identitySize: nat): (g: seq<byte>)
    requires identitySize < INT32_MAX
    ensures |g| == 10 && g[0] == 0xFF && HasFlag(g[9], 1)
    ensures GetLong(g[1..9]) == identitySize + 1
  {
    PutLongGetLong(identitySize + 1);
    assert ([0xFF] + PutLong(identitySize + 1) + [0x7F])[1..9] == PutLong(identitySize + 1);
    [0xFF] + PutLong(identitySize + 1) + [0x7F]
  }

  /** `(byte) options.type` as an octet. */
  function TypeByte(socketType: int): (b: byte)
    // Every socket type ZeroMQ defines fits an octet unchanged.
    ensures 0 <= socketType < 256 ==> b as int == socketType
  {
    (socketType % 256) as byte
  }

  /** The two bytes `handshake` appends for a versioned peer: revision 1 and
      the own socket type. */
  function Tail(socketType: int): (t: seq<byte>)
    // It completes the ten-byte preamble to a full greeting, and the
    // revision it announces is not ZMTP/1.0.
    ensures VERSION_POS + |t| == GREETING_SIZE && t[0] != 0
  {
    [1, TypeByte(socketType)]
  }

  /** A preamble that announces a revision, with the revision still to come. */
  predicate VersionedPrefix(g: seq<byte>) {
    |g| >= 10 && g[0] == 0xFF && HasFlag(g[9], 1)
  }

  /** The bytes received so far settle what the peer speaks: its first byte
      is not 0xFF, or ten bytes are in and the low bit of the tenth is clear,
      or the whole greeting is in. */
  predicate Decided(g: seq<byte>): (r: bool)
    // A full greeting is always decided.
    ensures |g| == GREETING_SIZE ==> r
    // Nothing is decided before a byte is in, and only a first byte other
    // than 0xFF decides before the tenth.
    ensures r ==> |g| >= 1
    ensures r && |g| < 10 ==> g[0] != 0xFF
    // A versioned preamble waits for the revision and the socket type.
    ensures VersionedPrefix(g) && |g| < GREETING_SIZE ==> !r
  {
    |g| >= 1 && (g[0] != 0xFF || (|g| >= 10 && (!HasFlag(g[9], 1) || |g| == GREETING_SIZE)))
  }

  /** ZMTP/1.0 without a revision: the first byte is not 0xFF, or the low bit
      of the tenth byte (the flags of a ZMTP/1.0 identity header) is clear.
      The tenth byte is only looked at once it has arrived. */
  predicate Versionless(g: seq<byte>): (r: bool)
    requires Decided(g)
    ensures r <==> !VersionedPrefix(g)
  {
    g[0] != 0xFF || !HasFlag(g[9], 1)
  }

  /** The framing chosen for the peer: ZMTP/1.0 for a versionless peer or
      revision byte 0, ZMTP/2.0 for any other revision byte. */
  function PeerRevision(g: seq<byte>): (r: Revision)
    requires Decided(g)
    ensures !Versionless(g) ==> |g| == GREETING_SIZE
    ensures r == V2 <==> !Versionless(g) && g[VERSION_POS] != 0
  {
    if Versionless(g) then V1 else if g[VERSION_POS] == 0 then V1 else V2
  }

  /** `headerSize`: the size of the ZMTP/1.0 header of the identity message
      the greeting prefix already stood for. */
  function HeaderSize(identitySize: nat): (r: nat)
    // The one-byte length (size plus one) and the flags, when that length
    // is below the 0xFF escape ...
    ensures identitySize + 1 < 255 ==>
              r == 2 && V1LengthByte((identitySize + 1) as byte, -1) == Length(Accept(identitySize))
    // ... otherwise the escape, an eight-byte length and the flags.
    ensures identitySize + 1 >= 255 ==> r == 1 + 8 + 1 && V1LengthByte(0xFF, -1) == Escape
  {
    if identitySize + 1 >= 255 then 10 else 2
  }

  /** Whether the own socket type makes a versionless peer get a phony
      subscription. */
  predicate Subscribes(socketType: int) {
    socketType == ZMQ_PUB || socketType == ZMQ_XPUB
  }

  /** Two engines understand each other: the full greeting one sends is
      decided, versioned and asks for ZMTP/2.0, while its ten-byte prefix
      alone leaves the other side waiting for the rest. */
  lemma OwnGreetingIsVersioned(identitySize: nat, socketType: int)
    requires identitySize < INT32_MAX
    ensures var g := GreetingPrefix(identitySize) + Tail(socketType);
            Decided(g) && !Versionless(g) && PeerRevision(g) == V2
    ensures VersionedPrefix(GreetingPrefix(identitySize)) && !Decided(GreetingPrefix(identitySize))
  {
    var g := GreetingPrefix(identitySize) + Tail(socketType);
    assert g[0] == 0xFF && g[9] == GreetingPrefix(identitySize)[9] && g[VERSION_POS] == 1;
  }

  /** A ZMTP/1.0 peer reads the greeting prefix as the header of a message
      of `identitySize` bytes: the 0xFF escape, an eight-byte length it
      accepts, and a flags byte (0x7F) with the MORE bit set. */
  lemma GreetingIsIdentityHeader(identitySize: nat, maxmsgsize: int)
    requires identitySize < INT32_MAX
    requires maxmsgsize < 0 || identitySize <= maxmsgsize
    ensures var g := GreetingPrefix(identitySize);
            V1LengthByte(g[0], maxmsgsize) == Escape &&
            V1Length8(g[1..9], maxmsgsize) == Accept(identitySize) &&
            V1FlagsMore(g[9])
  {
    var g := GreetingPrefix(identitySize);
    var b := g[1..9];
    assert b == PutLong(identitySize + 1);
    BeUintBeBytes(identitySize + 1, 8);
    SizeOf8(b);
  }

  /** Once decided, the verdict does not change as more bytes arrive: the
      classification looks only at bytes that were already in. */
  lemma DecidedIsStable(g: seq<byte>, more: seq<byte>)
    requires Decided(g) && |g + more| <= GREETING_SIZE
    ensures Decided(g + more)
    ensures Versionless(g + more) == Versionless(g)
    ensures PeerRevision(g + more) == PeerRevision(g)
  {
    var h := g + more;
    assert h[0] == g[0];
    if g[0] == 0xFF {
      assert h[9] == g[9];
      if HasFlag(g[9], 1) {
        assert more == [];
      }
    }
  }

  // ---------------------------------------------------------------------
  // The socket and the session

  /** Everything still to arrive on the socket. */
  function Flat(chunks: seq<seq<byte>>): seq<byte> {
    if chunks == [] then [] else chunks[0] + Flat(chunks[1..])
  }

  /** `read(buf)` with `room` bytes free in `buf`: at most `room` bytes of
      the chunk at the head of the queue, 0 when nothing is there, and -1
      when the peer has closed and everything has been read. */
  function SocketRead(chunks: seq<seq<byte>>, closed: bool, room: nat): (r: (int, seq<byte>, seq<seq<byte>>))
    ensures r.0 == -1 <==> room > 0 && chunks == [] && closed
    ensures r.0 == -1 ==> r.1 == [] && r.2 == chunks
    ensures r.0 >= 0 ==> r.0 == |r.1| <= room && r.1 + Flat(r.2) == Flat(chunks)
    ensures r.0 == 0 && room > 0 ==> |r.2| < |chunks| || (chunks == [] && !closed)
  {
    if room == 0 then (0, [], chunks)
    else if chunks == [] then (if closed then -1 else 0, [], chunks)
    else if |chunks[0]| <= room then (|chunks[0]|, chunks[0], chunks[1..])
    else
      assert chunks[0] == chunks[0][..room] + chunks[0][room..];
      assert Flat([chunks[0][room..]] + chunks[1..]) == chunks[0][room..] + Flat(chunks[1..]);
      (room, chunks[0][..room], [chunks[0][room..]] + chunks[1..])
  }

  /** Where the read loop of `handshake()` ends: `status` is -1 when the
      peer has closed, 0 when a read returned nothing (the handshake waits
      for the next event) and 1 when the loop is done; `greeting` holds the
      bytes received, `chunks` what is still to arrive, and `tailSent` says
      whether the own revision and type have been appended to the outgoing
      greeting. */
  datatype GreetingRead = GreetingRead(status: int, greeting: seq<byte>, chunks: seq<seq<byte>>, tailSent: bool)

  /** The read loop of `handshake()` from the greeting bytes `g` received so
      far: read at most what the greeting still lacks; stop at a first byte
      other than 0xFF; wait for ten bytes; stop when the low bit of the
      tenth is clear; otherwise append the own revision and type and go on
      until all twelve bytes are in. */
  function ReadGreeting(g: seq<byte>, chunks: seq<seq<byte>>, closed: bool, tailSent: bool): (r: GreetingRead)
    requires |g| <= GREETING_SIZE
    ensures |r.greeting| <= GREETING_SIZE
    ensures |g| < GREETING_SIZE && chunks == [] && !closed ==> r == GreetingRead(0, g, [], tailSent)
    decreases GREETING_SIZE - |g|
  {
    if |g| == GREETING_SIZE then GreetingRead(1, g, chunks, tailSent)
    else
      var rd := SocketRead(chunks, closed, GREETING_SIZE - |g|);
      if rd.0 == -1 then GreetingRead(-1, g, rd.2, tailSent)
      else if rd.0 == 0 then GreetingRead(0, g, rd.2, tailSent)
      else
        var g2 := g + rd.1;
        if g2[0] != 0xFF then GreetingRead(1, g2, rd.2, tailSent)
        else if |g2| < 10 then ReadGreeting(g2, rd.2, closed, tailSent)
        else if !HasFlag(g2[9], 1) then GreetingRead(1, g2, rd.2, tailSent)
        else ReadGreeting(g2, rd.2, closed, true)
  }

  /** No byte is lost or read twice: the greeting only grows, by bytes
      taken from the head of the socket. */
  lemma {:induction false} ReadGreetingKeepsBytes(g: seq<byte>, chunks: seq<seq<byte>>, closed: bool, tailSent: bool)
    requires |g| <= GREETING_SIZE
    ensures var r := ReadGreeting(g, chunks, closed, tailSent);
            g <= r.greeting && r.greeting + Flat(r.chunks) == g + Flat(chunks)
    decreases GREETING_SIZE - |g|
  {
    if |g| < GREETING_SIZE {
      var rd := SocketRead(chunks, closed, GREETING_SIZE - |g|);
      if rd.0 > 0 {
        var g2 := g + rd.1;
        assert g2 + Flat(rd.2) == g + Flat(chunks);
        if g2[0] == 0xFF && (|g2| < 10 || HasFlag(g2[9], 1)) {
          ReadGreetingKeepsBytes(g2, rd.2, closed, if |g2| < 10 then tailSent else true);
        }
      }
    }
  }

  /** The loop ends exactly when the greeting is decided; it fails only on a
      closed, drained socket, and waits with fewer than twelve bytes. */
  lemma {:induction false} ReadGreetingDecides(g: seq<byte>, chunks: seq<seq<byte>>, closed: bool, tailSent: bool)
    requires |g| <= GREETING_SIZE
    ensures var r := ReadGreeting(g, chunks, closed, tailSent);
            (r.status == 1 ==> Decided(r.greeting)) &&
            (r.status != 1 ==> |r.greeting| < GREETING_SIZE && (r.status == 0 || r.status == -1)) &&
            (r.status == -1 ==> r.chunks == [] && closed)
    decreases GREETING_SIZE - |g|
  {
    if |g| < GREETING_SIZE {
      var rd := SocketRead(chunks, closed, GREETING_SIZE - |g|);
      if rd.0 > 0 {
        var g2 := g + rd.1;
        if g2[0] == 0xFF && (|g2| < 10 || HasFlag(g2[9], 1)) {
          ReadGreetingDecides(g2, rd.2, closed, if |g2| < 10 then tailSent else true);
        }
      }
    }
  }

  /** The own revision and type are appended when, and only when, this loop
      received bytes that make a versioned preamble; once appended they are
      never appended again. */
  lemma {:induction false} ReadGreetingTail(g: seq<byte>, chunks: seq<seq<byte>>, closed: bool, tailSent: bool)
    requires |g| <= GREETING_SIZE
    ensures var r := ReadGreeting(g, chunks, closed, tailSent);
            r.tailSent <==> tailSent || (|r.greeting| > |g| && VersionedPrefix(r.greeting))
    decreases GREETING_SIZE - |g|
  {
    if |g| < GREETING_SIZE {
      var rd := SocketRead(chunks, closed, GREETING_SIZE - |g|);
      if rd.0 > 0 {
        var g2 := g + rd.1;
        if g2[0] == 0xFF && (|g2| < 10 || HasFlag(g2[9], 1)) {
          var t := if |g2| < 10 then tailSent else true;
          ReadGreetingTail(g2, rd.2, closed, t);
          ReadGreetingKeepsBytes(g2, rd.2, closed, t);
          var r := ReadGreeting(g2, rd.2, closed, t);
          assert r.greeting[..|g2|] == g2;
          assert r.greeting[0] == g2[0];
          assert |g2| >= 10 ==> r.greeting[9] == g2[9];
        }
      }
    }
  }

  /** How the greeting arrives does not matter: two ways of cutting the same
      bytes into reads lead to the same verdict and the same framing. Fed one
      byte at a time, the handshake negotiates what it negotiates from a
      single read. */
  lemma ReadGreetingVerdictIndependent(g: seq<byte>, c1: seq<seq<byte>>, c2: seq<seq<byte>>,
                                       closed: bool, t1: bool, t2: bool)
    requires |g| <= GREETING_SIZE && Flat(c1) == Flat(c2)
    ensures var r1 := ReadGreeting(g, c1, closed, t1);
            var r2 := ReadGreeting(g, c2, closed, t2);
            r1.status == 1 && r2.status == 1 ==>
              Decided(r1.greeting) && Decided(r2.greeting) &&
              Versionless(r1.greeting) == Versionless(r2.greeting) &&
              PeerRevision(r1.greeting) == PeerRevision(r2.greeting)
  {
    var r1 := ReadGreeting(g, c1, closed, t1);
    var r2 := ReadGreeting(g, c2, closed, t2);
    if r1.status == 1 && r2.status == 1 {
      ReadGreetingKeepsBytes(g, c1, closed, t1);
      ReadGreetingKeepsBytes(g, c2, closed, t2);
      ReadGreetingDecides(g, c1, closed, t1);
      ReadGreetingDecides(g, c2, closed, t2);
      var a, b := r1.greeting, r2.greeting;
      var stream := g + Flat(c1);
      assert a == stream[..|a|] && b == stream[..|b|];
      if |a| <= |b| {
        assert b == a + b[|a|..];
        DecidedIsStable(a, b[|a|..]);
      } else {
        assert a == b + a[|b|..];
        DecidedIsStable(b, a[|b|..]);
      }
    }
  }

  /** The session as the engine sees it: what `pullMsg` will hand out, what
      `pushMsg` will answer (0 once the script runs out) and what it has
      accepted. */
  datatype Session = Session(outbox: seq<Msg>, replies: seq<int>, accepted: seq<Msg>)

  /** `session.pullMsg()`: the next outbound message, or none. */
  function SessionPull(s: Session): (r: (Option<Msg>, Session))
    ensures r.0.Some? <==> s.outbox != []
    ensures r.0.Some? ==> [r.0.value] + r.1.outbox == s.outbox
    ensures r.1.replies == s.replies && r.1.accepted == s.accepted
  {
    if s.outbox == [] then (None, s) else (Some(s.outbox[0]), s.(outbox := s.outbox[1..]))
  }

  /** `session.pushMsg(msg)`: the session takes the message exactly when it
      answers 0. */
  function SessionPush(s: Session, m: Msg): (r: (int, Session))
    ensures r.1.accepted == if r.0 == 0 then s.accepted + [m] else s.accepted
    ensures r.1.outbox == s.outbox
    ensures s.replies == [] ==> r.0 == 0 && r.1.replies == []
  {
    var rc := if s.replies == [] then 0 else s.replies[0];
    var rest := if s.replies == [] then [] else s.replies[1..];
    (rc, Session(s.outbox, rest, if rc == 0 then s.accepted + [m] else s.accepted))
  }

  // ---------------------------------------------------------------------
  // readMsg: the identity goes out first, once

  /** The flags `readMsg` keeps. */
  datatype TxState = TxState(identitySent: bool, txInitialized: bool)

  /** The identity message: the identity bytes, no flags. */
  function IdentityMsg(identity: seq<byte>): Msg {
    Msg(identity, false, false)
  }

  /** One call of `readMsg`. */
  function ReadMsgStep(tx: TxState, o: Options, s: Session): (r: (Option<Msg>, TxState, Session))
    ensures r.2.accepted == s.accepted && r.2.replies == s.replies
    ensures !o.custom ==> r.1.txInitialized
  {
    if tx.txInitialized || o.custom then
      var p := SessionPull(s);
      (p.0, tx, p.1)
    else if !tx.identitySent then
      (Some(IdentityMsg(o.identity)), TxState(true, true), s)
    else
      (None, tx.(txInitialized := true), s)
  }

  /** What `k` calls of `readMsg` return. */
  function ReadMsgs(tx: TxState, o: Options, s: Session, k: nat): (r: seq<Option<Msg>>)
    ensures |r| == k
    decreases k
  {
    if k == 0 then []
    else
      var t := ReadMsgStep(tx, o, s);
      [t.0] + ReadMsgs(t.1, o, t.2, k - 1)
  }

  /** What `k` calls of `pullMsg` return on an outbox `q`. */
  function SessionPulls(q: seq<Msg>, k: nat): (r: seq<Option<Msg>>)
    ensures |r| == k
  {
    if k == 0 then []
    else if q == [] then [None] + SessionPulls(q, k - 1)
    else [Some(q[0])] + SessionPulls(q[1..], k - 1)
  }

  /** Once the control messages are out, or with a custom encoder, `readMsg`
      hands out the session's messages and nothing else. */
  lemma {:induction false} PullsOnly(tx: TxState, o: Options, s: Session, k: nat)
    requires tx.txInitialized || o.custom
    ensures ReadMsgs(tx, o, s, k) == SessionPulls(s.outbox, k)
    decreases k
  {
    if k > 0 {
      var t := ReadMsgStep(tx, o, s);
      PullsOnly(t.1, o, t.2, k - 1);
    }
  }

  /** Without a custom encoder, a fresh engine's first outbound message is
      its identity, and after it come only the session's messages. */
  lemma IdentityFirstAndOnce(o: Options, s: Session, k: nat)
    requires !o.custom
    ensures ReadMsgs(TxState(false, false), o, s, k + 1) ==
            [Some(IdentityMsg(o.identity))] + SessionPulls(s.outbox, k)
  {
    PullsOnly(TxState(true, true), o, s, k);
  }

  // ---------------------------------------------------------------------
  // writeMsg: the identity comes in first, then the phony subscription

  /** The flags `writeMsg` keeps. */
  datatype RxState = RxState(identityReceived: bool, rxInitialized: bool, subscriptionRequired: bool)

  /** The one-byte subscription to everything injected for old peers. */
  function SubscriptionMsg(): Msg {
    Msg([1], false, false)
  }

  /** One call of `writeMsg(msg)`: the return code and the new flags and
      session. Neither flag is ever re-armed. */
  function WriteMsgStep(rx: RxState, o: Options, m: Msg, s: Session): (r: (int, RxState, Session))
    ensures rx.identityReceived ==> r.1.identityReceived
    ensures rx.rxInitialized ==> r.1.rxInitialized
    ensures r.1.subscriptionRequired ==> rx.subscriptionRequired
    ensures r.2.outbox == s.outbox
  {
    if rx.rxInitialized || o.custom then
      var p := SessionPush(s, m);
      (p.0, rx, p.1)
    else
      var first :=
        if rx.identityReceived then (0, rx, s)
        else if o.recvIdentity then
          var p := SessionPush(s, m.(identity := true));
          if p.0 == -1 then (-1, rx, p.1) else (0, rx.(identityReceived := true), p.1)
        else (0, rx.(identityReceived := true), s);
      if first.0 == -1 then first
      else if first.1.subscriptionRequired then
        var p := SessionPush(first.2, SubscriptionMsg());
        if p.0 == -1 then (-1, first.1, p.1)
        else (0, first.1.(subscriptionRequired := false, rxInitialized := true), p.1)
      else (0, first.1.(rxInitialized := true), first.2)
  }

  /** The outcome of writing messages one after another as the decode loop
      does: the last return code, the flags, the session and how many
      messages were handed over before an error or a push-back stopped it. */
  datatype Written = Written(rc: int, rx: RxState, session: Session, count: nat)

  function WriteMsgs(rx: RxState, o: Options, ms: seq<Msg>, s: Session, rc: int): (w: Written)
    ensures w.count <= |ms|
    ensures w.count < |ms| ==> w.rc == -1 || w.rc == EAGAIN
    decreases |ms|
  {
    if ms == [] then Written(rc, rx, s, 0)
    else
      var t := WriteMsgStep(rx, o, ms[0], s);
      if t.0 == -1 || t.0 == EAGAIN then Written(t.0, t.1, t.2, 1)
      else
        var w := WriteMsgs(t.1, o, ms[1..], t.2, t.0);
        w.(count := w.count + 1)
  }

  /** Once the control messages are in, or with a custom encoder, messages
      pass straight through to a session that takes them all. */
  lemma {:induction false} PassThrough(rx: RxState, o: Options, ms: seq<Msg>, s: Session, rc: int)
    requires rx.rxInitialized || o.custom
    requires s.replies == []
    ensures WriteMsgs(rx, o, ms, s, rc) ==
            Written(if ms == [] then rc else 0, rx, s.(accepted := s.accepted + ms), |ms|)
    decreases |ms|
  {
    if ms != [] {
      var t := WriteMsgStep(rx, o, ms[0], s);
      PassThrough(t.1, o, ms[1..], t.2, t.0);
      assert s.accepted + ms == s.accepted + [ms[0]] + ms[1..];
    }
  }

  /** Into a session that takes everything, a fresh engine hands the first
      inbound message on flagged as the identity only when `recvIdentity` is
      set (and drops it otherwise), then the phony subscription once if it
      is required, then every later message unchanged. */
  lemma FirstMessagesIn(o: Options, subscribe: bool, ms: seq<Msg>, s: Session, rc: int)
    requires !o.custom && s.replies == [] && |ms| >= 1
    ensures WriteMsgs(RxState(false, false, subscribe), o, ms, s, rc) ==
            Written(0, RxState(true, true, false),
                    s.(accepted := s.accepted +
                         (if o.recvIdentity then [ms[0].(identity := true)] else []) +
                         (if subscribe then [SubscriptionMsg()] else []) +
                         ms[1..]),
                    |ms|)
  {
    var t := WriteMsgStep(RxState(false, false, subscribe), o, ms[0], s);
    PassThrough(t.1, o, ms[1..], t.2, t.0);
  }

  /** The answer the session gives to the k-th push from now; a session
      with no answers left takes everything. */
  function Answer(s: Session, k: nat): int {
    if k < |s.replies| then s.replies[k] else 0
  }

  /** The first `writeMsg` of a fresh engine, whatever the session answers.
      It returns -1 exactly when a control push is answered -1: the
      identity push leaves every flag armed, the subscription push leaves
      only the identity received. Any other answer returns 0 with every
      flag settled, so an EAGAIN on a control push is swallowed and that
      message is lost. The session keeps exactly the pushes it answered 0. */
  lemma WriteMsgControl(o: Options, subscribe: bool, m: Msg, s: Session)
    requires !o.custom
    ensures var r := WriteMsgStep(RxState(false, false, subscribe), o, m, s);
            var idFail := o.recvIdentity && Answer(s, 0) == -1;
            var subAt := if o.recvIdentity then 1 else 0;
            var subFail := !idFail && subscribe && Answer(s, subAt) == -1;
            (r.0 == -1 <==> idFail || subFail) &&
            (r.0 != -1 ==> r.0 == 0 && r.1 == RxState(true, true, false)) &&
            (idFail ==> r.1 == RxState(false, false, subscribe)) &&
            (subFail ==> r.1 == RxState(true, false, true)) &&
            r.2.accepted == s.accepted +
              (if o.recvIdentity && Answer(s, 0) == 0 then [m.(identity := true)] else []) +
              (if subscribe && !idFail && Answer(s, subAt) == 0 then [SubscriptionMsg()] else [])
  {
    if o.recvIdentity {
      var p := SessionPush(s, m.(identity := true));
      assert Answer(p.1, 0) == Answer(s, 1);
    }
  }

  // ---------------------------------------------------------------------
  // The decode loop of inEvent

  /** A `next()` that, whenever it completes a message, leaves the decoder
      waiting for the next frame of revision `rev`. */
  ghost predicate Resets(next: NextFn, rev: Revision) {
    forall v {:trigger next(v)} :: Wf(v) && next(v).0 == 1 ==> AwaitingFrame(rev, next(v).1)
  }

  lemma MachineResets(rev: Revision, max: int)
    ensures Resets(Machine(rev, max), rev)
  {
  }

  /** A decoder that has just finished a message waits for the next frame. */
  lemma {:induction false} SettleReady(next: NextFn, rev: Revision, v: View)
    requires IsNext(next) && Resets(next, rev) && Wf(v)
    ensures var s := Settle(next, v);
            s.0 == 1 ==> AwaitingFrame(rev, s.1)
    decreases Rank(v)
  {
    if Remaining(v) == 0 {
      var s := next(v);
      if s.0 == 0 {
        SettleReady(next, rev, s.1);
      }
    }
  }

  lemma {:induction false} RunReady(next: NextFn, rev: Revision, v: View, input: seq<byte>, pos: nat)
    requires IsNext(next) && Resets(next, rev) && Wf(v) && pos <= |input|
    ensures var r := Run(next, v, input, pos);
            r.rc == 1 ==> AwaitingFrame(rev, r.view)
    decreases |input| - pos
  {
    SettleReady(next, rev, v);
    var s := Settle(next, v);
    if s.0 == 0 && pos < |input| {
      var t := Min(Remaining(s.1), |input| - pos);
      RunStep(next, v, s.1, input, pos, t, pos + t);
      RunReady(next, rev, Fill(s.1, input, pos, t), input, pos + t);
    } else {
      RunHalt(next, v, input, pos);
    }
  }

  /** A decoder with room in its target consumes at least one byte. */
  lemma RunProgress(next: NextFn, v: View, input: seq<byte>)
    requires IsNext(next) && Wf(v) && Remaining(v) > 0 && input != []
    ensures Run(next, v, input, 0).consumed > 0
  {
    var t := Min(Remaining(v), |input|);
    RunStep(next, v, v, input, 0, t, t);
  }

  /** The outcome of the decode loop: the last return code, the decoder, the
      input it left unprocessed, and the flags and session after `writeMsg`. */
  datatype PumpResult = PumpResult(rc: int, view: View, rest: seq<byte>, rx: RxState, session: Session)

  /** `while (insize > 0)`: decode; stop unless a message is complete; hand
      it to `writeMsg`; stop on an error or a push-back. `rc` is the code the
      loop reports if the input runs out. */
  ghost function Pump(rev: Revision, max: int, v: View, input: seq<byte>, rx: RxState, o: Options,
                      s: Session, rc: int): (r: PumpResult)
    requires Wf(v) && Remaining(v) > 0
    ensures Wf(r.view) && (r.rc != -1 ==> Remaining(r.view) > 0)
    ensures |r.rest| <= |input| && r.rest == input[|input| - |r.rest|..]
    ensures r.rest != [] ==> r.rc == -1 || r.rc == EAGAIN
    decreases |input|
  {
    if input == [] then PumpResult(rc, v, [], rx, s)
    else
      var d := Run(Machine(rev, max), v, input, 0);
      RunProgress(Machine(rev, max), v, input);
      MachineResets(rev, max);
      RunReady(Machine(rev, max), rev, v, input, 0);
      var rest := input[d.consumed..];
      if d.rc != 1 then PumpResult(d.rc, d.view, rest, rx, s)
      else
        var t := WriteMsgStep(rx, o, Msg(d.view.body, d.view.more, false), s);
        if t.0 == -1 || t.0 == EAGAIN then PumpResult(t.0, d.view, rest, t.1, t.2)
        else
          var r := Pump(rev, max, d.view, rest, t.1, o, t.2, t.0);
          assert rest[|rest| - |r.rest|..] == input[|input| - |r.rest|..];
          r
  }

  /** One turn of the loop, given what the decoder did. */
  lemma PumpStep(rev: Revision, max: int, v: View, input: seq<byte>, rx: RxState, o: Options, s: Session,
                 rc: int, consumed: nat, drc: int, w: View)
    requires Wf(v) && Remaining(v) > 0 && input != []
    requires Run(Machine(rev, max), v, input, 0) == RunResult(consumed, drc, w)
    ensures 0 < consumed <= |input| && Wf(w)
    ensures drc != 1 ==> Pump(rev, max, v, input, rx, o, s, rc) == PumpResult(drc, w, input[consumed..], rx, s)
    ensures drc == 1 ==>
              var t := WriteMsgStep(rx, o, Msg(w.body, w.more, false), s);
              Remaining(w) > 0 &&
              Pump(rev, max, v, input, rx, o, s, rc) ==
                if t.0 == -1 || t.0 == EAGAIN then PumpResult(t.0, w, input[consumed..], t.1, t.2)
                else Pump(rev, max, w, input[consumed..], t.1, o, t.2, t.0)
  {
    RunProgress(Machine(rev, max), v, input);
    MachineResets(rev, max);
    RunReady(Machine(rev, max), rev, v, input, 0);
  }

  /** The ZMTP/2.0 frames of `ms`, back to back. */
  function Frames(ms: seq<Msg>): seq<byte>
    requires forall i | 0 <= i < |ms| :: |ms[i].data| <= INT32_MAX
  {
    if ms == [] then [] else Encoding.Frame(ms[0]) + Frames(ms[1..])
  }

  /** End to end: the frames of `ms` as encoded by `V2Encoder`, fed to a
      ZMTP/2.0 engine, reach `writeMsg` as exactly those messages in order.
      The loop stops where `writeMsg` stops, leaving the frames of the
      messages not yet handed over. */
  lemma {:induction false} PumpFrames(max: int, v: View, ms: seq<Msg>, rx: RxState, o: Options, s: Session, rc: int)
    requires AwaitingFrame(V2, v)
    requires forall i | 0 <= i < |ms| ::
               |ms[i].data| <= INT32_MAX && (max < 0 || |ms[i].data| <= max) && !ms[i].identity
    ensures var p := Pump(V2, max, v, Frames(ms), rx, o, s, rc);
            var w := WriteMsgs(rx, o, ms, s, rc);
            p.rc == w.rc && p.rx == w.rx && p.session == w.session && p.rest == Frames(ms[w.count..])
    decreases |ms|
  {
    if ms != [] {
      var m := ms[0];
      var input := Frames(ms);
      assert input == Encoding.Frame(m) + Frames(ms[1..]);
      Encoding.DecodeFrameThenRest(max, v, m, Frames(ms[1..]));
      var d := Run(Machine(V2, max), v, input, 0);
      assert input[d.consumed..] == Frames(ms[1..]);
      assert Msg(d.view.body, d.view.more, false) == m;
      var t := WriteMsgStep(rx, o, m, s);
      if !(t.0 == -1 || t.0 == EAGAIN) {
        PumpFrames(max, d.view, ms[1..], t.1, o, t.2, t.0);
        assert ms[1..][WriteMsgs(t.1, o, ms[1..], t.2, t.0).count..] ==
               ms[WriteMsgs(rx, o, ms, s, rc).count..];
      }
    }
  }

  /** `getBuffer()`'s room: the target's remaining space when that is at
      least the batch size (zero-copy), otherwise the batch size. */
  function Room(v: View, bufsize: nat): nat
    requires Wf(v)
  {
    if Remaining(v) >= bufsize then Remaining(v) else bufsize
  }

  // ---------------------------------------------------------------------
  // The engine

  class StreamEngine {
    const options: Options
    /** `Config.IN_BATCH_SIZE`, the decoders' staging buffer size. */
    const inBatchSize: nat
    /** The peer's greeting and how many of its bytes have arrived. */
    const greeting: array<byte>
    var greetingPos: nat
    /** The own greeting, with `ByteBuffer` position and limit. */
    const greetingOut: array<byte>
    var outPos: nat
    var outLimit: nat
    /** Bytes still to be written. */
    var outsize: int
    /** The input not yet decoded (`inbuf` up to `insize`). */
    var inbuf: seq<byte>
    var decoder: Decoder?
    /** The framing of the encoder, once chosen. */
    var encoderRevision: Option<Revision>
    var handshaking: bool
    var identitySent: bool
    var txInitialized: bool
    var identityReceived: bool
    var rxInitialized: bool
    var subscriptionRequired: bool
    var congested: bool
    var ioError: bool
    var plugged: bool
    /** `error()` ran: the engine is torn down. */
    var torn: bool
    /** The socket: chunks still to arrive, and whether the peer has closed. */
    var incoming: seq<seq<byte>>
    const peerClosed: bool
    var session: Session
    /** The decoder's objects. */
    ghost var Repr: set<object>

    /** The objects and sizes the engine relies on. */
    ghost predicate Frame()
      reads this`Repr, this`decoder, this`handshaking, Repr
    {
      greeting != greetingOut &&
      greeting.Length == GREETING_SIZE && greetingOut.Length == GREETING_SIZE &&
      |options.identity| < INT32_MAX &&
      (!handshaking ==> decoder != null) &&
      (decoder == null ==> Repr == {}) &&
      (decoder != null ==>
         decoder in Repr && Repr == decoder.Repr &&
         this !in Repr && greeting !in Repr && greetingOut !in Repr &&
         decoder.Valid() && decoder.next == Machine(decoder.revision, decoder.maxmsgsize) &&
         decoder.maxmsgsize == options.maxMsgSize && decoder.bufsize == inBatchSize)
    }

    /** The positions in the two greetings. */
    ghost predicate Bounds()
      reads this`greetingPos, this`outPos, this`outLimit
    {
      greetingPos <= GREETING_SIZE && outPos <= outLimit <= GREETING_SIZE
    }

    /** Zero-copy input fits the decoder's target. */
    ghost predicate Fits()
      reads this`Repr, this`decoder, this`handshaking, Repr, this`inbuf
    {
      Frame() &&
      (decoder != null && decoder.zeroCopy ==> |inbuf| <= Remaining(decoder.Model()))
    }

    /** Between events; a live engine's decoder has room in its target. */
    ghost predicate Valid()
      reads this`Repr, this`decoder, this`handshaking, Repr, this`inbuf,
            this`greetingPos, this`outPos, this`outLimit, this`torn
    {
      Fits() && Bounds() &&
      (decoder != null && !torn ==> Remaining(decoder.Model()) > 0)
    }

    function Tx(): TxState
      reads this`identitySent, this`txInitialized
    {
      TxState(identitySent, txInitialized)
    }

    function Rx(): RxState
      reads this`identityReceived, this`rxInitialized, this`subscriptionRequired
    {
      RxState(identityReceived, rxInitialized, subscriptionRequired)
    }

    /** `StreamEngine(handle, options, endpoint)`: handshaking, every other
        flag clear, no codecs yet. */
    constructor(options: Options, inBatchSize: nat, incoming: seq<seq<byte>>, peerClosed: bool, session: Session)
      requires |options.identity| < INT32_MAX
      ensures Valid() && Repr == {} && fresh(greeting) && fresh(greetingOut)
      ensures this.options == options && this.inBatchSize == inBatchSize
      ensures this.incoming == incoming && this.peerClosed == peerClosed && this.session == session
      ensures handshaking && !plugged && !torn && !ioError && !congested && decoder == null
      ensures Tx() == TxState(false, false) && Rx() == RxState(false, false, false)
      ensures greetingPos == 0 && outPos == 0 && outLimit == GREETING_SIZE && outsize == 0 && inbuf == []
    {
      this.options := options;
      this.inBatchSize := inBatchSize;
      this.incoming := incoming;
      this.peerClosed := peerClosed;
      this.session := session;
      greeting := new byte[GREETING_SIZE](_ => 0);
      greetingOut := new byte[GREETING_SIZE](_ => 0);
      greetingPos, outPos, outLimit, outsize := 0, 0, GREETING_SIZE, 0;
      inbuf := [];
      decoder := null;
      encoderRevision := None;
      handshaking := true;
      identitySent, txInitialized, identityReceived, rxInitialized := false, false, false, false;
      subscriptionRequired, congested, ioError, plugged, torn := false, false, false, false, false;
      Repr := {};
    }

    /** `error()`: only the teardown is modelled. */
    method Error()
      modifies this`torn, this`plugged
      ensures torn && !plugged
    {
      torn := true;
      plugged := false;
    }

    /** The greeting part of `plug`: the ten-byte prefix goes into the own
        greeting; unless the encoder is custom it is flipped for sending and
        counted in `outsize`. */
    method PutGreeting()
      requires Valid() && outPos == 0 && outLimit == GREETING_SIZE && outsize == 0
      modifies greetingOut, this`outPos, this`outLimit, this`outsize
      ensures Valid()
      ensures greetingOut[..10] == GreetingPrefix(|options.identity|)
      ensures !options.custom ==> outPos == 0 && outLimit == 10 && outsize == 10
      ensures options.custom ==> outPos == 10 && outLimit == GREETING_SIZE && outsize == 0
    {
      var len := PutLong(|options.identity| + 1);
      greetingOut[0] := 0xFF;
      forall i | 0 <= i < 8 {
        greetingOut[1 + i] := len[i];
      }
      greetingOut[9] := 0x7F;
      outPos := 10;
      assert greetingOut[..10] == [0xFF] + len + [0x7F];
      if !options.custom {
        outsize := outPos;
        outLimit, outPos := outPos, 0;
      }
    }

    /** `plug`: send the greeting prefix, then take in whatever has already
        arrived. `encodeLeft` is what `EncoderBase.encode` leaves free of a
        buffer of the header size (see `Handshake`). */
    method Plug(encodeLeft: nat)
      requires Valid() && !plugged && !torn && handshaking
      requires outPos == 0 && outLimit == GREETING_SIZE && outsize == 0
      modifies this, greeting, greetingOut, Repr
      ensures Valid() && fresh(Repr - old(Repr))
      ensures greetingOut[..10] == GreetingPrefix(|options.identity|)
      ensures !options.custom ==> outPos == 0 && outsize == outLimit
    {
      plugged := true;
      ioError := false;
      PutGreeting();
      InEvent(encodeLeft);
    }

    /** `inEvent`: finish the handshake if needed; stop polling if
        congested; otherwise read and decode. */
    method InEvent(encodeLeft: nat)
      requires Valid() && plugged && !torn && !ioError
      modifies this, greeting, greetingOut, Repr
      ensures Valid() && fresh(Repr - old(Repr))
      ensures old(!handshaking) ==> !handshaking
      ensures outPos == old(outPos)
      ensures outLimit == old(outLimit) ==> greetingOut[..] == old(greetingOut[..]) && outsize == old(outsize)
      ensures outLimit != old(outLimit) ==>
                outLimit == GREETING_SIZE && outsize == old(outsize) + 2 &&
                greetingOut[..] == old(greetingOut[..10]) + Tail(options.socketType)
      ensures old(!handshaking && congested) ==> ioError && inbuf == old(inbuf) && session == old(session)
      ensures !handshaking && !torn && !congested && !ioError ==> inbuf == []
    {
      if handshaking {
        var ok := Handshake(encodeLeft);
        if !ok {
          return;
        }
      }
      Resume();
    }

    /** `inEvent` once the handshake is over: a congested engine stops
        reading (`ioError`); otherwise it reads and decodes. */
    method Resume()
      requires Valid() && !handshaking && plugged && !torn
      modifies Repr, this`inbuf, this`incoming, this`identityReceived, this`rxInitialized,
               this`subscriptionRequired, this`session, this`torn, this`plugged, this`congested,
               this`ioError, this`Repr
      ensures Valid() && fresh(Repr - old(Repr)) && decoder == old(decoder)
      ensures old(congested) ==> ioError && inbuf == old(inbuf) && session == old(session)
      ensures ioError == (old(ioError) || old(congested))
      ensures !torn && !congested ==> inbuf == []
    {
      if congested {
        ioError := true;
        return;
      }
      Consume();
    }

    /** The part of `inEvent` after the congestion check: read when no input
        is left (tearing down on a closed socket), then run the decode loop
        until the input is used up, the engine is torn down or congested. */
    method Consume()
      requires Valid() && !handshaking && plugged && !torn && !congested
      modifies Repr, this`inbuf, this`incoming, this`identityReceived, this`rxInitialized,
               this`subscriptionRequired, this`session, this`torn, this`plugged, this`congested, this`Repr
      ensures Valid() && fresh(Repr - old(Repr)) && decoder == old(decoder)
      ensures !torn && !congested ==> inbuf == []
    {
      var live := true;
      if inbuf == [] {
        live := Refill();
      }
      if live {
        var rc := DecodeLoop();
      }
    }

    /** The read of `inEvent` when no input is left; a closed socket tears
        the engine down. */
    method Refill() returns (live: bool)
      requires Valid() && decoder != null && plugged && !torn && inbuf == []
      modifies decoder, this`incoming, this`inbuf, this`torn, this`plugged
      ensures Valid() && decoder.Model() == old(decoder.Model())
      ensures var rd := SocketRead(old(incoming), peerClosed, Room(old(decoder.Model()), inBatchSize));
              incoming == rd.2 && (live <==> rd.0 != -1) && (torn <==> !live) &&
              inbuf == rd.1
    {
      var n := Receive();
      if n == -1 {
        Error();
        return false;
      }
      live := true;
    }

    /** The read in `inEvent`: ask the decoder for a buffer and read into it. */
    method Receive() returns (n: int)
      requires Valid() && decoder != null && !torn && inbuf == []
      modifies decoder, this`incoming, this`inbuf
      ensures Valid()
      ensures decoder.Model() == old(decoder.Model())
      ensures decoder.zeroCopy <==> Remaining(decoder.Model()) >= inBatchSize
      ensures (n, inbuf, incoming) == SocketRead(old(incoming), peerClosed, Room(decoder.Model(), inBatchSize))
    {
      var room := decoder.GetBuffer();
      var r := SocketRead(incoming, peerClosed, room);
      n, inbuf, incoming := r.0, r.1, r.2;
    }
    /** `handshake()`: read the peer's greeting until it is decided, sending
        the own revision and type as soon as the peer shows a versioned
        preamble; then pick the codecs. `encodeLeft` stands for
        `tmp.remaining()` after `EncoderBase.encode(tmp)`, which is not part
        of this model: a versionless peer is only accepted when it equals the
        header size. */
    method Handshake(encodeLeft: nat) returns (ok: bool)
      requires Valid() && handshaking && plugged && !torn
      modifies greeting, greetingOut, this`greetingPos, this`incoming, this`outLimit, this`outsize,
               this`decoder, this`encoderRevision, this`inbuf, this`subscriptionRequired,
               this`handshaking, this`torn, this`plugged, this`Repr
      ensures Valid() && fresh(Repr - old(Repr))
      ensures var r := ReadGreeting(old(greeting[..greetingPos]), old(incoming), peerClosed, old(outLimit) == GREETING_SIZE);
              greeting[..greetingPos] == r.greeting && incoming == r.chunks &&
              (outLimit == GREETING_SIZE) == r.tailSent &&
              (torn <==> r.status == -1) &&
              // The codecs are chosen exactly when the greeting is decided.
              (r.status == 1 ==> fresh(decoder) && Chosen(encodeLeft, ok, old(inbuf), old(subscriptionRequired))) &&
              (r.status != 1 ==> !ok && handshaking && decoder == old(decoder) &&
                                 inbuf == old(inbuf) && subscriptionRequired == old(subscriptionRequired))
      ensures ok ==> !torn && plugged
      // The revision and type go out at most once.
      ensures outLimit == old(outLimit) ==> greetingOut[..] == old(greetingOut[..]) && outsize == old(outsize)
      ensures outLimit != old(outLimit) ==>
                outLimit == GREETING_SIZE &&
                greetingOut[..] == old(greetingOut[..10]) + Tail(options.socketType) &&
                outsize == old(outsize) + 2
    {
      ghost var g0 := greeting[..greetingPos];
      var status := AwaitGreeting();
      ReadGreetingDecides(g0, old(incoming), peerClosed, old(outLimit) == GREETING_SIZE);
      ok := Conclude(status, encodeLeft);
    }

    /** What `handshake()` does after its read loop: tear down on a closed
        socket, wait for more on a short greeting, pick the codecs once the
        greeting is decided. */
    method Conclude(status: int, encodeLeft: nat) returns (ok: bool)
      requires greeting != greetingOut && greeting.Length == GREETING_SIZE && greetingOut.Length == GREETING_SIZE
      requires Frame() && Bounds() && handshaking && !torn && plugged
      requires decoder != null ==> Remaining(decoder.Model()) > 0 && (decoder.zeroCopy ==> |inbuf| <= Remaining(decoder.Model()))
      requires status == 1 ==> Decided(greeting[..greetingPos])
      modifies this`decoder, this`encoderRevision, this`inbuf, this`subscriptionRequired,
               this`handshaking, this`torn, this`plugged, this`Repr
      ensures Valid() && fresh(Repr - old(Repr))
      ensures torn <==> status == -1
      ensures status == 1 ==> fresh(decoder) && Chosen(encodeLeft, ok, old(inbuf), old(subscriptionRequired))
      ensures status != 1 ==> !ok && handshaking && decoder == old(decoder) &&
                              inbuf == old(inbuf) && subscriptionRequired == old(subscriptionRequired)
      ensures ok ==> !torn && plugged
    {
      if status == -1 {
        Error();
        return false;
      }
      if status != 1 {
        return false;
      }
      ok := Choose(encodeLeft);
    }

    /** The read loop of `handshake()`, proved against `ReadGreeting`. */
    method AwaitGreeting() returns (status: int)
      requires greeting.Length == GREETING_SIZE && greetingOut.Length == GREETING_SIZE
      requires greeting != greetingOut && Bounds()
      modifies greeting, greetingOut, this`greetingPos, this`incoming, this`outLimit, this`outsize
      ensures Bounds()
      ensures var r := ReadGreeting(old(greeting[..greetingPos]), old(incoming), peerClosed, old(outLimit) == GREETING_SIZE);
              status == r.status && greeting[..greetingPos] == r.greeting && incoming == r.chunks &&
              (outLimit == GREETING_SIZE) == r.tailSent
      ensures outLimit == old(outLimit) ==> greetingOut[..] == old(greetingOut[..]) && outsize == old(outsize)
      ensures outLimit != old(outLimit) ==>
                outLimit == GREETING_SIZE &&
                greetingOut[..] == old(greetingOut[..10]) + Tail(options.socketType) &&
                outsize == old(outsize) + 2
    {
      ghost var r0 := ReadGreeting(greeting[..greetingPos], incoming, peerClosed, outLimit == GREETING_SIZE);
      ghost var out0 := greetingOut[..];
      while greetingPos < GREETING_SIZE
        invariant Bounds()
        invariant ReadGreeting(greeting[..greetingPos], incoming, peerClosed, outLimit == GREETING_SIZE) == r0
        invariant outLimit == old(outLimit) ==> greetingOut[..] == out0 && outsize == old(outsize)
        invariant outLimit != old(outLimit) ==>
                    outLimit == GREETING_SIZE &&
                    greetingOut[..] == out0[..10] + Tail(options.socketType) &&
                    outsize == old(outsize) + 2
        decreases GREETING_SIZE - greetingPos
      {
        var stop;
        stop, status := GreetingRound();
        if stop {
          return;
        }
      }
      status := 1;
    }

    /** One turn of the read loop of `handshake()`: read, then decide whether
        the loop stops (with the status `handshake` acts on) or goes on. */
    method GreetingRound() returns (stop: bool, status: int)
      requires greeting.Length == GREETING_SIZE && greetingOut.Length == GREETING_SIZE
      requires greeting != greetingOut && Bounds() && greetingPos < GREETING_SIZE
      modifies greeting, greetingOut, this`greetingPos, this`incoming, this`outLimit, this`outsize
      ensures Bounds() && (stop || greetingPos > old(greetingPos))
      ensures var tail := outLimit == GREETING_SIZE;
              ReadGreeting(old(greeting[..greetingPos]), old(incoming), peerClosed, old(outLimit) == GREETING_SIZE) ==
                if stop then GreetingRead(status, greeting[..greetingPos], incoming, tail)
                else ReadGreeting(greeting[..greetingPos], incoming, peerClosed, tail)
      ensures outLimit == old(outLimit) ==> greetingOut[..] == old(greetingOut[..]) && outsize == old(outsize)
      ensures outLimit != old(outLimit) ==>
                old(outLimit) < GREETING_SIZE && outLimit == GREETING_SIZE &&
                greetingOut[..] == old(greetingOut[..10]) + Tail(options.socketType) &&
                outsize == old(outsize) + 2
    {
      var r := SocketRead(incoming, peerClosed, GREETING_SIZE - greetingPos);
      incoming := r.2;
      if r.0 == -1 {
        return true, -1;
      }
      if r.0 == 0 {
        return true, 0;
      }
      ReceiveGreeting(r.1);
      if greeting[0] != 0xFF {
        return true, 1;
      }
      if greetingPos < 10 {
        return false, 0;
      }
      if !HasFlag(greeting[9], 1) {
        return true, 1;
      }
      SendTail();
      stop, status := false, 0;
    }

    /** The own revision and type go into the outgoing greeting, once. */
    method SendTail()
      requires greetingOut.Length == GREETING_SIZE && Bounds()
      modifies greetingOut, this`outLimit, this`outsize
      ensures Bounds() && outLimit == GREETING_SIZE
      ensures old(outLimit) == GREETING_SIZE ==> greetingOut[..] == old(greetingOut[..]) && outsize == old(outsize)
      ensures old(outLimit) < GREETING_SIZE ==>
                greetingOut[..] == old(greetingOut[..10]) + Tail(options.socketType) &&
                outsize == old(outsize) + 2
    {
      if outLimit < GREETING_SIZE {
        greetingOut[VERSION_POS] := 1;
        greetingOut[VERSION_POS + 1] := TypeByte(options.socketType);
        outLimit := GREETING_SIZE;
        outsize := outsize + 2;
        assert greetingOut[..] == old(greetingOut[..10]) + Tail(options.socketType);
      }
    }

    /** The bytes of one read go into the greeting. */
    method ReceiveGreeting(data: seq<byte>)
      requires greeting.Length == GREETING_SIZE && greetingPos + |data| <= GREETING_SIZE
      modifies greeting, this`greetingPos
      ensures greetingPos == old(greetingPos) + |data|
      ensures greeting[..greetingPos] == old(greeting[..greetingPos]) + data
    {
      forall i | 0 <= i < |data| {
        greeting[greetingPos + i] := data[i];
      }
      greetingPos := greetingPos + |data|;
    }

    /** The codecs picked for the greeting received: both of the framing
        `PeerRevision` names, the decoder fresh; the handshake is over unless
        a versionless peer's header size does not match (`ok` false); a
        versionless peer's bytes become decoder input, and a publisher owes
        it a phony subscription. `inbuf0` and `sub0` are the input and the
        subscription flag before. */
    ghost predicate Chosen(encodeLeft: nat, ok: bool, inbuf0: seq<byte>, sub0: bool)
      reads this, greeting, decoder
      reads if decoder == null then {} else {decoder.tmpbuf, decoder.inProgress}
    {
      greetingPos <= greeting.Length &&
      var g := greeting[..greetingPos];
      decoder != null && Decided(g) &&
      decoder.revision == PeerRevision(g) && decoder.Model() == Fresh(decoder.revision) &&
      !decoder.zeroCopy && encoderRevision == Some(decoder.revision) &&
      (ok <==> !Versionless(g) || encodeLeft == HeaderSize(|options.identity|)) &&
      handshaking == !ok &&
      if ok && Versionless(g) then
        inbuf == g && subscriptionRequired == (sub0 || Subscribes(options.socketType))
      else
        inbuf == inbuf0 && subscriptionRequired == sub0
    }

    /** The end of `handshake()`: the codecs for a decided greeting. */
    method Choose(encodeLeft: nat) returns (ok: bool)
      requires greeting != greetingOut && greeting.Length == GREETING_SIZE && greetingOut.Length == GREETING_SIZE
      requires |options.identity| < INT32_MAX && Bounds()
      requires handshaking && !torn && Decided(greeting[..greetingPos])
      modifies this`decoder, this`encoderRevision, this`inbuf, this`subscriptionRequired,
               this`handshaking, this`Repr
      ensures Valid() && fresh(Repr - old(Repr)) && fresh(decoder)
      ensures Chosen(encodeLeft, ok, old(inbuf), old(subscriptionRequired))
    {
      var g := greeting[..greetingPos];
      var rev := PeerRevision(g);
      encoderRevision := Some(rev);
      decoder := new Decoder(rev, inBatchSize, options.maxMsgSize);
      Repr := decoder.Repr;
      if Versionless(g) {
        if encodeLeft != HeaderSize(|options.identity|) {
          return false;
        }
        inbuf := g;
        if options.socketType == ZMQ_PUB || options.socketType == ZMQ_XPUB {
          subscriptionRequired := true;
        }
      }
      handshaking := false;
      ok := true;
    }

    /** `readMsg()`. */
    method ReadMsg() returns (m: Option<Msg>)
      modifies this`identitySent, this`txInitialized, this`session
      ensures (m, Tx(), session) == ReadMsgStep(old(Tx()), options, old(session))
    {
      if txInitialized || options.custom {
        var p := SessionPull(session);
        m, session := p.0, p.1;
        return;
      }
      if !identitySent {
        m := Some(IdentityMsg(options.identity));
        identitySent := true;
        txInitialized := true;
        return;
      }
      txInitialized := true;
      m := None;
    }

    /** `writeMsg(msg)`. */
    method WriteMsg(m: Msg) returns (rc: int)
      modifies this`identityReceived, this`rxInitialized, this`subscriptionRequired, this`session
      ensures (rc, Rx(), session) == WriteMsgStep(old(Rx()), options, m, old(session))
    {
      if rxInitialized || options.custom {
        var p := SessionPush(session, m);
        rc, session := p.0, p.1;
        return;
      }
      if !identityReceived {
        if options.recvIdentity {
          var p := SessionPush(session, m.(identity := true));
          session := p.1;
          if p.0 == -1 {
            return -1;
          }
        }
        identityReceived := true;
      }
      if subscriptionRequired {
        var p := SessionPush(session, SubscriptionMsg());
        session := p.1;
        if p.0 == -1 {
          return -1;
        }
        subscriptionRequired := false;
      }
      rxInitialized := true;
      rc := 0;
    }

    /** One `decoder.decode(inbuf, insize, processed)` and `insize -= processed`. */
    method DecodeInput() returns (rc: int)
      requires Fits() && decoder != null && Remaining(decoder.Model()) > 0
      modifies Repr, this`inbuf, this`Repr
      ensures Fits() && fresh(Repr - old(Repr)) && decoder == old(decoder)
      ensures decoder.zeroCopy == old(decoder.zeroCopy) && (decoder.zeroCopy ==> inbuf == [])
      ensures var d := Run(Machine(decoder.revision, decoder.maxmsgsize), old(decoder.Model()), old(inbuf), 0);
              d.consumed <= |old(inbuf)| &&
              d == RunResult(d.consumed, rc, decoder.Model()) && inbuf == old(inbuf)[d.consumed..]
    {
      ghost var v := decoder.Model();
      var ret, processed, drc := decoder.Decode(inbuf);
      Repr := decoder.Repr;
      if decoder.zeroCopy {
        ZeroCopyMatchesCopy(decoder.next, v, inbuf);
      }
      inbuf := inbuf[processed..];
      rc := drc;
    }

    /** One turn of the loop of `inEvent`: decode, and hand a complete
        message to `writeMsg`. `stop` says the loop ends here. */
    method Turn(ghost p: PumpResult, ghost rc0: int) returns (rc: int, stop: bool)
      requires Fits() && decoder != null && Remaining(decoder.Model()) > 0 && inbuf != []
      requires p == Pump(decoder.revision, options.maxMsgSize, decoder.Model(), inbuf, Rx(), options, session, rc0)
      modifies Repr, this`inbuf, this`identityReceived, this`rxInitialized,
               this`subscriptionRequired, this`session, this`Repr
      ensures Fits() && fresh(Repr - old(Repr)) && decoder == old(decoder)
      ensures |inbuf| < old(|inbuf|)
      ensures !stop ==>
                Remaining(decoder.Model()) > 0 &&
                p == Pump(decoder.revision, options.maxMsgSize, decoder.Model(), inbuf, Rx(), options, session, rc)
      ensures stop ==>
                (rc != -1 ==> Remaining(decoder.Model()) > 0) &&
                p == PumpResult(rc, decoder.Model(), inbuf, Rx(), session)
    {
      ghost var v, in0, rx0, s0 := decoder.Model(), inbuf, Rx(), session;
      rc := DecodeInput();
      PumpStep(decoder.revision, options.maxMsgSize, v, in0, rx0, options, s0, rc0,
               |in0| - |inbuf|, rc, decoder.Model());
      if rc != 1 {
        stop := true;
        return;
      }
      rc := WriteMsg(decoder.Msg());
      stop := rc == -1 || rc == EAGAIN;
    }

    /** `while (insize > 0)` of `inEvent`. */
    method Drain() returns (rc: int)
      requires Valid() && decoder != null && !torn
      modifies Repr, this`inbuf, this`identityReceived, this`rxInitialized,
               this`subscriptionRequired, this`session, this`Repr
      ensures Fits() && fresh(Repr - old(Repr)) && decoder == old(decoder)
      ensures rc != -1 ==> Remaining(decoder.Model()) > 0
      ensures old(Pump(decoder.revision, options.maxMsgSize, decoder.Model(), inbuf, Rx(), options, session, 0)) ==
              PumpResult(rc, decoder.Model(), inbuf, Rx(), session)
    {
      ghost var p := Pump(decoder.revision, options.maxMsgSize, decoder.Model(), inbuf, Rx(), options, session, 0);
      rc := 0;
      while inbuf != []
        invariant Fits() && decoder == old(decoder) && Remaining(decoder.Model()) > 0
        invariant fresh(Repr - old(Repr))
        invariant p == Pump(decoder.revision, options.maxMsgSize, decoder.Model(), inbuf, Rx(), options, session, rc)
        decreases |inbuf|
      {
        var stop;
        rc, stop := Turn(p, rc);
        if stop {
          return;
        }
      }
    }

    /** The loop of `inEvent` and what follows it: tear down on -1, mark the
        engine congested on `EAGAIN`. */
    method DecodeLoop() returns (rc: int)
      requires Valid() && decoder != null && !torn
      modifies Repr, this`inbuf, this`identityReceived, this`rxInitialized,
               this`subscriptionRequired, this`session, this`torn, this`plugged, this`congested, this`Repr
      ensures Valid() && fresh(Repr - old(Repr)) && decoder == old(decoder)
      ensures var p := Pump(decoder.revision, options.maxMsgSize, old(decoder.Model()), old(inbuf),
                            old(Rx()), options, old(session), 0);
              rc == p.rc && decoder.Model() == p.view && inbuf == p.rest && Rx() == p.rx && session == p.session
      ensures torn <==> rc == -1
      ensures congested <==> old(congested) || rc == EAGAIN
      ensures !torn && !congested ==> inbuf == []
    {
      rc := Drain();
      if rc == -1 {
        Error();
      } else if rc == EAGAIN {
        congested := true;
      }
    }
  }
}
