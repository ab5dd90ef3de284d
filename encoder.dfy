/** The ZMTP/2.0 frame encoder `V2Encoder`: a flags byte, a one- or
    eight-byte length, then the body. `EncoderBase`, which drives the encoder
    and writes out what each step schedules, is not part of this model; the
    bytes a step hands to it are the `pending` field.

    The second half proves that a ZMTP/2.0 decoder reads an encoded frame
    back: same size, same MORE flag, same bytes, and it stops right after it. */
module Encoding {
  import opened Wire
  import opened Handlers
  import opened Decoding

  /** The two states of `V2Encoder`. */
  datatype EState = SizeReady | MessageReady

  /** The flags byte of `messageReady`: MORE when more parts follow, LARGE
      when the size needs the eight-byte length. */
  function HeaderFlags(more: bool, size: nat): (f: byte)
    ensures HasFlag(f, MORE_FLAG) <==> more
    ensures HasFlag(f, LARGE_FLAG) <==> size > 255
  {
    (if more then MORE_FLAG else 0) + (if size > 255 then LARGE_FLAG else 0)
  }

  /** The header `messageReady` writes for a message of `size` bytes: two
      bytes up to 255, otherwise the flags and an eight-byte big-endian size. */
  function V2Header(size: nat, more: bool): (h: seq<byte>)
    requires size <= INT32_MAX
    ensures |h| == if size > 255 then 9 else 2
    ensures h[0] == HeaderFlags(more, size)
    ensures size <= 255 ==> h[1] as int == size
    ensures size > 255 ==> BeUint(h[1..]) == size
  {
    if size > 255 then
      PutLongGetLong(size);
      [HeaderFlags(more, size)] + PutLong(size)
    else
      [HeaderFlags(more, size), size as byte]
  }

  /** A whole frame on the wire: the header, then the body. */
  function Frame(m: Msg): seq<byte>
    requires |m.data| <= INT32_MAX
  {
    V2Header(|m.data|, m.more) + m.data
  }

  /** The encoder as a value: its state, the message in progress, the bytes
      the last step scheduled, and `newMsg`, whether the encoder takes a new
      message once those bytes are written. */
  datatype EView = EView(state: EState, msg: Msg, pending: seq<byte>, newMsg: bool)

  /** One call of `next()` with the dispatch the two handlers call for: the
      header from `MESSAGE_READY`, the body from `SIZE_READY`. */
  function EncoderStep(e: EView): (r: EView)
    requires |e.msg.data| <= INT32_MAX
    // One handler per call: the two states alternate on the same message.
    ensures r.msg == e.msg && r.state != e.state
    // The body is the last step of a frame: once it is written a new
    // message is taken, and after the header it is not.
    ensures r.newMsg <==> r.state == EState.MessageReady
  {
    match e.state
    case MessageReady =>
      e.(pending := V2Header(|e.msg.data|, e.msg.more), state := EState.SizeReady, newMsg := false)
    case SizeReady =>
      e.(pending := e.msg.data, state := EState.MessageReady, newMsg := true)
  }

  /** `next()` as written: the `switch` has no `break`, so `SIZE_READY` runs
      `sizeReady` and then `messageReady`, and both cases end in `assert
      false` (a no-op unless assertions are enabled). */
  function EncoderStepAsWritten(e: EView): (r: EView)
    requires |e.msg.data| <= INT32_MAX
  {
    match e.state
    case MessageReady =>
      e.(pending := V2Header(|e.msg.data|, e.msg.more), state := EState.SizeReady, newMsg := false)
    case SizeReady =>
      var s := e.(pending := e.msg.data, state := EState.MessageReady, newMsg := true);
      s.(pending := V2Header(|s.msg.data|, s.msg.more), state := EState.SizeReady, newMsg := false)
  }

  /** Two steps from `MESSAGE_READY` emit exactly one frame, the header marked
      without the new-message mark and the body with it, and leave
      the encoder ready for the next message. */
  lemma EncoderCycle(e: EView)
    requires e.state == EState.MessageReady && |e.msg.data| <= INT32_MAX
    ensures var e1 := EncoderStep(e);
            var e2 := EncoderStep(e1);
            e1.pending + e2.pending == Frame(e.msg) &&
            !e1.newMsg && e2.newMsg &&
            e2.state == EState.MessageReady && e2.msg == e.msg
  {
  }

  /** As written, every call ends with a header pending and the encoder in
      `SIZE_READY`: the body is never scheduled. */
  lemma AsWrittenNeverSchedulesBody(e: EView)
    requires |e.msg.data| <= INT32_MAX
    ensures var r := EncoderStepAsWritten(e);
            r.state == EState.SizeReady && r.msg == e.msg &&
            r.pending == V2Header(|e.msg.data|, e.msg.more)
  {
  }

  /** A one-byte message shows it: two steps as written emit the header
      twice and not the frame. */
  lemma AsWrittenLosesBody()
    ensures var e := EView(EState.MessageReady, Msg([7], false, false), [], true);
            var e1 := EncoderStepAsWritten(e);
            var e2 := EncoderStepAsWritten(e1);
            e1.pending + e2.pending == [0, 1, 0, 1] &&
            Frame(e.msg) == [0, 1, 7]
  {
    var m := Msg([7], false, false);
    assert V2Header(1, false) == [0, 1];
  }

  /** `V2Encoder`. `tmpbuf` is the nine-byte header buffer and `limit` the
      limit of `tmpbufWrap`. `inProgress` is the message `EncoderBase` is
      encoding; `pending` and `newMsg` are what the last `nextStep`
      handed to it. */
  class V2Encoder {
    const bufsize: nat
    const tmpbuf: array<byte>
    var limit: nat
    var state: EState
    var inProgress: Msg
    var pending: seq<byte>
    var newMsg: bool

    ghost predicate Valid()
      reads this
    {
      tmpbuf.Length == 9 && limit <= 9
    }

    function Model(): EView
      reads this
    {
      EView(state, inProgress, pending, newMsg)
    }

    /** `V2Encoder(bufsize)`: `nextStep(null, 0, MESSAGE_READY, true)`, so
        nothing is pending and the first step builds a header. */
    constructor(bufsize: nat)
      ensures Valid() && fresh(tmpbuf)
      ensures state == EState.MessageReady && pending == [] && newMsg
      ensures this.bufsize == bufsize
    {
      this.bufsize := bufsize;
      tmpbuf := new byte[9](_ => 0);
      limit := 9;
      state := EState.MessageReady;
      inProgress := Msg([], false, false);
      pending := [];
      newMsg := true;
    }

    /** The message `EncoderBase` hands over before stepping. */
    method Load(m: Msg)
      modifies this
      ensures inProgress == m
      ensures state == old(state) && pending == old(pending) && newMsg == old(newMsg)
      ensures limit == old(limit)
    {
      inProgress := m;
    }

    /** `sizeReady`: the message's own bytes are the next thing to write,
        the last step of the frame, so a new message is taken after them. */
    method SizeReady()
      requires Valid()
      modifies this
      ensures Valid() && limit == old(limit)
      ensures Model() == old(Model()).(pending := inProgress.data, state := EState.MessageReady, newMsg := true)
    {
      pending := inProgress.data;
      state := EState.MessageReady;
      newMsg := true;
    }

    /** `messageReady`: build the header in `tmpbuf` and schedule its first
        `limit` bytes. */
    method MessageReady()
      requires Valid() && |inProgress.data| <= INT32_MAX
      modifies this, tmpbuf
      ensures Valid()
      ensures Model() == old(Model()).(pending := V2Header(|old(inProgress).data|, old(inProgress).more),
                                       state := EState.SizeReady, newMsg := false)
      ensures tmpbuf[..limit] == pending
    {
      var protocolFlags: byte := 0;
      if inProgress.more {
        protocolFlags := protocolFlags + MORE_FLAG;
      }
      if |inProgress.data| > 255 {
        protocolFlags := protocolFlags + LARGE_FLAG;
      }
      tmpbuf[0] := protocolFlags;
      var size := |inProgress.data|;
      if size > 255 {
        limit := 9;
        var long := PutLong(size);
        forall i | 0 <= i < 8 {
          tmpbuf[1 + i] := long[i];
        }
        assert tmpbuf[..9] == [protocolFlags] + long;
      } else {
        limit := 2;
        tmpbuf[1] := size as byte;
        assert tmpbuf[..2] == [protocolFlags, size as byte];
      }
      pending := tmpbuf[..limit];
      state := EState.SizeReady;
      newMsg := false;
    }

    /** `next()`, dispatching to one handler per call. */
    method Next()
      requires Valid() && |inProgress.data| <= INT32_MAX
      modifies this, tmpbuf
      ensures Valid()
      ensures Model() == EncoderStep(old(Model()))
    {
      match state
      case SizeReady => SizeReady();
      case MessageReady => MessageReady();
    }

    /** `next()` as written, with assertions disabled: `SIZE_READY` falls
        through into `messageReady`. */
    method NextAsWritten()
      requires Valid() && |inProgress.data| <= INT32_MAX
      modifies this, tmpbuf
      ensures Valid()
      ensures Model() == EncoderStepAsWritten(old(Model()))
    {
      if state == EState.SizeReady {
        SizeReady();
      }
      MessageReady();
    }
  }

  /** The first round of a ZMTP/2.0 decode: the flags byte goes into
      `tmpbuf[0]`. */
  lemma ReadFlagsByte(maxmsgsize: int, v: View, input: seq<byte>) returns (w: View)
    requires AwaitingFrame(V2, v) && |input| > 0
    ensures Wf(w) && w.state == FlagsReady && w.target == Tmp && w.tmpPos == 1 && w.tmpLimit == 1
    ensures w.tmp[0] == input[0] && w.errno == v.errno
    ensures Run(Machine(V2, maxmsgsize), v, input, 0) == Run(Machine(V2, maxmsgsize), w, input, 1)
  {
    var next := Machine(V2, maxmsgsize);
    assert Settle(next, v) == (0, v);
    w := Fill(v, input, 0, 1);
    RunStep(next, v, v, input, 0, 1, 1);
  }

  /** The flags handler picks a one- or eight-byte length from the LARGE bit,
      and the next round reads it into `tmpbuf`. */
  lemma ReadLength(maxmsgsize: int, w: View, input: seq<byte>, k: nat) returns (x: View)
    requires Wf(w) && w.state == FlagsReady && w.target == Tmp && w.tmpPos == 1 && w.tmpLimit == 1
    requires |input| > 0 && w.tmp[0] == input[0]
    requires k == (if HasFlag(input[0], LARGE_FLAG) then 8 else 1) && |input| >= 1 + k
    ensures Wf(x) && x.target == Tmp && x.tmpPos == k && x.tmpLimit == k
    ensures x.state == if k == 8 then EightByteSizeReady else OneByteSizeReady
    ensures x.tmp[..k] == input[1..1 + k] && x.msgFlags == HasFlag(input[0], MORE_FLAG)
    ensures x.errno == w.errno
    ensures Run(Machine(V2, maxmsgsize), w, input, 1) == Run(Machine(V2, maxmsgsize), x, input, 1 + k)
  {
    var next := Machine(V2, maxmsgsize);
    var (more, st, toRead) := V2Flags(w.tmp[0]);
    var u := w.(msgFlags := more, tmpPos := 0, tmpLimit := toRead, target := Tmp, state := st);
    assert next(w) == (0, u);
    assert Settle(next, u) == (0, u);
    assert Settle(next, w) == (0, u);
    x := Fill(u, input, 1, k);
    RunStep(next, w, u, input, 1, k, 1 + k);
    SpliceIs(u.tmp, 0, input, 1, k);
  }

  /** The state a length handler leaves after accepting `size`: a zeroed
      body of that size, to be read into the message. */
  ghost predicate BodyAwaited(y: View, size: nat) {
    Wf(y) && y.state == DState.MessageReady && y.target == Body && y.body == Zeros(size) && y.bodyPos == 0
  }

  /** The length handler accepts `size` and, after `size` more bytes, the
      message handler reports a complete message. */
  lemma ReadBody(maxmsgsize: int, x: View, y: View, input: seq<byte>, q: nat)
    requires Wf(x) && Remaining(x) == 0 && q <= |input|
    requires Step(V2, maxmsgsize, x) == (0, y) && BodyAwaited(y, |input| - q)
    ensures var r := Run(Machine(V2, maxmsgsize), x, input, q);
            r.consumed == |input| && r.rc == 1 && AwaitingFrame(V2, r.view) &&
            r.view.body == input[q..] && r.view.more == y.more && r.view.errno == y.errno
  {
    var next := Machine(V2, maxmsgsize);
    var size := |input| - q;
    assert next(x) == (0, y);
    if size == 0 {
      var z := y.(tmpPos := 0, tmpLimit := 1, target := Tmp, state := FlagsReady);
      assert next(y) == (1, z);
      assert Settle(next, x) == (1, z);
      RunHalt(next, x, input, q);
      assert input[q..] == [] == Zeros(0);
    } else {
      assert Settle(next, y) == (0, y);
      assert Settle(next, x) == (0, y);
      RunStep(next, x, y, input, q, size, |input|);
      var f := Fill(y, input, q, size);
      SpliceIs(y.body, 0, input, q, size);
      var z := f.(tmpPos := 0, tmpLimit := 1, target := Tmp, state := FlagsReady);
      assert next(f) == (1, z);
      RunHalt(next, f, input, |input|);
    }
  }

  /** What the length handler makes of an encoded length. */
  lemma AcceptEncodedLength(maxmsgsize: int, x: View, m: Msg, k: nat) returns (y: View)
    requires |m.data| <= INT32_MAX && (maxmsgsize < 0 || |m.data| <= maxmsgsize)
    requires k + 1 == |V2Header(|m.data|, m.more)|
    requires Wf(x) && x.target == Tmp && x.tmpPos == k && x.tmpLimit == k
    requires x.state == if k == 8 then EightByteSizeReady else OneByteSizeReady
    requires x.tmp[..k] == V2Header(|m.data|, m.more)[1..]
    ensures Step(V2, maxmsgsize, x) == (0, y) && BodyAwaited(y, |m.data|)
    ensures y.more == x.msgFlags && y.errno == x.errno
  {
    var size := |m.data|;
    var h := V2Header(size, m.more);
    if k == 8 {
      assert x.tmp == x.tmp[..8];
      assert V2Length8(x.tmp, maxmsgsize) == Accept(size);
      y := WithBody(x.(tmpPos := 0, tmpLimit := 8), size).(more := x.msgFlags, target := Body, state := DState.MessageReady);
    } else {
      assert x.tmp[0] == x.tmp[..1][0] == h[1];
      assert V2LengthByte(x.tmp[0], maxmsgsize) == Accept(size);
      y := WithBody(x, size).(more := x.msgFlags, target := Body, state := DState.MessageReady);
    }
  }

  /** Round trip: a ZMTP/2.0 decoder waiting for a frame reads an encoded
      message back whole, with its size, MORE flag and bytes, and reports
      it, provided the size is within `maxmsgsize`. */
  lemma DecodeFrame(maxmsgsize: int, v: View, m: Msg)
    requires AwaitingFrame(V2, v)
    requires |m.data| <= INT32_MAX && (maxmsgsize < 0 || |m.data| <= maxmsgsize)
    ensures var r := Run(Machine(V2, maxmsgsize), v, Frame(m), 0);
            r.consumed == |Frame(m)| && r.rc == 1 && AwaitingFrame(V2, r.view) &&
            r.view.body == m.data && r.view.more == m.more && r.view.errno == v.errno
  {
    var size := |m.data|;
    var h := V2Header(size, m.more);
    var input := Frame(m);
    var k := |h| - 1;
    var w := ReadFlagsByte(maxmsgsize, v, input);
    assert input[0] == h[0];
    var x := ReadLength(maxmsgsize, w, input, k);
    assert input[1..1 + k] == h[1..];
    var y := AcceptEncodedLength(maxmsgsize, x, m, k);
    ReadBody(maxmsgsize, x, y, input, 1 + k);
    assert input[1 + k..] == m.data;
  }

  /** The decoder stops right after an encoded frame, whatever follows it
      in the same input. */
  lemma DecodeFrameThenRest(maxmsgsize: int, v: View, m: Msg, rest: seq<byte>)
    requires AwaitingFrame(V2, v)
    requires |m.data| <= INT32_MAX && (maxmsgsize < 0 || |m.data| <= maxmsgsize)
    ensures var r := Run(Machine(V2, maxmsgsize), v, Frame(m) + rest, 0);
            r.consumed == |Frame(m)| && r.rc == 1 && AwaitingFrame(V2, r.view) &&
            r.view.body == m.data && r.view.more == m.more
  {
    DecodeFrame(maxmsgsize, v, m);
    RunAppend(Machine(V2, maxmsgsize), v, Frame(m), rest, 0);
  }
}
