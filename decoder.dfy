/** The frame decoders: `DecoderBase` (the driver that copies input into the
    current target and runs the state machine when the target is full) with
    the two state machines of `V1Decoder` (ZMTP/1.0 framing) and `V2Decoder`
    (ZMTP/2.0 framing). Dafny has no subclassing here, so one class carries
    the fields of the base class and of both subclasses and dispatches on
    `revision`.

    The first half is a value-level specification: `View` is everything the
    decoder holds, `Step` is one call of the subclass's `next()` (a `NextFn`
    is any function that behaves like one), `Settle`
    is the inner "run `next()` while the target is full" loop, and `Run` is
    the copying `decode`. The class's methods are proved against it. */
module Decoding {
  import opened Wire
  import opened Handlers

  datatype Revision = V1 | V2

  /** Which buffer `readBuf` currently refers to: the 8-byte header buffer
      `tmpbuf` (through `tmpbufWrap`) or the body of the message in progress. */
  datatype Target = Tmp | Body

  /** The decoder's state as a value. `tmpPos`/`tmpLimit` are the position
      and limit of `tmpbufWrap`; `bodyPos` the position within the body;
      `more` is the MORE flag of the message in progress; `msgFlags` the
      flags remembered by the ZMTP/2.0 flags handler. */
  datatype View = View(
    state: DState,
    target: Target,
    tmp: seq<byte>,
    tmpPos: nat,
    tmpLimit: nat,
    body: seq<byte>,
    bodyPos: nat,
    more: bool,
    msgFlags: bool,
    errno: ErrNo)

  ghost predicate Wf(v: View) {
    |v.tmp| == 8 && v.tmpPos <= v.tmpLimit <= 8 && v.bodyPos <= |v.body|
  }

  /** `readBuf.remaining()`. */
  function Remaining(v: View): nat
    requires Wf(v)
  {
    if v.target == Tmp then v.tmpLimit - v.tmpPos else |v.body| - v.bodyPos
  }

  /** A freshly allocated body: `MsgAllocatorHeap` hands out zeroed buffers. */
  function Zeros(n: nat): (r: seq<byte>)
    ensures |r| == n
  {
    seq(n, _ => 0)
  }

  /** A decoder waiting for the first byte of a frame: one byte into `tmpbuf[0]`,
      in the state that starts a frame of its revision. */
  ghost predicate AwaitingFrame(rev: Revision, v: View) {
    Wf(v) && v.target == Tmp && v.tmpPos == 0 && v.tmpLimit == 1 &&
    v.state == (if rev == V1 then OneByteSizeReady else FlagsReady)
  }

  /** The state the constructors leave behind. */
  function Fresh(rev: Revision): (v: View)
    ensures AwaitingFrame(rev, v) && v.errno == NoError
  {
    View(if rev == V1 then OneByteSizeReady else FlagsReady, Tmp, Zeros(8), 0, 1,
         [], 0, false, false, NoError)
  }

  /** A newly allocated message in progress of `n` bytes, with no flags yet. */
  function WithBody(v: View, n: nat): View {
    v.(body := Zeros(n), bodyPos := 0, more := false)
  }

  /** One call of `V1Decoder.next()`: the return code and the new state. */
  function V1Next(maxmsgsize: int, v: View): (r: (int, View))
    requires Wf(v)
    ensures Wf(r.1)
    ensures r.0 == 1 <==> v.state == MessageReady
    ensures r.0 == 1 ==> AwaitingFrame(V1, r.1) && r.1.body == v.body && r.1.more == v.more
    ensures r.0 == -1 ==> r.1.errno != NoError && r.1.state == v.state && r.1.body == v.body
    ensures r.0 == 0 ==> Remaining(r.1) > 0 || (r.1.state == MessageReady && r.1.target == Body)
    ensures r.0 == 0 ==> r.1.errno == v.errno
  {
    match v.state
    case OneByteSizeReady =>
      var v0 := v.(tmpPos := 0);
      (match V1LengthByte(v.tmp[0], maxmsgsize)
       case Escape => (0, v0.(tmpLimit := 8, target := Tmp, state := EightByteSizeReady))
       case Length(Refuse(e)) => (-1, v0.(errno := e))
       case Length(Accept(n)) =>
         (0, WithBody(v0, n).(tmpLimit := 1, target := Tmp, state := FlagsReady)))
    case EightByteSizeReady =>
      var v0 := v.(tmpPos := 0, tmpLimit := 8);
      (match V1Length8(v.tmp, maxmsgsize)
       case Refuse(e) => (-1, v0.(errno := e))
       case Accept(n) => (0, WithBody(v0, n).(tmpLimit := 1, target := Tmp, state := FlagsReady)))
    case FlagsReady =>
      (0, v.(more := V1FlagsMore(v.tmp[0]), target := Body, state := MessageReady))
    case MessageReady =>
      (1, v.(tmpPos := 0, tmpLimit := 1, target := Tmp, state := OneByteSizeReady))
  }

  /** One call of `V2Decoder.next()`, with the 8-byte length read unsigned
      (see `V2Length8`). On a refused one-byte length the source does not
      rewind `tmpbufWrap`, so the decoder stays stuck on that byte. */
  function V2Next(maxmsgsize: int, v: View): (r: (int, View))
    requires Wf(v)
    ensures Wf(r.1)
    ensures r.0 == 1 <==> v.state == MessageReady
    ensures r.0 == 1 ==> AwaitingFrame(V2, r.1) && r.1.body == v.body && r.1.more == v.more
    ensures r.0 == -1 ==> r.1.errno != NoError && r.1.state == v.state && r.1.body == v.body
    ensures r.0 == 0 ==> Remaining(r.1) > 0 || (r.1.state == MessageReady && r.1.target == Body)
    ensures r.0 == 0 ==> r.1.errno == v.errno
  {
    match v.state
    case FlagsReady =>
      var (more, next, toRead) := V2Flags(v.tmp[0]);
      (0, v.(msgFlags := more, tmpPos := 0, tmpLimit := toRead, target := Tmp, state := next))
    case OneByteSizeReady =>
      (match V2LengthByte(v.tmp[0], maxmsgsize)
       case Refuse(e) => (-1, v.(errno := e))
       case Accept(n) =>
         (0, WithBody(v, n).(more := v.msgFlags, target := Body, state := MessageReady)))
    case EightByteSizeReady =>
      var v0 := v.(tmpPos := 0, tmpLimit := 8);
      (match V2Length8(v.tmp, maxmsgsize)
       case Refuse(e) => (-1, v0.(errno := e))
       case Accept(n) =>
         (0, WithBody(v0, n).(more := v.msgFlags, target := Body, state := MessageReady)))
    case MessageReady =>
      (1, v.(tmpPos := 0, tmpLimit := 1, target := Tmp, state := FlagsReady))
  }

  /** `next()`: returns 1 when a message is complete, -1 on a protocol or size
      error (with `errno` set), 0 when it has set up the next target. */
  function Step(rev: Revision, maxmsgsize: int, v: View): (r: (int, View))
    requires Wf(v)
    ensures Wf(r.1)
    ensures r.0 == 1 <==> v.state == MessageReady
    ensures r.0 == 1 ==> AwaitingFrame(rev, r.1) && r.1.body == v.body && r.1.more == v.more
    ensures r.0 == -1 ==> r.1.errno != NoError && r.1.state == v.state && r.1.body == v.body
    ensures r.0 == 0 ==> Remaining(r.1) > 0 || (r.1.state == MessageReady && r.1.target == Body)
    ensures r.0 == 0 ==> r.1.errno == v.errno
  {
    if rev == V1 then V1Next(maxmsgsize, v) else V2Next(maxmsgsize, v)
  }

  /** How far the inner `while (readBuf.remaining() == 0)` loop may still run. */
  function Rank(v: View): nat
    requires Wf(v)
  {
    if Remaining(v) > 0 then 0 else if v.state == MessageReady then 1 else 2
  }

  /** A `next()` implementation, as a function of the decoder state. */
  type NextFn = View -> (int, View)

  /** What the driver in `DecoderBase` relies on from the `next()` of its
      subclass: a well-formed state, a return code in -1..1, and progress
      towards a target with room whenever it returns 0 on a full target. */
  ghost predicate IsNext(next: NextFn) {
    forall v {:trigger next(v)} :: Wf(v) ==> NextOk(v, next(v))
  }

  ghost predicate NextOk(v: View, r: (int, View))
    requires Wf(v)
  {
    Wf(r.1) && -1 <= r.0 <= 1 && (r.0 == 0 && Remaining(v) == 0 ==> Rank(r.1) < Rank(v))
  }

  /** The `next()` of a decoder of revision `rev` with limit `maxmsgsize`. */
  ghost function Machine(rev: Revision, maxmsgsize: int): (next: NextFn)
    ensures IsNext(next)
    ensures forall v {:trigger next(v)} {:trigger Step(rev, maxmsgsize, v)} ::
              Wf(v) ==> next(v) == Step(rev, maxmsgsize, v)
  {
    v => if Wf(v) then Step(rev, maxmsgsize, v) else (0, v)
  }

  /** The inner loop of `decode`: run `next()` while the target is full,
      stopping at the first non-zero return code. */
  function Settle(next: NextFn, v: View): (r: (int, View))
    requires IsNext(next)
    requires Wf(v)
    ensures Wf(r.1)
    ensures r.0 == 0 ==> Remaining(r.1) > 0
    ensures r.0 == 0 || r.0 == 1 || r.0 == -1
    decreases Rank(v)
  {
    if Remaining(v) > 0 then (0, v)
    else
      var s := next(v);
      if s.0 != 0 then s else Settle(next, s.1)
  }

  /** `s` with the `n` bytes of `src` from index `from` written over it
      from index `p` on. */
  function Splice(s: seq<byte>, p: nat, src: seq<byte>, from: nat, n: nat): (r: seq<byte>)
    requires p + n <= |s| && from + n <= |src|
    ensures |r| == |s|
    decreases n
  {
    if n == 0 then s else Splice(s[p := src[from]], p + 1, src, from + 1, n - 1)
  }

  lemma {:induction false} SpliceIs(s: seq<byte>, p: nat, src: seq<byte>, from: nat, n: nat)
    requires p + n <= |s| && from + n <= |src|
    ensures Splice(s, p, src, from, n) == s[..p] + src[from..from + n] + s[p + n..]
    decreases n
  {
    if n > 0 {
      var s1 := s[p := src[from]];
      SpliceIs(s1, p + 1, src, from + 1, n - 1);
      assert s1[..p + 1] == s[..p] + [src[from]];
      assert s1[p + 1 + (n - 1)..] == s[p + n..];
      assert [src[from]] + src[from + 1..from + n] == src[from..from + n];
    }
  }

  /** `readBuf.put(buf)` with `buf` holding the `n` bytes of `src` from
      index `from` on: they go into the target at its position. */
  function Fill(v: View, src: seq<byte>, from: nat, n: nat): (w: View)
    requires Wf(v) && n <= Remaining(v) && from + n <= |src|
    ensures Wf(w) && Remaining(w) == Remaining(v) - n
  {
    if v.target == Tmp then
      v.(tmp := Splice(v.tmp, v.tmpPos, src, from, n), tmpPos := v.tmpPos + n)
    else
      v.(body := Splice(v.body, v.bodyPos, src, from, n), bodyPos := v.bodyPos + n)
  }

  /** Only the bytes copied matter, not where they came from. */
  lemma FillSame(v: View, a: seq<byte>, p: nat, b: seq<byte>, q: nat, n: nat)
    requires Wf(v) && n <= Remaining(v) && p + n <= |a| && q + n <= |b|
    requires a[p..p + n] == b[q..q + n]
    ensures Fill(v, a, p, n) == Fill(v, b, q, n)
  {
    if v.target == Tmp {
      SpliceIs(v.tmp, v.tmpPos, a, p, n);
      SpliceIs(v.tmp, v.tmpPos, b, q, n);
    } else {
      SpliceIs(v.body, v.bodyPos, a, p, n);
      SpliceIs(v.body, v.bodyPos, b, q, n);
    }
  }

  /** Copying out of `a + b` past the end of `a` is copying out of `b`. */
  lemma FillShift(v: View, a: seq<byte>, b: seq<byte>, k: nat, t: nat, from: nat)
    requires Wf(v) && t <= Remaining(v) && k + t <= |b| && from == |a| + k
    ensures Fill(v, a + b, from, t) == Fill(v, b, k, t)
  {
    assert (a + b)[from..from + t] == b[k..k + t];
    FillSame(v, a + b, from, b, k, t);
  }

  /** Copying out of `a + b` within `a` is copying out of `a`. */
  lemma FillPrefix(v: View, a: seq<byte>, b: seq<byte>, p: nat, t: nat)
    requires Wf(v) && t <= Remaining(v) && p + t <= |a|
    ensures Fill(v, a + b, p, t) == Fill(v, a, p, t)
  {
    assert (a + b)[p..p + t] == a[p..p + t];
    FillSame(v, a + b, p, a, p, t);
  }

  /** Copying the tail of `a` and then the head of `b` is one copy out of `a + b`. */
  lemma FillAcross(v: View, a: seq<byte>, p: nat, n: nat, b: seq<byte>, k: nat, m: nat)
    requires Wf(v) && p <= |a| && k <= |b| && n == |a| - p && m == n + k && m <= Remaining(v)
    ensures Fill(Fill(v, a, p, n), b, 0, k) == Fill(v, a + b, p, m)
  {
    assert (a + b)[p..p + m] == a[p..] + b[..k];
    if v.target == Tmp {
      SpliceAcross(v.tmp, v.tmpPos, a, p, b, k);
    } else {
      SpliceAcross(v.body, v.bodyPos, a, p, b, k);
    }
  }

  lemma SpliceAcross(s: seq<byte>, q: nat, a: seq<byte>, p: nat, b: seq<byte>, k: nat)
    requires p <= |a| && k <= |b| && q + |a| - p + k <= |s|
    ensures Splice(Splice(s, q, a, p, |a| - p), q + |a| - p, b, 0, k) == Splice(s, q, a + b, p, |a| - p + k)
  {
    var n := |a| - p;
    var s1 := Splice(s, q, a, p, n);
    SpliceIs(s, q, a, p, n);
    SpliceIs(s1, q + n, b, 0, k);
    SpliceIs(s, q, a + b, p, n + k);
    assert s1[..q + n] == s[..q] + a[p..];
    assert s1[q + n + k..] == s[q + n + k..];
    assert (a + b)[p..p + n + k] == a[p..] + b[..k];
  }

  function Min(a: nat, b: nat): nat {
    if a < b then a else b
  }

  /** The result of a copying `decode`: the final `pos` (bytes consumed), the
      return code of the `next()` call that stopped it (0 if the input ran
      out) and the new state. */
  datatype RunResult = RunResult(consumed: nat, rc: int, view: View)

  /** The copying path of `DecoderBase.decode` from the loop position `pos`
      in `input`: settle; stop if `next()` said stop or the input is used up;
      otherwise copy `min(remaining, |input| - pos)` bytes and go on. */
  function Run(next: NextFn, v: View, input: seq<byte>, pos: nat): (r: RunResult)
    requires IsNext(next)
    requires Wf(v) && pos <= |input|
    ensures Wf(r.view) && pos <= r.consumed <= |input|
    ensures r.rc == 0 || r.rc == 1 || r.rc == -1
    ensures r.rc == 0 ==> r.consumed == |input| && Remaining(r.view) > 0
    decreases |input| - pos
  {
    var s := Settle(next, v);
    if s.0 != 0 || pos == |input| then RunResult(pos, s.0, s.1)
    else
      var t := Min(Remaining(s.1), |input| - pos);
      Run(next, Fill(s.1, input, pos, t), input, pos + t)
  }

  /** The zero-copy path of `decode`: the caller has read `input` straight
      into the target; advance its position and settle. */
  function ZeroCopyRun(next: NextFn, v: View, input: seq<byte>): (r: (int, View))
    requires IsNext(next)
    requires Wf(v) && |input| <= Remaining(v)
    ensures Wf(r.1)
  {
    Settle(next, Fill(v, input, 0, |input|))
  }

  /** Both paths of `decode` agree on the result and the new state whenever
      the input fits the target (the only case in which zero-copy is chosen). */
  lemma ZeroCopyMatchesCopy(next: NextFn, v: View, input: seq<byte>)
    requires IsNext(next)
    requires Wf(v) && 0 < Remaining(v) && |input| <= Remaining(v)
    ensures var z := ZeroCopyRun(next, v, input);
            Run(next, v, input, 0) == RunResult(|input|, z.0, z.1)
  {
    assert Settle(next, v) == (0, v);
    if |input| == 0 {
      assert Fill(v, input, 0, 0) == v;
    }
  }

  /** Settling first changes nothing: `decode` settles at entry anyway. */
  lemma RunSettled(next: NextFn, v: View, input: seq<byte>, pos: nat)
    requires IsNext(next)
    requires Wf(v) && pos <= |input| && Settle(next, v).0 == 0
    ensures Run(next, v, input, pos) == Run(next, Settle(next, v).1, input, pos)
  {
    var v1 := Settle(next, v).1;
    assert Settle(next, v1) == (0, v1);
  }

  /** A run that first consumed `n` bytes and then continued as `r`. */
  function After(n: nat, r: RunResult): RunResult {
    RunResult(n + r.consumed, r.rc, r.view)
  }

  /** Bytes before the loop position are never looked at again: running over
      `a + b` from `|a| + k` is running over `b` from `k`, shifted by `|a|`. */
  lemma {:induction false} RunShift(next: NextFn, v: View, a: seq<byte>, b: seq<byte>, k: nat, j: nat)
    requires IsNext(next)
    requires Wf(v) && k <= |b| && j == |a| + k
    ensures Run(next, v, a + b, j) == After(|a|, Run(next, v, b, k))
    decreases |b| - k
  {
    var s := Settle(next, v);
    if s.0 == 0 && k < |b| {
      var u := s.1;
      var t := Min(Remaining(u), |b| - k);
      var w := Fill(u, b, k, t);
      var k' := k + t;
      var j' := j + t;
      FillShift(u, a, b, k, t, j);
      RunStep(next, v, u, a + b, j, t, j');
      RunStep(next, v, u, b, k, t, k');
      RunShift(next, w, a, b, k', j');
    } else {
      RunHalt(next, v, a + b, j);
      RunHalt(next, v, b, k);
    }
  }

  /** Feeding `a` from `p` on and then `b` is the same as feeding `a + b` from
      `p` on: if `a` stops the decoder (message complete or error), the bytes
      of `b` are not touched; otherwise `b` continues from where `a` left off.
      All progress lives in the decoder state, none in the call. */
  lemma {:induction false} RunAppend(next: NextFn, v: View, a: seq<byte>, b: seq<byte>, p: nat)
    requires IsNext(next)
    requires Wf(v) && p <= |a|
    ensures var ra := Run(next, v, a, p);
            Run(next, v, a + b, p) ==
              if ra.rc != 0 then ra else After(|a|, Run(next, ra.view, b, 0))
    decreases |a| - p, 1
  {
    var s := Settle(next, v);
    if s.0 == 0 {
      if p == |a| {
        RunSettled(next, v, a + b, |a|);
        RunSettled(next, v, b, 0);
        RunShift(next, s.1, a, b, 0, |a|);
      } else if Remaining(s.1) <= |a| - p {
        RunAppendWithin(next, v, a, b, p);
      } else if b == [] {
        RunAppendEmpty(next, v, a, b, p);
      } else {
        RunAppendAcross(next, v, a, b, p);
      }
    }
  }

  /** The target fills up inside `a`: the first copy is the same with or without `b`. */
  lemma {:induction false} RunAppendWithin(next: NextFn, v: View, a: seq<byte>, b: seq<byte>, p: nat)
    requires IsNext(next)
    requires Wf(v) && p < |a| && Settle(next, v).0 == 0 && Remaining(Settle(next, v).1) <= |a| - p
    ensures var ra := Run(next, v, a, p);
            Run(next, v, a + b, p) ==
              if ra.rc != 0 then ra else After(|a|, Run(next, ra.view, b, 0))
    decreases |a| - p, 0
  {
    var w := Settle(next, v).1;
    var t := Remaining(w);
    var x := Fill(w, a, p, t);
    var q := p + t;
    FillPrefix(w, a, b, p, t);
    RunStep(next, v, w, a + b, p, t, q);
    RunStep(next, v, w, a, p, t, q);
    RunAppend(next, x, a, b, q);
    RunAppendTransfer(next, v, x, a, b, p, q);
  }

  /** The append property carries over between two runs that agree on `a`
      and on `a + b`. */
  lemma RunAppendTransfer(next: NextFn, v: View, x: View, a: seq<byte>, b: seq<byte>, p: nat, q: nat)
    requires IsNext(next)
    requires Wf(v) && p <= |a| && Wf(x) && q <= |a|
    requires Run(next, v, a, p) == Run(next, x, a, q)
    requires Run(next, v, a + b, p) == Run(next, x, a + b, q)
    requires var ra := Run(next, x, a, q);
             Run(next, x, a + b, q) ==
               if ra.rc != 0 then ra else After(|a|, Run(next, ra.view, b, 0))
    ensures var ra := Run(next, v, a, p);
            Run(next, v, a + b, p) ==
              if ra.rc != 0 then ra else After(|a|, Run(next, ra.view, b, 0))
  {
  }

  /** One round of the copy loop: settle to `w`, then copy `t` bytes and go
      on from `q`. */
  lemma RunStep(next: NextFn, v: View, w: View, input: seq<byte>, pos: nat, t: nat, q: nat)
    requires IsNext(next)
    requires Wf(v) && pos < |input| && Settle(next, v) == (0, w)
    requires t == Min(Remaining(w), |input| - pos) && q == pos + t
    ensures Run(next, v, input, pos) == Run(next, Fill(w, input, pos, t), input, q)
  {
  }

  /** A run stops where it is once `next()` says stop or the input is used up. */
  lemma RunHalt(next: NextFn, v: View, input: seq<byte>, pos: nat)
    requires IsNext(next)
    requires Wf(v) && pos <= |input| && (Settle(next, v).0 != 0 || pos == |input|)
    ensures Run(next, v, input, pos) == RunResult(pos, Settle(next, v).0, Settle(next, v).1)
  {
  }

  /** A run with room in the target and no input left stops at once. */
  lemma RunStop(next: NextFn, w: View, input: seq<byte>, pos: nat)
    requires IsNext(next)
    requires Wf(w) && pos == |input| && Remaining(w) > 0
    ensures Settle(next, w) == (0, w)
    ensures Run(next, w, input, pos) == RunResult(pos, 0, w)
  {
  }

  /** The copy loop keeps its outcome while it settles and copies. */
  lemma RunAdvance(next: NextFn, v: View, w: View, x: View, input: seq<byte>, pos: nat, t: nat, q: nat, r0: RunResult)
    requires IsNext(next)
    requires Wf(v) && pos < |input| && Settle(next, v) == (0, w)
    requires t == Min(Remaining(w), |input| - pos) && q == pos + t
    requires x == Fill(w, input, pos, t)
    requires Run(next, v, input, pos) == r0
    ensures Run(next, x, input, q) == r0
  {
    RunStep(next, v, w, input, pos, t, q);
  }

  /** Where the copy loop stops, its state is the outcome. */
  lemma RunExit(next: NextFn, v: View, w: View, rc: int, input: seq<byte>, pos: nat, r0: RunResult)
    requires IsNext(next)
    requires Wf(v) && pos <= |input| && Settle(next, v) == (rc, w)
    requires rc != 0 || pos == |input|
    requires Run(next, v, input, pos) == r0
    ensures RunResult(pos, rc, w) == r0
  {
    RunHalt(next, v, input, pos);
  }

  /** Appending nothing changes nothing. */
  lemma RunAppendEmpty(next: NextFn, v: View, a: seq<byte>, b: seq<byte>, p: nat)
    requires IsNext(next)
    requires Wf(v) && p <= |a| && b == []
    ensures var ra := Run(next, v, a, p);
            Run(next, v, a + b, p) ==
              if ra.rc != 0 then ra else After(|a|, Run(next, ra.view, b, 0))
  {
    assert a + b == a;
    var ra := Run(next, v, a, p);
    assert Settle(next, ra.view) == (0, ra.view) || ra.rc != 0;
  }

  /** `a` runs out before the target is full: the copy out of `a + b` takes the
      rest of `a` and the head of `b` in one go. */
  lemma RunAppendAcross(next: NextFn, v: View, a: seq<byte>, b: seq<byte>, p: nat)
    requires IsNext(next)
    requires Wf(v) && p < |a| && |b| > 0
    requires Settle(next, v).0 == 0 && Remaining(Settle(next, v).1) > |a| - p
    ensures var ra := Run(next, v, a, p);
            Run(next, v, a + b, p) ==
              if ra.rc != 0 then ra else After(|a|, Run(next, ra.view, b, 0))
  {
    var u := Settle(next, v).1;
    var n := |a| - p;
    var w := Fill(u, a, p, n);
    RunStep(next, v, u, a, p, n, |a|);
    RunStop(next, w, a, |a|);
    var k := Min(Remaining(w), |b|);
    var m := n + k;
    var q := |a| + k;
    var x := Fill(w, b, 0, k);
    FillAcross(u, a, p, n, b, k, m);
    RunStep(next, v, u, a + b, p, m, q);
    RunStep(next, w, w, b, 0, k, k);
    RunShift(next, x, a, b, k, q);
  }

  function Concat(chunks: seq<seq<byte>>): seq<byte> {
    if chunks == [] then [] else chunks[0] + Concat(chunks[1..])
  }

  /** The engine's way of feeding input: one `decode` per chunk that arrived,
      stopping at the first chunk whose decode reports a message or an error. */
  function FeedChunks(next: NextFn, v: View, chunks: seq<seq<byte>>): (r: (int, View))
    requires IsNext(next)
    requires Wf(v)
    ensures Wf(r.1)
    decreases |chunks|
  {
    if chunks == [] then (0, v)
    else
      var r := Run(next, v, chunks[0], 0);
      if r.rc != 0 then (r.rc, r.view) else FeedChunks(next, r.view, chunks[1..])
  }

  /** Fragmentation invariance: however a byte stream is cut into chunks,
      the decoder reaches the same outcome and state as when fed it whole. */
  lemma {:induction false} ChunkingInvariance(next: NextFn, v: View, chunks: seq<seq<byte>>)
    requires IsNext(next)
    requires Wf(v) && Remaining(v) > 0
    ensures var whole := Run(next, v, Concat(chunks), 0);
            FeedChunks(next, v, chunks) == (whole.rc, whole.view)
    decreases |chunks|
  {
    if chunks == [] {
      assert Settle(next, v) == (0, v);
    } else {
      var r := Run(next, v, chunks[0], 0);
      RunAppend(next, v, chunks[0], Concat(chunks[1..]), 0);
      if r.rc == 0 {
        ChunkingInvariance(next, r.view, chunks[1..]);
      }
    }
  }

  /** The byte copy inside `ByteBuffer.put`: `n` bytes of `src` from index
      `from` on overwrite `a` from index `at` on. */
  method CopyBytes(a: array<byte>, at: nat, src: seq<byte>, from: nat, n: nat)
    requires at + n <= a.Length && from + n <= |src|
    modifies a
    ensures a[..] == Splice(old(a[..]), at, src, from, n)
  {
    forall i | 0 <= i < n {
      a[at + i] := src[from + i];
    }
    SpliceIs(old(a[..]), at, src, from, n);
    assert a[..] == old(a[..])[..at] + src[from..from + n] + old(a[..])[at + n..];
  }

  /** A ZMTP/1.0 or ZMTP/2.0 decoder. `tmpbuf` is the 8-byte header buffer,
      `inProgress` the body of the message being read; `target` says which of
      the two `readBuf` currently wraps. `zeroCopy` is the mode chosen by the
      last `GetBuffer`. */
  class Decoder {
    const revision: Revision
    const bufsize: nat
    const maxmsgsize: int
    var state: DState
    var target: Target
    const tmpbuf: array<byte>
    var tmpPos: nat
    var tmpLimit: nat
    var inProgress: array<byte>
    var bodyPos: nat
    var more: bool
    var msgFlags: bool
    var errno: ErrNo
    var zeroCopy: bool
    ghost var Repr: set<object>
    /** `next()` of this revision, as a function of the state. */
    ghost const next: NextFn

    ghost predicate Valid()
      reads this, Repr
    {
      Repr == {this, tmpbuf, inProgress} && tmpbuf != inProgress &&
      tmpbuf.Length == 8 && tmpPos <= tmpLimit <= 8 && bodyPos <= inProgress.Length &&
      IsNext(next) &&
      forall v {:trigger Step(revision, maxmsgsize, v)} ::
        Wf(v) ==> next(v) == Step(revision, maxmsgsize, v)
    }

    /** Everything the decoder holds, as a value. */
    function Model(): (v: View)
      reads this, tmpbuf, inProgress
    {
      View(state, target, tmpbuf[..], tmpPos, tmpLimit, inProgress[..], bodyPos, more, msgFlags, errno)
    }

    /** `V1Decoder(bufsize, maxmsgsize, errno)` / `V2Decoder(...)`: read one
        byte into the header buffer, in the state that starts a frame. */
    constructor(revision: Revision, bufsize: nat, maxmsgsize: int)
      ensures Valid() && fresh(Repr)
      ensures Model() == Fresh(revision) && !zeroCopy
      ensures this.revision == revision && this.bufsize == bufsize && this.maxmsgsize == maxmsgsize
      ensures next == Machine(revision, maxmsgsize)
    {
      this.revision := revision;
      this.bufsize := bufsize;
      this.maxmsgsize := maxmsgsize;
      next := Machine(revision, maxmsgsize);
      state := if revision == V1 then OneByteSizeReady else FlagsReady;
      target := Tmp;
      tmpbuf := new byte[8](_ => 0);
      tmpPos, tmpLimit := 0, 1;
      inProgress := new byte[0];
      bodyPos, more, msgFlags, errno, zeroCopy := 0, false, false, NoError, false;
      new;
      Repr := {this, tmpbuf, inProgress};
      assert tmpbuf[..] == Zeros(8);
    }

    /** `getBuffer()`: zero-copy exactly when the current target still has room
        for at least `bufsize` bytes; the room offered to the caller is then the
        target's remaining space, otherwise the whole staging buffer. */
    method GetBuffer() returns (room: nat)
      requires Valid()
      modifies this
      ensures Valid() && Repr == old(Repr) && Model() == old(Model())
      ensures zeroCopy <==> Remaining(Model()) >= bufsize
      ensures room == if zeroCopy then Remaining(Model()) else bufsize
    {
      var r := if target == Tmp then tmpLimit - tmpPos else inProgress.Length - bodyPos;
      if r >= bufsize {
        zeroCopy := true;
        room := r;
      } else {
        zeroCopy := false;
        room := bufsize;
      }
    }

    /** `getMsgAllocator().allocate(n)`, then `setFlags`: a fresh zeroed body
        of `n` bytes whose MORE flag is `flags`. */
    method Allocate(n: nat, flags: bool)
      requires Valid()
      modifies this
      ensures Valid() && fresh(inProgress)
      ensures Model() == WithBody(old(Model()), n).(more := flags)
      ensures zeroCopy == old(zeroCopy)
    {
      inProgress := new byte[n](_ => 0);
      bodyPos := 0;
      more := flags;
      Repr := {this, tmpbuf, inProgress};
      assert inProgress[..] == Zeros(n);
    }

    /** The tail of both ZMTP/1.0 length handlers: allocate the body, then
        `nextStep(tmpbufWrap, FLAGS_READY)` with a one-byte limit. */
    method ExpectFlags(n: nat)
      requires Valid() && tmpPos <= 1
      modifies this
      ensures Valid() && fresh(inProgress) && zeroCopy == old(zeroCopy)
      ensures Model() == WithBody(old(Model()), n).(tmpLimit := 1, target := Tmp, state := FlagsReady)
    {
      tmpLimit := 1;
      target, state := Tmp, FlagsReady;
      Allocate(n, false);
    }

    /** `V1Decoder.oneByteSizeReady`. */
    method V1OneByteSizeReady() returns (rc: int)
      requires Valid() && revision == V1 && state == OneByteSizeReady
      modifies this
      ensures Valid() && (inProgress == old(inProgress) || fresh(inProgress)) && zeroCopy == old(zeroCopy)
      ensures (rc, Model()) == V1Next(maxmsgsize, old(Model()))
    {
      tmpPos := 0;
      match V1LengthByte(tmpbuf[0], maxmsgsize)
      case Escape =>
        tmpLimit := 8;
        target, state := Tmp, EightByteSizeReady;
        rc := 0;
      case Length(Refuse(e)) =>
        errno := e;
        rc := -1;
      case Length(Accept(n)) =>
        ExpectFlags(n);
        rc := 0;
    }

    /** `V1Decoder.eightByteSizeReady`. */
    method V1EightByteSizeReady() returns (rc: int)
      requires Valid() && revision == V1 && state == EightByteSizeReady
      modifies this
      ensures Valid() && (inProgress == old(inProgress) || fresh(inProgress)) && zeroCopy == old(zeroCopy)
      ensures (rc, Model()) == V1Next(maxmsgsize, old(Model()))
    {
      tmpPos, tmpLimit := 0, 8;
      match V1Length8(tmpbuf[..], maxmsgsize)
      case Refuse(e) =>
        errno := e;
        rc := -1;
      case Accept(n) =>
        ExpectFlags(n);
        rc := 0;
    }

    /** `V1Decoder.flagsReady`: the flags byte goes into the message. */
    method V1FlagsReady() returns (rc: int)
      requires Valid() && revision == V1 && state == FlagsReady
      modifies this
      ensures Valid() && Repr == old(Repr) && zeroCopy == old(zeroCopy)
      ensures (rc, Model()) == V1Next(maxmsgsize, old(Model()))
    {
      more := V1FlagsMore(tmpbuf[0]);
      target, state := Body, DState.MessageReady;
      rc := 0;
    }

    /** `V2Decoder.flagsReady`: remember MORE, read one or eight length bytes. */
    method V2FlagsReady() returns (rc: int)
      requires Valid() && revision == V2 && state == FlagsReady
      modifies this
      ensures Valid() && Repr == old(Repr) && zeroCopy == old(zeroCopy)
      ensures (rc, Model()) == V2Next(maxmsgsize, old(Model()))
    {
      var (m, next, toRead) := V2Flags(tmpbuf[0]);
      msgFlags := m;
      tmpPos, tmpLimit := 0, toRead;
      target, state := Tmp, next;
      rc := 0;
    }

    /** The tail of both ZMTP/2.0 length handlers: allocate the body, give it
        the flags read earlier, then `nextStep(inProgress, MESSAGE_READY)`. */
    method ExpectBody(n: nat)
      requires Valid()
      modifies this
      ensures Valid() && fresh(inProgress) && zeroCopy == old(zeroCopy)
      ensures Model() == WithBody(old(Model()), n).(more := old(msgFlags), target := Body, state := DState.MessageReady)
    {
      target, state := Body, DState.MessageReady;
      Allocate(n, msgFlags);
    }

    /** `V2Decoder.oneByteSizeReady`. */
    method V2OneByteSizeReady() returns (rc: int)
      requires Valid() && revision == V2 && state == OneByteSizeReady
      modifies this
      ensures Valid() && (inProgress == old(inProgress) || fresh(inProgress)) && zeroCopy == old(zeroCopy)
      ensures (rc, Model()) == V2Next(maxmsgsize, old(Model()))
    {
      match V2LengthByte(tmpbuf[0], maxmsgsize)
      case Refuse(e) =>
        errno := e;
        rc := -1;
      case Accept(n) =>
        ExpectBody(n);
        rc := 0;
    }

    /** `V2Decoder.eightByteSizeReady`, reading the length unsigned. */
    method V2EightByteSizeReady() returns (rc: int)
      requires Valid() && revision == V2 && state == EightByteSizeReady
      modifies this
      ensures Valid() && (inProgress == old(inProgress) || fresh(inProgress)) && zeroCopy == old(zeroCopy)
      ensures (rc, Model()) == V2Next(maxmsgsize, old(Model()))
    {
      var check := V2Length8(tmpbuf[..], maxmsgsize);
      tmpPos, tmpLimit := 0, 8;
      match check
      case Refuse(e) =>
        errno := e;
        rc := -1;
      case Accept(n) =>
        ExpectBody(n);
        rc := 0;
    }

    /** `messageReady` of either revision: rewind the header buffer to one
        byte and start the next frame. */
    method MessageReady() returns (rc: int)
      requires Valid() && state == DState.MessageReady
      modifies this
      ensures Valid() && Repr == old(Repr) && zeroCopy == old(zeroCopy)
      ensures (rc, Model()) == Step(revision, maxmsgsize, old(Model()))
    {
      tmpPos, tmpLimit := 0, 1;
      target := Tmp;
      state := if revision == V1 then OneByteSizeReady else FlagsReady;
      rc := 1;
    }

    /** `next()`: dispatch on the revision and the state. */
    method Next() returns (rc: int)
      requires Valid()
      modifies this
      ensures Valid() && fresh(Repr - old(Repr)) && zeroCopy == old(zeroCopy)
      ensures (rc, Model()) == Step(revision, maxmsgsize, old(Model()))
    {
      match state
      case MessageReady => rc := MessageReady();
      case FlagsReady =>
        if revision == V1 { rc := V1FlagsReady(); } else { rc := V2FlagsReady(); }
      case OneByteSizeReady =>
        if revision == V1 { rc := V1OneByteSizeReady(); } else { rc := V2OneByteSizeReady(); }
      case EightByteSizeReady =>
        if revision == V1 { rc := V1EightByteSizeReady(); } else { rc := V2EightByteSizeReady(); }
    }

    /** `readBuf.put(buf)`: copy the `n` bytes of `src` from index `from` on
        into the target at its position. */
    method Put(src: seq<byte>, from: nat, n: nat)
      requires Valid() && n <= Remaining(Model()) && from + n <= |src|
      modifies Repr
      ensures Valid() && Repr == old(Repr) && zeroCopy == old(zeroCopy)
      ensures Model() == Fill(old(Model()), src, from, n)
    {
      if target == Tmp {
        CopyBytes(tmpbuf, tmpPos, src, from, n);
        tmpPos := tmpPos + n;
      } else {
        CopyBytes(inProgress, bodyPos, src, from, n);
        bodyPos := bodyPos + n;
      }
    }

    /** `decode(buf, size)`. `ret` is what the method returns as written,
        `rc` the return code of the `next()` call that stopped it (0 when the
        input ran out) and `processed` the bytes it used: the three together
        are what `StreamEngine.inEvent` reads from its `decode` call. In
        zero-copy mode the caller has already read `input` into the target,
        so `Put` stands for that read. In copy mode `ret` is the number of
        bytes used whatever stopped the loop, because `state()` is never
        negative. */
    method Decode(input: seq<byte>) returns (ret: int, processed: nat, rc: int)
      requires Valid()
      requires zeroCopy ==> |input| <= Remaining(Model())
      modifies Repr
      ensures Valid() && fresh(Repr - old(Repr)) && zeroCopy == old(zeroCopy)
      ensures zeroCopy ==> ret == rc && processed == |input| &&
                           (rc, Model()) == ZeroCopyRun(next, old(Model()), input)
      ensures !zeroCopy ==> ret == processed &&
                            RunResult(processed, rc, Model()) == Run(next, old(Model()), input, 0)
    {
      if zeroCopy {
        rc := DecodeInPlace(input);
        ret, processed := rc, |input|;
      } else {
        ret, processed, rc := DecodeCopying(input);
      }
    }

    /** The inner loop of `decode`: `while (readBuf.remaining() == 0)` run
        `next()`, stopping at the first non-zero return code. */
    method NextWhileFull() returns (rc: int)
      requires Valid()
      modifies Repr
      ensures Valid() && fresh(Repr - old(Repr)) && zeroCopy == old(zeroCopy)
      ensures (rc, Model()) == Settle(next, old(Model()))
    {
      rc := 0;
      while Remaining(Model()) == 0
        invariant Valid() && fresh(Repr - old(Repr)) && zeroCopy == old(zeroCopy)
        invariant Settle(next, Model()) == Settle(next, old(Model()))
        decreases Rank(Model())
      {
        rc := Next();
        if rc != 0 {
          return;
        }
      }
    }

    /** The zero-copy half of `decode`: advance the position past the bytes
        read in place, then run `next()` while the target is full. */
    method DecodeInPlace(input: seq<byte>) returns (rc: int)
      requires Valid() && |input| <= Remaining(Model())
      modifies Repr
      ensures Valid() && fresh(Repr - old(Repr)) && zeroCopy == old(zeroCopy)
      ensures (rc, Model()) == ZeroCopyRun(next, old(Model()), input)
    {
      Put(input, 0, |input|);
      rc := NextWhileFull();
    }

    /** The copying half of `decode`: alternately run `next()` while the
        target is full and copy as much of the input as fits, until `next()`
        returns non-zero or the input is used up. */
    method DecodeCopying(input: seq<byte>) returns (ret: int, processed: nat, rc: int)
      requires Valid()
      modifies Repr
      ensures Valid() && fresh(Repr - old(Repr)) && zeroCopy == old(zeroCopy)
      ensures ret == processed
      ensures RunResult(processed, rc, Model()) == Run(next, old(Model()), input, 0)
    {
      ghost var r0 := Run(next, old(Model()), input, 0);
      var pos := 0;
      while true
        invariant Valid() && fresh(Repr - old(Repr)) && zeroCopy == old(zeroCopy)
        invariant pos <= |input|
        invariant Run(next, Model(), input, pos) == r0
        decreases |input| - pos
      {
        ghost var v := Model();
        rc := NextWhileFull();
        if rc != 0 || pos == |input| {
          RunExit(next, v, Model(), rc, input, pos, r0);
          return if StateCode(state) < 0 then -1 else pos, pos, rc;
        }
        pos := CopyIn(input, pos, v, r0);
      }
    }

    /** One copy of the loop in `decode`: `min(remaining, size - pos)` bytes of
        the input go into the target, which has room after settling. */
    method CopyIn(input: seq<byte>, pos: nat, ghost v: View, ghost r0: RunResult) returns (pos': nat)
      requires Valid() && Wf(v) && pos < |input| && Settle(next, v) == (0, Model())
      requires Run(next, v, input, pos) == r0
      modifies Repr
      ensures Valid() && Repr == old(Repr) && zeroCopy == old(zeroCopy)
      ensures pos < pos' <= |input| && Run(next, Model(), input, pos') == r0
    {
      var toCopy := Min(Remaining(Model()), |input| - pos);
      ghost var w := Model();
      Put(input, pos, toCopy);
      pos' := pos + toCopy;
      RunAdvance(next, v, w, Model(), input, pos, toCopy, pos', r0);
    }

    /** `msg()`: the message in progress, as the view holds it. */
    function Msg(): (m: Msg)
      reads this, tmpbuf, inProgress
      ensures m == Wire.Msg(Model().body, Model().more, false)
    {
      Wire.Msg(inProgress[..], more, false)
    }
  }

}
