/** The ROUTER socket: the table of peer identities and the two envelope
    state machines. Pipes and the fair queue belong to collaborators that are
    not part of this model; a pipe is an id with its inbound queue, the
    identity set on it and its outbound side, and the fair queue is the
    sequence of (pipe, message) pairs it will hand out, in order. */
module Routing {
  import opened Wire

  /** `ZMQ.ZMQ_ROUTER_BEHAVIOR`, the option that switches on
      `report_unroutable`. */
  const ZMQ_ROUTER_BEHAVIOR: int := 33

  datatype Option<T> = None | Some(value: T)

  type PipeId = nat

  /** A pipe as the router uses it: the messages waiting to be read, the
      identity set on it, and its outbound side: how many more parts it
      accepts (`check_write`), the parts written but not flushed, and the
      parts flushed to the peer. */
  datatype Pipe = Pipe(queue: seq<Msg>, identity: seq<byte>, room: nat, pending: seq<Msg>, sent: seq<Msg>)

  /** An entry of `outpipes`. */
  datatype Outpipe = Outpipe(pipe: PipeId, active: bool)

  predicate CheckWrite(p: Pipe) {
    p.room > 0
  }

  /** `Pipe.write`: refused when the pipe is full, otherwise the part waits
      for the flush. */
  function Write(p: Pipe, m: Msg): (r: (bool, Pipe))
  {
    if CheckWrite(p) then (true, p.(room := p.room - 1, pending := p.pending + [m])) else (false, p)
  }

  /** `Pipe.flush`: the written parts go to the peer. */
  function Flush(p: Pipe): Pipe {
    p.(pending := [], sent := p.sent + p.pending)
  }

  /** `Pipe.rollback`: the parts not yet flushed are dropped. */
  function RollbackPipe(p: Pipe): Pipe {
    p.(pending := [], room := p.room + |p.pending|)
  }

  /** A complete multi-part message: every part but the last has MORE. */
  predicate Parts(ms: seq<Msg>) {
    |ms| >= 1 && (forall k | 0 <= k < |ms| - 1 :: ms[k].more) && !ms[|ms| - 1].more
  }

  // ---------------------------------------------------------------------
  // Identities

  /** `next_peer_id++` on a Java `int`. */
  function NextPeerId(x: int): (r: int)
    ensures INT32_MIN <= r <= INT32_MAX
  {
    ToInt32(x + 1)
  }

  /** The identity generated for a peer that sends an empty identity frame:
      a zero byte, then the counter as a big-endian `int`. */
  function GeneratedId(x: int): (r: seq<byte>)
    requires INT32_MIN <= x <= INT32_MAX
    ensures |r| == 5 && r[0] == 0
    ensures BeUint(r[1..]) == x % TWO32
  {
    BeUintBeBytes(if x < 0 then x + TWO32 else x, 4);
    [0] + PutInt(x)
  }

  /** The counter after `k` generated identities. */
  function PeerIdAfter(x: int, k: nat): (r: int)
    requires INT32_MIN <= x <= INT32_MAX
    ensures INT32_MIN <= r <= INT32_MAX
  {
    if k == 0 then x else NextPeerId(PeerIdAfter(x, k - 1))
  }

  /** The 32-bit wrap of `x` is the Java int that differs from `x` by a
      multiple of 2^32. */
  lemma ToInt32Of(x: int, r: int, q: int)
    requires INT32_MIN <= r <= INT32_MAX && x == r + q * 0x1_0000_0000
    ensures ToInt32(x) == r
  {
    var m := x % 0x1_0000_0000;
    var d := x / 0x1_0000_0000;
    assert x == d * 0x1_0000_0000 + m;
    var j := q - d;
    assert m - r == j * 0x1_0000_0000;
    assert 0 <= j <= 1;
  }

  /** `x` is its 32-bit wrap plus a multiple of 2^32. */
  lemma ToInt32Split(x: int) returns (q: int)
    ensures x == ToInt32(x) + q * 0x1_0000_0000
  {
    var m := x % 0x1_0000_0000;
    var d := x / 0x1_0000_0000;
    assert x == d * 0x1_0000_0000 + m;
    q := if m > INT32_MAX then d + 1 else d;
  }

  /** The counter wraps from the largest int to the smallest. */
  lemma PeerIdWraps()
    ensures NextPeerId(INT32_MAX) == INT32_MIN
  {
  }

  /** The counter after `k` steps is the start plus `k`, wrapped to 32 bits. */
  lemma {:induction false} PeerIdAfterIsSum(x: int, k: nat)
    requires INT32_MIN <= x <= INT32_MAX
    ensures PeerIdAfter(x, k) == ToInt32(x + k)
  {
    if k > 0 {
      PeerIdAfterIsSum(x, k - 1);
      var y := PeerIdAfter(x, k - 1);
      var q1 := ToInt32Split(x + k - 1);
      var q2 := ToInt32Split(y + 1);
      var r := ToInt32(y + 1);
      assert x + k == r + (q1 + q2) * 0x1_0000_0000;
      ToInt32Of(x + k, r, q1 + q2);
    }
  }

  /** A generated identity does not come round again before 2^32 more
      identities have been generated. */
  lemma GeneratedIdsDistinct(x: int, k: nat)
    requires INT32_MIN <= x <= INT32_MAX && 0 < k < TWO32
    ensures GeneratedId(PeerIdAfter(x, k)) != GeneratedId(x)
  {
    PeerIdAfterIsSum(x, k);
    var y := PeerIdAfter(x, k);
    var q := ToInt32Split(x + k);
    if GeneratedId(y) == GeneratedId(x) {
      assert PutInt(y) == GeneratedId(y)[1..] == GeneratedId(x)[1..] == PutInt(x);
      PutIntInjective(x, y);
      assert false;
    }
  }

  /** What `identify_peer` leaves behind: its verdict, the pipes, the table
      and the counter. */
  datatype Identified = Identified(ok: bool, pipes: map<PipeId, Pipe>, outpipes: map<seq<byte>, Outpipe>, nextPeerId: int)

  /** `identify_peer`: the first message of the pipe names the peer. */
  function Identify(pipes: map<PipeId, Pipe>, outpipes: map<seq<byte>, Outpipe>, next: int, p: PipeId): (r: Identified)
    requires p in pipes && INT32_MIN <= next <= INT32_MAX
    ensures INT32_MIN <= r.nextPeerId <= INT32_MAX
    ensures r.pipes.Keys == pipes.Keys && forall q | q in pipes && q != p :: r.pipes[q] == pipes[q]
    // Nothing to read: nothing changes.
    ensures pipes[p].queue == [] ==> r == Identified(false, pipes, outpipes, next)
    // Otherwise the identity frame is consumed, whatever the verdict.
    ensures pipes[p].queue != [] ==>
              r.pipes[p] == pipes[p].(queue := pipes[p].queue[1..], identity := r.pipes[p].identity)
    // An empty frame: a generated identity, the counter one further.
    ensures pipes[p].queue != [] && pipes[p].queue[0].data == [] ==>
              r.ok && r.pipes[p].identity == GeneratedId(next) && r.nextPeerId == NextPeerId(next)
    // A named peer: refused exactly when the name is taken.
    ensures pipes[p].queue != [] && pipes[p].queue[0].data != [] ==>
              r.nextPeerId == next &&
              (r.ok <==> pipes[p].queue[0].data !in outpipes) &&
              (r.ok ==> r.pipes[p].identity == pipes[p].queue[0].data)
    ensures !r.ok ==> r.outpipes == outpipes && r.pipes[p].identity == pipes[p].identity
    // Success: exactly one active entry, under the pipe's new identity.
    ensures r.ok ==> r.outpipes == outpipes[r.pipes[p].identity := Outpipe(p, true)] &&
                     r.outpipes.Keys == outpipes.Keys + {r.pipes[p].identity}
  {
    var pipe := pipes[p];
    if pipe.queue == [] then Identified(false, pipes, outpipes, next)
    else
      var m := pipe.queue[0];
      var read := pipes[p := pipe.(queue := pipe.queue[1..])];
      if m.data == [] then
        var id := GeneratedId(next);
        Identified(true, read[p := read[p].(identity := id)], outpipes[id := Outpipe(p, true)], NextPeerId(next))
      else if m.data in outpipes then
        Identified(false, read, outpipes, next)
      else
        Identified(true, read[p := read[p].(identity := m.data)], outpipes[m.data := Outpipe(p, true)], next)
  }

  // ---------------------------------------------------------------------
  // Fair queue

  /** The messages of one pipe as fair-queue entries. */
  function Tagged(p: PipeId, ms: seq<Msg>): (r: seq<(PipeId, Msg)>)
    ensures |r| == |ms| && forall k | 0 <= k < |r| :: r[k] == (p, ms[k])
  {
    if ms == [] then [] else [(p, ms[0])] + Tagged(p, ms[1..])
  }

  /** `FQ.terminated`: the entries of one pipe are dropped. */
  function Without(fq: seq<(PipeId, Msg)>, p: PipeId): (r: seq<(PipeId, Msg)>)
    ensures forall k | 0 <= k < |r| :: r[k].0 != p && r[k] in fq
    ensures forall k | 0 <= k < |fq| && fq[k].0 != p :: fq[k] in r
  {
    if fq == [] then []
    else if fq[0].0 == p then Without(fq[1..], p)
    else [fq[0]] + Without(fq[1..], p)
  }

  /** `fq.terminated` keeps the other pipes' entries in order and with
      their multiplicity: it distributes over concatenation ... */
  lemma {:induction false} WithoutAppend(a: seq<(PipeId, Msg)>, b: seq<(PipeId, Msg)>, p: PipeId)
    ensures Without(a + b, p) == Without(a, p) + Without(b, p)
    decreases |a|
  {
    if a == [] {
      assert a + b == b;
    } else {
      assert (a + b)[0] == a[0];
      assert (a + b)[1..] == a[1..] + b;
      WithoutAppend(a[1..], b, p);
    }
  }

  /** ... and keeps a single entry exactly when it is another pipe's. */
  lemma WithoutSingle(e: (PipeId, Msg), p: PipeId)
    ensures Without([e], p) == if e.0 == p then [] else [e]
  {
    assert [e][1..] == [];
  }

  /** Entries of other pipes only: nothing is dropped. */
  lemma {:induction false} WithoutOthers(fq: seq<(PipeId, Msg)>, p: PipeId)
    requires forall k | 0 <= k < |fq| :: fq[k].0 != p
    ensures Without(fq, p) == fq
    decreases |fq|
  {
    if fq != [] {
      WithoutOthers(fq[1..], p);
    }
  }

  // ---------------------------------------------------------------------
  // Send side

  /** The state `xsend` works on. */
  datatype Outbound = Outbound(pipes: map<PipeId, Pipe>, outpipes: map<seq<byte>, Outpipe>,
                               currentOut: Option<PipeId>, moreOut: bool)

  /** A target is only held in the middle of a message. */
  predicate OutOk(o: Outbound) {
    (forall id | id in o.outpipes :: o.outpipes[id].pipe in o.pipes) &&
    (o.currentOut.Some? ==> o.moreOut && o.currentOut.value in o.pipes)
  }

  /** `xsend`: the first part names the peer; the following parts go to
      its pipe, or nowhere. */
  function SendStep(o: Outbound, report: bool, m: Msg): (r: (bool, Outbound))
    requires OutOk(o)
    ensures OutOk(r.1)
    // Sending only fails for an unknown peer under `report_unroutable`.
    ensures !r.0 <==> !o.moreOut && m.more && m.data !in o.outpipes && report
    // A first part without MORE is ignored.
    ensures !o.moreOut && !m.more ==> r == (true, o)
    // An unknown peer: refused, or the message is dropped part by part.
    ensures !o.moreOut && m.more && m.data !in o.outpipes ==>
              r == if report then (false, o) else (true, o.(moreOut := true))
    ensures o.moreOut && o.currentOut.None? ==> r == (true, o.(moreOut := m.more))
    // A known peer is held as the target when its pipe has room; a full
    // pipe has its entry marked inactive and no target is held.
    ensures !o.moreOut && m.more && m.data in o.outpipes ==>
              var op := o.outpipes[m.data];
              r == (true, if CheckWrite(o.pipes[op.pipe]) then o.(moreOut := true, currentOut := Some(op.pipe))
                          else o.(moreOut := true, outpipes := o.outpipes[m.data := op.(active := false)]))
    // A write the held target refuses releases it.
    ensures o.moreOut && o.currentOut.Some? && !CheckWrite(o.pipes[o.currentOut.value]) ==>
              r == (true, o.(moreOut := m.more, currentOut := None))
    // The last part, or a failed write, releases the target.
    ensures o.moreOut && !m.more ==> !r.1.moreOut && r.1.currentOut.None?
    // Only the outbound side of pipes and the `active` flags change.
    ensures r.1.pipes.Keys == o.pipes.Keys && r.1.outpipes.Keys == o.outpipes.Keys
  {
    if !o.moreOut then
      if !m.more then (true, o)
      else if m.data in o.outpipes then
        var op := o.outpipes[m.data];
        if CheckWrite(o.pipes[op.pipe]) then (true, o.(moreOut := true, currentOut := Some(op.pipe)))
        else (true, o.(moreOut := true, outpipes := o.outpipes[m.data := op.(active := false)]))
      else if report then (false, o)
      else (true, o.(moreOut := true))
    else
      var o1 := o.(moreOut := m.more);
      match o.currentOut
      case None => (true, o1)
      case Some(c) =>
        var w := Write(o.pipes[c], m);
        if !w.0 then (true, o1.(currentOut := None))
        else if !m.more then (true, o1.(pipes := o.pipes[c := Flush(w.1)], currentOut := None))
        else (true, o1.(pipes := o.pipes[c := w.1]))
  }

  /** `xsend` leaves the inbound side of every pipe, every identity and the
      pipe of every entry as they were. */
  lemma SendKeepsPeers(o: Outbound, report: bool, m: Msg)
    requires OutOk(o)
    ensures var r := SendStep(o, report, m);
            (forall q | q in o.pipes :: r.1.pipes[q].queue == o.pipes[q].queue && r.1.pipes[q].identity == o.pipes[q].identity) &&
            (forall id | id in o.outpipes :: r.1.outpipes[id].pipe == o.outpipes[id].pipe)
  {
  }

  /** A run of `xsend` calls. */
  function SendAll(o: Outbound, report: bool, ms: seq<Msg>): (r: (seq<bool>, Outbound))
    requires OutOk(o)
    ensures |r.0| == |ms| && OutOk(r.1)
    decreases |ms|
  {
    if ms == [] then ([], o)
    else
      var s := SendStep(o, report, ms[0]);
      var rest := SendAll(s.1, report, ms[1..]);
      ([s.0] + rest.0, rest.1)
  }

  /** One `xsend` call, then the rest. */
  lemma SendAllCons(o: Outbound, report: bool, m: Msg, ms: seq<Msg>)
    requires OutOk(o)
    ensures var s := SendStep(o, report, m); var rest := SendAll(s.1, report, ms);
            SendAll(o, report, [m] + ms) == ([s.0] + rest.0, rest.1)
  {
    assert ([m] + ms)[0] == m;
    assert ([m] + ms)[1..] == ms;
  }

  lemma {:induction false} SendAllAppend(o: Outbound, report: bool, ms1: seq<Msg>, ms2: seq<Msg>)
    requires OutOk(o)
    ensures var a := SendAll(o, report, ms1); var b := SendAll(a.1, report, ms2);
            SendAll(o, report, ms1 + ms2) == (a.0 + b.0, b.1)
    decreases |ms1|
  {
    if ms1 == [] {
      assert ms1 + ms2 == ms2;
      assert SendAll(o, report, ms1) == ([], o);
      assert [] + SendAll(o, report, ms2).0 == SendAll(o, report, ms2).0;
    } else {
      var s := SendStep(o, report, ms1[0]);
      assert ms1 == [ms1[0]] + ms1[1..];
      assert ms1 + ms2 == [ms1[0]] + (ms1[1..] + ms2);
      SendAllCons(o, report, ms1[0], ms1[1..]);
      SendAllCons(o, report, ms1[0], ms1[1..] + ms2);
      SendAllAppend(s.1, report, ms1[1..], ms2);
      var a1 := SendAll(s.1, report, ms1[1..]);
      var b := SendAll(a1.1, report, ms2);
      assert [s.0] + (a1.0 + b.0) == ([s.0] + a1.0) + b.0;
    }
  }

  /** Replacing the held target's pipe keeps the send side consistent. */
  lemma OutOkUpdate(o: Outbound, t: PipeId, pt: Pipe)
    requires OutOk(o) && o.currentOut == Some(t)
    ensures OutOk(o.(pipes := o.pipes[t := pt]))
  {
  }

  /** One part sent to a held target with room: it is written, and the last
      part flushes the message and releases the target. */
  lemma HeldStep(o: Outbound, report: bool, t: PipeId, m: Msg)
    requires OutOk(o) && o.moreOut && o.currentOut == Some(t) && o.pipes[t].room > 0
    ensures var pw := o.pipes[t].(room := o.pipes[t].room - 1, pending := o.pipes[t].pending + [m]);
            SendStep(o, report, m) ==
              if m.more then (true, o.(pipes := o.pipes[t := pw]))
              else (true, o.(pipes := o.pipes[t := Flush(pw)], moreOut := false, currentOut := None))
  {
  }

  /** Parts with MORE sent to a held target wait in its pipe. */
  lemma {:induction false} SendHeld(o: Outbound, report: bool, t: PipeId, ms: seq<Msg>)
    requires OutOk(o) && o.moreOut && o.currentOut == Some(t) && o.pipes[t].room >= |ms|
    requires forall k | 0 <= k < |ms| :: ms[k].more
    ensures var pt := o.pipes[t]; var r := SendAll(o, report, ms);
            false !in r.0 &&
            r.1.pipes == o.pipes[t := pt.(room := pt.room - |ms|, pending := pt.pending + ms)] &&
            r.1.outpipes == o.outpipes && r.1.moreOut && r.1.currentOut == Some(t)
    decreases |ms|
  {
    var pt := o.pipes[t];
    if ms == [] {
      assert pt.(room := pt.room - 0, pending := pt.pending + []) == pt;
      assert o.pipes[t := pt] == o.pipes;
    } else {
      var p1 := pt.(room := pt.room - 1, pending := pt.pending + [ms[0]]);
      var o1 := o.(pipes := o.pipes[t := p1]);
      HeldStep(o, report, t, ms[0]);
      OutOkUpdate(o, t, p1);
      assert ms == [ms[0]] + ms[1..];
      SendAllCons(o, report, ms[0], ms[1..]);
      SendHeld(o1, report, t, ms[1..]);
      var p2 := pt.(room := pt.room - |ms|, pending := pt.pending + ms);
      assert p1.(room := p1.room - |ms[1..]|, pending := p1.pending + ms[1..]) == p2;
      assert o1.pipes[t := p2] == o.pipes[t := p2];
    }
  }

  /** The parts of a message sent to a held target with room for them:
      all are accepted and flushed together with the last one. */
  lemma {:induction false} SendBody(o: Outbound, report: bool, t: PipeId, ms: seq<Msg>)
    requires OutOk(o) && o.moreOut && o.currentOut == Some(t) && o.pipes[t].room >= |ms| && Parts(ms)
    ensures var pt := o.pipes[t]; var r := SendAll(o, report, ms);
            false !in r.0 &&
            r.1.pipes == o.pipes[t := pt.(room := pt.room - |ms|, pending := [], sent := pt.sent + pt.pending + ms)] &&
            r.1.outpipes == o.outpipes && !r.1.moreOut && r.1.currentOut.None?
    decreases |ms|
  {
    var pt := o.pipes[t];
    var p1 := pt.(room := pt.room - 1, pending := pt.pending + [ms[0]]);
    var pf := pt.(room := pt.room - |ms|, pending := [], sent := pt.sent + pt.pending + ms);
    HeldStep(o, report, t, ms[0]);
    assert ms == [ms[0]] + ms[1..];
    SendAllCons(o, report, ms[0], ms[1..]);
    if |ms| == 1 {
      assert Flush(p1) == pf;
    } else {
      var o1 := o.(pipes := o.pipes[t := p1]);
      OutOkUpdate(o, t, p1);
      SendBody(o1, report, t, ms[1..]);
      assert p1.(room := p1.room - |ms[1..]|, pending := [], sent := p1.sent + p1.pending + ms[1..]) == pf;
      assert o1.pipes[t := pf] == o.pipes[t := pf];
    }
  }

  /** A message routed to a known peer whose pipe has room: every call
      succeeds, the parts after the identity reach the peer in order, and
      the router is back between messages. */
  lemma RouteDelivers(o: Outbound, report: bool, head: Msg, parts: seq<Msg>)
    requires OutOk(o) && !o.moreOut && head.more && head.data in o.outpipes && Parts(parts)
    requires var t := o.outpipes[head.data].pipe; o.pipes[t].pending == [] && o.pipes[t].room >= |parts|
    ensures var t := o.outpipes[head.data].pipe; var pt := o.pipes[t];
            var r := SendAll(o, report, [head] + parts);
            false !in r.0 &&
            r.1 == o.(pipes := o.pipes[t := pt.(room := pt.room - |parts|, sent := pt.sent + parts)])
  {
    var t := o.outpipes[head.data].pipe;
    var pt := o.pipes[t];
    var o1 := o.(moreOut := true, currentOut := Some(t));
    assert SendStep(o, report, head) == (true, o1);
    SendAllCons(o, report, head, parts);
    SendBody(o1, report, t, parts);
    assert pt.sent + pt.pending + parts == pt.sent + parts;
  }

  /** Once an unknown peer has been accepted silently, the rest of the
      message is dropped: every call succeeds and nothing reaches a pipe. */
  lemma {:induction false} DropsRest(o: Outbound, report: bool, ms: seq<Msg>)
    requires OutOk(o) && o.moreOut && o.currentOut.None? && Parts(ms)
    ensures SendAll(o, report, ms) == (SendAll(o, report, ms).0, o.(moreOut := false))
    ensures false !in SendAll(o, report, ms).0
    decreases |ms|
  {
    if |ms| > 1 {
      DropsRest(o.(moreOut := true), report, ms[1..]);
    }
  }

  /** A message to a known peer whose pipe is full is accepted part by
      part and reaches no pipe: only the peer's entry changes, to inactive,
      until `xwrite_activated` restores it. */
  lemma FullPeerDropsMessage(o: Outbound, report: bool, ms: seq<Msg>)
    requires OutOk(o) && !o.moreOut && Parts(ms) && ms[0].more && ms[0].data in o.outpipes
    requires !CheckWrite(o.pipes[o.outpipes[ms[0].data].pipe])
    ensures var op := o.outpipes[ms[0].data];
            SendAll(o, report, ms) == (SendAll(o, report, ms).0, o.(outpipes := o.outpipes[ms[0].data := op.(active := false)]))
    ensures false !in SendAll(o, report, ms).0
  {
    var s := SendStep(o, report, ms[0]);
    assert ms == [ms[0]] + ms[1..];
    SendAllCons(o, report, ms[0], ms[1..]);
    assert Parts(ms[1..]) by {
      assert forall k | 0 <= k < |ms[1..]| - 1 :: ms[1..][k] == ms[k + 1];
    }
    DropsRest(s.1, report, ms[1..]);
  }

  /** `rollback` on the send side. */
  function RollbackOut(o: Outbound): (r: Outbound)
    requires OutOk(o)
    ensures OutOk(r) && r.currentOut.None?
    ensures o.currentOut.None? ==> r == o
  {
    match o.currentOut
    case None => o
    case Some(c) => o.(pipes := o.pipes[c := RollbackPipe(o.pipes[c])], currentOut := None, moreOut := false)
  }

  /** A message abandoned before its last part leaves no trace once rolled
      back: the target pipe is as it was. */
  lemma RollbackUndoes(o: Outbound, report: bool, head: Msg, ms: seq<Msg>)
    requires OutOk(o) && !o.moreOut && head.more && head.data in o.outpipes
    requires var t := o.outpipes[head.data].pipe; o.pipes[t].pending == [] && o.pipes[t].room > |ms|
    requires forall k | 0 <= k < |ms| :: ms[k].more
    ensures RollbackOut(SendAll(o, report, [head] + ms).1) == o
  {
    var t := o.outpipes[head.data].pipe;
    var o1 := o.(moreOut := true, currentOut := Some(t));
    assert SendStep(o, report, head) == (true, o1);
    SendAllAppend(o, report, [head], ms);
    SendHeld(o1, report, t, ms);
    assert o.pipes[t := o.pipes[t]] == o.pipes;
  }

  // ---------------------------------------------------------------------
  // Receive side

  /** The state `xrecv` and `xhas_in` work on. */
  datatype Inbound = Inbound(fq: seq<(PipeId, Msg)>, prefetched: bool, identitySent: bool,
                             prefetchedId: Msg, prefetchedMsg: Option<Msg>, moreIn: bool)

  predicate InOk(i: Inbound, pipes: map<PipeId, Pipe>) {
    (forall k | 0 <= k < |i.fq| :: i.fq[k].0 in pipes) && (i.prefetched ==> i.prefetchedMsg.Some?)
  }

  /** The identity part put in front of a message: the pipe's identity,
      flagged MORE. */
  function IdFrame(id: seq<byte>): Msg {
    Msg(id, true, false)
  }

  /** `xrecv`: `None` stands for the `null` of an empty fair queue. */
  function RecvStep(i: Inbound, pipes: map<PipeId, Pipe>): (r: (Option<Msg>, Inbound))
    requires InOk(i, pipes)
    ensures InOk(r.1, pipes)
    ensures r.0.None? <==> !i.prefetched && i.fq == []
    ensures r.0.None? ==> r.1 == i
    // At most one entry is taken from the fair queue.
    ensures r.1.fq == i.fq || (i.fq != [] && r.1.fq == i.fq[1..])
    // In the middle of a message, the next part is passed on as it is.
    ensures !i.prefetched && i.moreIn && i.fq != [] ==>
              r == (Some(i.fq[0].1), i.(fq := i.fq[1..], moreIn := i.fq[0].1.more))
    // At the start of a message, the sender's identity comes first.
    ensures !i.prefetched && !i.moreIn && i.fq != [] ==>
              r.0 == Some(IdFrame(pipes[i.fq[0].0].identity)) && r.1.prefetched && r.1.identitySent &&
              r.1.prefetchedMsg == Some(i.fq[0].1)
  {
    if i.prefetched then
      if !i.identitySent then (Some(i.prefetchedId), i.(identitySent := true, moreIn := i.prefetchedId.more))
      else (i.prefetchedMsg, i.(prefetched := false, moreIn := i.prefetchedMsg.value.more))
    else if i.fq == [] then (None, i)
    else
      var p := i.fq[0].0;
      var m := i.fq[0].1;
      if i.moreIn then (Some(m), i.(fq := i.fq[1..], moreIn := m.more))
      else (Some(IdFrame(pipes[p].identity)), i.(fq := i.fq[1..], prefetchedMsg := Some(m), prefetched := true, identitySent := true))
  }

  /** `xhas_in`: a message is available, prefetching it if need be. */
  function HasInStep(i: Inbound, pipes: map<PipeId, Pipe>): (r: (bool, Inbound))
    requires InOk(i, pipes)
    ensures InOk(r.1, pipes)
    ensures r.0 <==> i.moreIn || i.prefetched || i.fq != []
    ensures r.1.fq == i.fq || (i.fq != [] && r.1.fq == i.fq[1..])
    ensures i.moreIn || i.prefetched ==> r.1 == i
  {
    if i.moreIn then (true, i)
    else if i.prefetched then (true, i)
    else if i.fq == [] then (false, i.(prefetchedMsg := None))
    else
      var p := i.fq[0].0;
      (true, i.(fq := i.fq[1..], prefetchedMsg := Some(i.fq[0].1), prefetchedId := IdFrame(pipes[p].identity),
                prefetched := true, identitySent := false))
  }

  /** `n` calls of `xrecv`. */
  function RecvAll(i: Inbound, pipes: map<PipeId, Pipe>, n: nat): (r: (seq<Option<Msg>>, Inbound))
    requires InOk(i, pipes)
    ensures |r.0| == n && InOk(r.1, pipes)
    decreases n
  {
    if n == 0 then ([], i)
    else
      var s := RecvStep(i, pipes);
      var rest := RecvAll(s.1, pipes, n - 1);
      ([s.0] + rest.0, rest.1)
  }

  /** Two `xrecv` calls, then the rest. */
  lemma RecvAllTwo(i: Inbound, pipes: map<PipeId, Pipe>, n: nat)
    requires InOk(i, pipes)
    ensures var s1 := RecvStep(i, pipes); var s2 := RecvStep(s1.1, pipes); var tail := RecvAll(s2.1, pipes, n);
            RecvAll(i, pipes, n + 2) == ([s1.0, s2.0] + tail.0, tail.1)
  {
    var s1 := RecvStep(i, pipes);
    var s2 := RecvStep(s1.1, pipes);
    var tail := RecvAll(s2.1, pipes, n);
    assert RecvAll(s1.1, pipes, n + 1) == ([s2.0] + tail.0, tail.1);
    assert [s1.0] + ([s2.0] + tail.0) == [s1.0, s2.0] + tail.0;
  }

  /** The parts after the first, received in the middle of a message. */
  lemma {:induction false} RecvTail(i: Inbound, pipes: map<PipeId, Pipe>, p: PipeId, ms: seq<Msg>, rest: seq<(PipeId, Msg)>)
    requires InOk(i, pipes) && !i.prefetched && i.moreIn && Parts(ms)
    requires i.fq == Tagged(p, ms) + rest
    ensures var r := RecvAll(i, pipes, |ms|);
            (forall k | 0 <= k < |ms| :: r.0[k] == Some(ms[k])) &&
            r.1 == i.(fq := rest, moreIn := false)
    decreases |ms|
  {
    var i1 := i.(fq := i.fq[1..], moreIn := ms[0].more);
    assert RecvStep(i, pipes) == (Some(ms[0]), i1);
    if |ms| > 1 {
      assert i1.fq == Tagged(p, ms[1..]) + rest;
      RecvTail(i1, pipes, p, ms[1..], rest);
    } else {
      assert i1.fq == rest;
    }
  }

  /** A whole message from pipe `p`: its identity flagged MORE, then its
      parts in order; afterwards the router is between messages again. */
  lemma RecvEnvelope(i: Inbound, pipes: map<PipeId, Pipe>, p: PipeId, ms: seq<Msg>, rest: seq<(PipeId, Msg)>)
    requires InOk(i, pipes) && !i.prefetched && !i.moreIn && Parts(ms)
    requires i.fq == Tagged(p, ms) + rest
    ensures var r := RecvAll(i, pipes, |ms| + 1);
            r.0[0] == Some(IdFrame(pipes[p].identity)) &&
            (forall k | 0 <= k < |ms| :: r.0[k + 1] == Some(ms[k])) &&
            r.1.fq == rest && !r.1.prefetched && !r.1.moreIn
  {
    var s1 := RecvStep(i, pipes);
    var s2 := RecvStep(s1.1, pipes);
    assert s2.0 == Some(ms[0]) && s2.1.moreIn == ms[0].more && !s2.1.prefetched;
    assert s2.1.fq == Tagged(p, ms[1..]) + rest;
    var tail := RecvAll(s2.1, pipes, |ms| - 1);
    RecvAllTwo(i, pipes, |ms| - 1);
    if |ms| > 1 {
      RecvTail(s2.1, pipes, p, ms[1..], rest);
    } else {
      assert tail.1 == s2.1;
    }
  }

  /** Asking `xhas_in` first changes nothing about what the next two
      `xrecv` calls return or where they leave the queue. */
  lemma PrefetchTransparent(i: Inbound, pipes: map<PipeId, Pipe>)
    requires InOk(i, pipes) && !i.prefetched && !i.moreIn && i.fq != []
    ensures var h := HasInStep(i, pipes);
            var a := RecvAll(h.1, pipes, 2);
            var b := RecvAll(i, pipes, 2);
            h.0 && a.0 == b.0 && a.1.fq == b.1.fq &&
            a.1.moreIn == b.1.moreIn && a.1.prefetched == b.1.prefetched
  {
    var h := HasInStep(i, pipes);
    RecvAllTwo(h.1, pipes, 0);
    RecvAllTwo(i, pipes, 0);
    var m := i.fq[0].1;
    var id := IdFrame(pipes[i.fq[0].0].identity);
    var j := i.(fq := i.fq[1..]);
    assert h.1 == j.(prefetchedMsg := Some(m), prefetchedId := id, prefetched := true, identitySent := false);
    assert RecvStep(h.1, pipes) == (Some(id), h.1.(identitySent := true, moreIn := true));
    assert RecvStep(i, pipes) == (Some(id), j.(prefetchedMsg := Some(m), prefetched := true, identitySent := true));
  }

  // ---------------------------------------------------------------------
  // The socket

  /** The router's record of its peers. */
  datatype Peers = Peers(pipes: map<PipeId, Pipe>, anonymous: set<PipeId>, attached: set<PipeId>,
                         outpipes: map<seq<byte>, Outpipe>, fq: seq<(PipeId, Msg)>, nextPeerId: int)

  /** Every pipe is anonymous or attached, never both; each entry of
      `outpipes` names an attached pipe whose identity is the entry's key;
      the fair queue only holds parts of attached pipes; the counter is a
      Java `int`. */
  predicate Tables(t: Peers) {
    t.anonymous <= t.pipes.Keys && t.attached <= t.pipes.Keys && t.anonymous !! t.attached &&
    (forall id | id in t.outpipes :: t.outpipes[id].pipe in t.attached && t.pipes[t.outpipes[id].pipe].identity == id) &&
    (forall k | 0 <= k < |t.fq| :: t.fq[k].0 in t.attached) &&
    INT32_MIN <= t.nextPeerId <= INT32_MAX
  }

  /** `identify_peer` followed by `fq.attach` on success, or by parking the
      pipe among the anonymous ones on failure, keeps the tables consistent. */
  lemma IdentifyKeepsTables(t: Peers, p: PipeId)
    requires Tables(t) && p in t.pipes && p !in t.attached
    ensures var r := Identify(t.pipes, t.outpipes, t.nextPeerId, p);
            if r.ok then
              Tables(Peers(r.pipes[p := r.pipes[p].(queue := [])], t.anonymous - {p}, t.attached + {p}, r.outpipes,
                           t.fq + Tagged(p, r.pipes[p].queue), r.nextPeerId))
            else
              Tables(Peers(r.pipes, t.anonymous + {p}, t.attached, r.outpipes, t.fq, r.nextPeerId))
  {
    var r := Identify(t.pipes, t.outpipes, t.nextPeerId, p);
    if r.ok {
      var ps := r.pipes[p := r.pipes[p].(queue := [])];
      var fq' := t.fq + Tagged(p, r.pipes[p].queue);
      forall id | id in r.outpipes
        ensures r.outpipes[id].pipe in t.attached + {p} && ps[r.outpipes[id].pipe].identity == id
      {
        if id != r.pipes[p].identity {
          assert r.outpipes[id] == t.outpipes[id];
        }
      }
      forall k | 0 <= k < |fq'|
        ensures fq'[k].0 in t.attached + {p}
      {
        if k >= |t.fq| {
          assert fq'[k] == Tagged(p, r.pipes[p].queue)[k - |t.fq|];
        }
      }
    }
  }

  /** `identify_peer` on a pipe the fair queue does not read from, then
      `fq.attach` when the peer is identified; otherwise the pipe stays (or
      becomes) anonymous. This is `xattach_pipe` for a new pipe and the
      second branch of `xread_activated` for an anonymous one. */
  function Admit(t: Peers, p: PipeId): (r: Peers)
    requires Tables(t) && p in t.pipes && p !in t.attached
    ensures Tables(r)
    // The pipe ends up read by the fair queue or anonymous, never both.
    ensures p in r.attached <==> p !in r.anonymous
    ensures r.attached - {p} == t.attached && r.anonymous - {p} == t.anonymous - {p}
    ensures var id := Identify(t.pipes, t.outpipes, t.nextPeerId, p);
            r.outpipes == id.outpipes && r.nextPeerId == id.nextPeerId && (p in r.attached <==> id.ok)
  {
    var id := Identify(t.pipes, t.outpipes, t.nextPeerId, p);
    IdentifyKeepsTables(t, p);
    if id.ok then
      Peers(id.pipes[p := id.pipes[p].(queue := [])], t.anonymous - {p}, t.attached + {p}, id.outpipes,
            t.fq + Tagged(p, id.pipes[p].queue), id.nextPeerId)
    else
      Peers(id.pipes, t.anonymous + {p}, t.attached, id.outpipes, t.fq, id.nextPeerId)
  }

  /** `xterminated` on an identified pipe keeps the tables consistent, and
      no entry of `outpipes` is left pointing at the pipe. */
  lemma TerminateKeepsTables(t: Peers, p: PipeId)
    requires Tables(t) && p in t.pipes && p !in t.anonymous
    ensures var r := t.(attached := t.attached - {p}, outpipes := t.outpipes - {t.pipes[p].identity}, fq := Without(t.fq, p));
            Tables(r) && forall id | id in r.outpipes :: r.outpipes[id].pipe != p
  {
    var fq' := Without(t.fq, p);
    forall k | 0 <= k < |fq'|
      ensures fq'[k].0 in t.attached - {p}
    {
      assert fq'[k] in t.fq;
    }
  }

  /** `xterminated` on an identified pipe as it runs with Java assertions
      disabled, the JVM default: the `outpipes.remove` inside the `assert`
      never runs, so the peer's entry stays behind. */
  function TerminateAsWritten(t: Peers, p: PipeId): (r: Peers)
    requires Tables(t) && p in t.pipes && p !in t.anonymous
    ensures p !in r.attached && forall k | 0 <= k < |r.fq| :: r.fq[k].0 != p
    // The peer keeps its entry in `outpipes`.
    ensures r.outpipes == t.outpipes
  {
    t.(attached := t.attached - {p}, fq := Without(t.fq, p))
  }

  /** With assertions disabled, the entry of a terminated peer still routes
      to its pipe: the tables are no longer consistent, and the next
      message addressed to that identity is written to the terminated
      pipe. */
  lemma StaleRouteAsWritten(t: Peers, p: PipeId)
    requires Tables(t) && p in t.attached && t.pipes[p].identity in t.outpipes
    requires t.outpipes[t.pipes[p].identity].pipe == p && CheckWrite(t.pipes[p])
    ensures var r := TerminateAsWritten(t, p);
            !Tables(r) &&
            SendStep(Outbound(r.pipes, r.outpipes, None, false), false, Msg(t.pipes[p].identity, true, false)).1.currentOut
              == Some(p)
  {
    var r := TerminateAsWritten(t, p);
    var id := t.pipes[p].identity;
    assert r.outpipes[id].pipe !in r.attached;
  }

  class Router {
    var pipes: map<PipeId, Pipe>
    var anonymous: set<PipeId>
    var outpipes: map<seq<byte>, Outpipe>
    /** The pipes the fair queue reads from, and what it will hand out. */
    var attached: set<PipeId>
    var fq: seq<(PipeId, Msg)>
    var currentOut: Option<PipeId>
    var moreOut: bool
    var nextPeerId: int
    var reportUnroutable: bool
    var prefetched: bool
    var identitySent: bool
    var prefetchedId: Msg
    var prefetchedMsg: Option<Msg>
    var moreIn: bool

    /** The tables are consistent; a target is only held in the middle of a
        message, and is an attached pipe. */
    ghost predicate Valid()
      reads this
    {
      Tables(Table()) &&
      (currentOut.Some? ==> moreOut && currentOut.value in attached) &&
      (prefetched ==> prefetchedMsg.Some?)
    }

    function Table(): Peers
      reads this
    {
      Peers(pipes, anonymous, attached, outpipes, fq, nextPeerId)
    }

    function Out(): Outbound
      reads this
    {
      Outbound(pipes, outpipes, currentOut, moreOut)
    }

    function In(): Inbound
      reads this
    {
      Inbound(fq, prefetched, identitySent, prefetchedId, prefetchedMsg, moreIn)
    }

    /** `Router(parent, tid, sid)`: no peers yet; `seed` stands for
        `Utils.generate_random()`. */
    constructor(pipes: map<PipeId, Pipe>, seed: int)
      requires INT32_MIN <= seed <= INT32_MAX
      ensures Valid()
      ensures this.pipes == pipes && nextPeerId == seed
      ensures anonymous == {} && outpipes == map[] && attached == {} && fq == []
      ensures currentOut.None? && !moreOut && !reportUnroutable
      ensures !prefetched && !identitySent && !moreIn
    {
      this.pipes := pipes;
      anonymous, outpipes, attached, fq := {}, map[], {}, [];
      currentOut, moreOut := None, false;
      nextPeerId := seed;
      reportUnroutable := false;
      prefetched, identitySent, moreIn := false, false, false;
      prefetchedId, prefetchedMsg := Msg([], false, false), Some(Msg([], false, false));
    }

    /** Only the two halves of an entry in `outpipes` point to each other. */
    lemma OutpipeUnique(id1: seq<byte>, id2: seq<byte>)
      requires Valid() && id1 in outpipes && id2 in outpipes && outpipes[id1].pipe == outpipes[id2].pipe
      ensures id1 == id2
    {
    }

    /** `identify_peer`. */
    method IdentifyPeer(p: PipeId) returns (ok: bool)
      requires p in pipes && INT32_MIN <= nextPeerId <= INT32_MAX
      modifies this`pipes, this`outpipes, this`nextPeerId
      ensures Identified(ok, pipes, outpipes, nextPeerId) == Identify(old(pipes), old(outpipes), old(nextPeerId), p)
    {
      if pipes[p].queue == [] {
        return false;
      }
      var m := pipes[p].queue[0];
      pipes := pipes[p := pipes[p].(queue := pipes[p].queue[1..])];
      var id;
      if m.data == [] {
        id := GeneratedId(nextPeerId);
        nextPeerId := NextPeerId(nextPeerId);
      } else {
        id := m.data;
        if id in outpipes {
          return false;
        }
      }
      pipes := pipes[p := pipes[p].(identity := id)];
      outpipes := outpipes[id := Outpipe(p, true)];
      ok := true;
    }

    /** `FQ.attach`: the pipe's waiting messages join the fair queue. */
    method Attach(p: PipeId)
      requires p in pipes
      modifies this`pipes, this`attached, this`fq
      ensures attached == old(attached) + {p}
      ensures fq == old(fq) + Tagged(p, old(pipes[p].queue))
      ensures pipes == old(pipes)[p := old(pipes[p]).(queue := [])]
    {
      attached := attached + {p};
      fq := fq + Tagged(p, pipes[p].queue);
      pipes := pipes[p := pipes[p].(queue := [])];
    }

    /** `xattach_pipe`: a new pipe that names its peer joins the fair queue;
        otherwise it waits among the anonymous pipes. */
    method AttachPipe(p: PipeId)
      requires Valid() && p in pipes && p !in anonymous && p !in attached
      modifies this`pipes, this`outpipes, this`nextPeerId, this`attached, this`fq, this`anonymous
      ensures Valid() && Table() == Admit(old(Table()), p)
    {
      Admission(p);
    }

    /** The common part of `xattach_pipe` and `xread_activated` for a pipe
        the fair queue does not read from: `identify_peer`, then either
        `fq.attach` (the pipe is no longer anonymous) or the anonymous set. */
    method Admission(p: PipeId)
      requires Tables(Table()) && p in pipes && p !in attached
      modifies this`pipes, this`outpipes, this`nextPeerId, this`attached, this`fq, this`anonymous
      ensures Table() == Admit(old(Table()), p)
    {
      ghost var t := Table();
      var ok := IdentifyPeer(p);
      if ok {
        anonymous := anonymous - {p};
        Attach(p);
      } else {
        anonymous := anonymous + {p};
      }
      assert Table() == Admit(t, p);
    }

    /** `xsetsockopt`: only `ZMQ_ROUTER_BEHAVIOR` is handled. */
    method SetSockOpt(option: int, optval: int)
      modifies this`reportUnroutable
      ensures reportUnroutable == if option == ZMQ_ROUTER_BEHAVIOR then optval == 1 else old(reportUnroutable)
    {
      if option != ZMQ_ROUTER_BEHAVIOR {
        return;
      }
      reportUnroutable := optval == 1;
    }

    /** `xterminated`: an anonymous pipe is forgotten; an identified one loses
        its entry, its place in the fair queue and its role as target. The
        removal from `outpipes` is the one inside the assertion, taken to run. */
    method Terminated(p: PipeId)
      requires Valid() && p in pipes && (p in anonymous || pipes[p].identity in outpipes)
      modifies this`anonymous, this`outpipes, this`attached, this`fq, this`currentOut
      ensures Valid()
      ensures p !in anonymous && p !in attached
      ensures forall k | 0 <= k < |fq| :: fq[k].0 != p
      ensures forall id | id in outpipes :: outpipes[id].pipe != p
      ensures currentOut != Some(p)
      ensures old(p in anonymous) ==>
                anonymous == old(anonymous) - {p} && outpipes == old(outpipes) && attached == old(attached) &&
                fq == old(fq) && currentOut == old(currentOut)
      ensures old(p !in anonymous) ==>
                anonymous == old(anonymous) && outpipes == old(outpipes) - {pipes[p].identity} &&
                attached == old(attached) - {p} && fq == Without(old(fq), p) &&
                currentOut == if old(currentOut) == Some(p) then None else old(currentOut)
    {
      if p in anonymous {
        anonymous := anonymous - {p};
        return;
      }
      TerminateKeepsTables(Table(), p);
      outpipes := outpipes - {pipes[p].identity};
      attached := attached - {p};
      fq := Without(fq, p);
      if currentOut == Some(p) {
        currentOut := None;
      }
    }

    /** `xread_activated`: new messages on an attached pipe join the fair
        queue; an anonymous pipe gets another chance to name its peer. */
    method ReadActivated(p: PipeId)
      requires Valid() && p in pipes && (p in anonymous || p in attached)
      modifies this`pipes, this`outpipes, this`nextPeerId, this`attached, this`fq, this`anonymous
      ensures Valid()
      ensures old(p in attached) ==>
                attached == old(attached) && anonymous == old(anonymous) && outpipes == old(outpipes) &&
                nextPeerId == old(nextPeerId) &&
                fq == old(fq) + Tagged(p, old(pipes[p].queue)) && pipes == old(pipes)[p := old(pipes[p]).(queue := [])]
      ensures old(p in anonymous) ==> Table() == Admit(old(Table()), p)
    {
      if p !in anonymous {
        Activated(p);
      } else {
        Admission(p);
      }
    }

    /** `FQ.activated` for an attached pipe: its new messages join the fair
        queue. */
    method Activated(p: PipeId)
      requires Valid() && p in attached
      modifies this`pipes, this`attached, this`fq
      ensures Valid()
      ensures attached == old(attached)
      ensures fq == old(fq) + Tagged(p, old(pipes[p].queue))
      ensures pipes == old(pipes)[p := old(pipes[p]).(queue := [])]
    {
      ghost var ps := pipes[p := pipes[p].(queue := [])];
      assert Tables(Peers(ps, anonymous, attached, outpipes, fq + Tagged(p, pipes[p].queue), nextPeerId)) by {
        forall id | id in outpipes
          ensures ps[outpipes[id].pipe].identity == id
        {
        }
      }
      Attach(p);
      assert attached == old(attached) + {p};
    }

    /** `xwrite_activated`: the entry of the pipe, which must be inactive,
        becomes active. Entries are unique per pipe, so the order in which
        the map is searched does not matter. */
    method WriteActivated(p: PipeId)
      requires Valid() && exists id :: id in outpipes && outpipes[id].pipe == p && !outpipes[id].active
      modifies this`outpipes
      ensures Valid()
      ensures outpipes.Keys == old(outpipes).Keys
      ensures forall id | id in outpipes ::
                outpipes[id] == if old(outpipes[id]).pipe == p then Outpipe(p, true) else old(outpipes[id])
    {
      var id :| id in outpipes && outpipes[id].pipe == p && !outpipes[id].active;
      forall id2 | id2 in outpipes && outpipes[id2].pipe == p
        ensures id2 == id
      {
        OutpipeUnique(id, id2);
      }
      outpipes := outpipes[id := outpipes[id].(active := true)];
    }

    /** `xsend`. */
    method Send(m: Msg) returns (ok: bool)
      requires Valid()
      modifies this`pipes, this`outpipes, this`currentOut, this`moreOut
      ensures Valid()
      ensures (ok, Out()) == SendStep(old(Out()), reportUnroutable, m)
    {
      if !moreOut {
        if m.more {
          moreOut := true;
          if m.data in outpipes {
            var op := outpipes[m.data];
            currentOut := Some(op.pipe);
            if !CheckWrite(pipes[op.pipe]) {
              outpipes := outpipes[m.data := op.(active := false)];
              currentOut := None;
            }
          } else if reportUnroutable {
            moreOut := false;
            return false;
          }
        }
        return true;
      }
      moreOut := m.more;
      if currentOut.Some? {
        var c := currentOut.value;
        var w := Write(pipes[c], m);
        if !w.0 {
          currentOut := None;
        } else if !moreOut {
          pipes := pipes[c := Flush(w.1)];
          currentOut := None;
        } else {
          pipes := pipes[c := w.1];
        }
      }
      ok := true;
    }

    /** `xrecv`. */
    method Recv() returns (m: Option<Msg>)
      requires Valid()
      modifies this`fq, this`prefetched, this`identitySent, this`prefetchedMsg, this`moreIn
      ensures Valid()
      ensures (m, In()) == RecvStep(old(In()), pipes)
    {
      if prefetched {
        if !identitySent {
          m := Some(prefetchedId);
          identitySent := true;
        } else {
          m := prefetchedMsg;
          prefetched := false;
        }
        moreIn := m.value.more;
        return;
      }
      if fq == [] {
        return None;
      }
      var p := fq[0].0;
      var msg := fq[0].1;
      fq := fq[1..];
      if moreIn {
        moreIn := msg.more;
        m := Some(msg);
      } else {
        prefetchedMsg := Some(msg);
        prefetched := true;
        m := Some(IdFrame(pipes[p].identity));
        identitySent := true;
      }
    }

    /** `rollback`: drop the unflushed parts of the message being sent. */
    method Rollback()
      requires Valid()
      modifies this`pipes, this`currentOut, this`moreOut
      ensures Valid()
      ensures Out() == RollbackOut(old(Out()))
    {
      if currentOut.Some? {
        var c := currentOut.value;
        pipes := pipes[c := RollbackPipe(pipes[c])];
        currentOut := None;
        moreOut := false;
      }
    }

    /** `xhas_in`. */
    method HasIn() returns (has: bool)
      requires Valid()
      modifies this`fq, this`prefetched, this`identitySent, this`prefetchedId, this`prefetchedMsg
      ensures Valid()
      ensures (has, In()) == HasInStep(old(In()), pipes)
    {
      if moreIn {
        return true;
      }
      if prefetched {
        return true;
      }
      if fq == [] {
        prefetchedMsg := None;
        return false;
      }
      var p := fq[0].0;
      prefetchedMsg := Some(fq[0].1);
      fq := fq[1..];
      prefetchedId := IdFrame(pipes[p].identity);
      prefetched := true;
      identitySent := false;
      has := true;
    }

    /** `xhas_out`: a ROUTER can always be written to. */
    method HasOut() returns (has: bool)
      ensures has
    {
      has := true;
    }
  }
}
