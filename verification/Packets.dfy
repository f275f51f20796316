/**
  Packets sent to AmigaDOS handlers and the ports their replies come back to.
  A packet's dp_Port is nonzero while it is under way; it is all the process
  looks at to decide whether to send a packet, or to wait for one.
 */
module Packets {

  /** Each file has a packet for calls that wait at once, and one for select. */
  datatype Packet = Main(file: nat) | Sel(file: nat)

  datatype Port = SyncPort | SelectPort

  /**
    dpPort: the packets whose dp_Port is nonzero, with that port.
    handler: those that a handler holds.  sync, sel: the replies queued at the
    two ports of the process, in order of arrival.
   */
  datatype Sys = Sys(dpPort: map<Packet, Port>, handler: set<Packet>, sync: seq<Packet>, sel: seq<Packet>)

  function Queue(s: Sys, port: Port): seq<Packet> {
    if port.SyncPort? then s.sync else s.sel
  }

  function SetQueue(s: Sys, port: Port, q: seq<Packet>): Sys {
    if port.SyncPort? then s.(sync := q) else s.(sel := q)
  }

  ghost predicate Distinct(q: seq<Packet>) {
    forall i, j :: 0 <= i < j < |q| ==> q[i] != q[j]
  }

  /** A packet's dp_Port is nonzero exactly while it is at the handler or queued at that port. */
  ghost predicate Inv(s: Sys) {
    && (forall p :: p in s.dpPort <==> p in s.handler || p in s.sync || p in s.sel)
    && (forall p :: p in s.sync ==> p in s.dpPort && s.dpPort[p] == SyncPort && p !in s.handler)
    && (forall p :: p in s.sel ==> p in s.dpPort && s.dpPort[p] == SelectPort && p !in s.handler)
    && Distinct(s.sync) && Distinct(s.sel)
  }

  // ------------------------------------------------------------- single steps

  /** SendPacket: note the reply port and hand the packet to the handler. */
  function Send(s: Sys, p: Packet, port: Port): Sys {
    s.(dpPort := s.dpPort[p := port], handler := s.handler + {p})
  }

  /** The handler replies. */
  function Reply(s: Sys, p: Packet): Sys
    requires p in s.dpPort
  {
    var port := s.dpPort[p];
    SetQueue(s.(handler := s.handler - {p}), port, Queue(s, port) + [p])
  }

  /** GetPacket of the first reply, whose dp_Port is then cleared. */
  function Take(s: Sys, port: Port): Sys
    requires Queue(s, port) != []
  {
    SetQueue(s.(dpPort := s.dpPort - {Queue(s, port)[0]}), port, Queue(s, port)[1..])
  }

  lemma SendInv(s: Sys, p: Packet, port: Port)
    requires Inv(s) && p !in s.dpPort
    ensures Inv(Send(s, p, port))
  {
  }

  lemma DistinctAppend(q: seq<Packet>, p: Packet)
    requires Distinct(q) && p !in q
    ensures Distinct(q + [p])
    ensures forall x :: x in q + [p] <==> x in q || x == p
  {
  }

  lemma ReplyInv(s: Sys, p: Packet)
    requires Inv(s) && p in s.handler
    ensures Inv(Reply(s, p))
  {
    var q := Queue(s, s.dpPort[p]);
    DistinctAppend(q, p);
    hide Distinct;
  }

  lemma TakeInv(s: Sys, port: Port)
    requires Inv(s) && Queue(s, port) != []
    ensures Inv(Take(s, port)) && Queue(s, port)[0] in s.dpPort && s.dpPort[Queue(s, port)[0]] == port
  {
    var q := Queue(s, port);
    assert forall x :: x in q <==> x == q[0] || x in q[1..];
    assert q[0] !in q[1..];
  }

  // ------------------------------------------------------------------ waiting

  /** The replies still to come, in order, include the one waited for. */
  ghost predicate Willing(s: Sys, sp: Packet, replies: seq<Packet>) {
    && Distinct(replies) && (forall i :: 0 <= i < |replies| ==> replies[i] in s.handler)
    && (sp in s.handler ==> sp in replies)
  }

  lemma BlockedMeansPending(s: Sys, port: Port, sp: Packet, replies: seq<Packet>)
    requires Inv(s) && sp in s.dpPort && s.dpPort[sp] == port && Queue(s, port) == [] && Willing(s, sp, replies)
    ensures replies != [] && replies[0] in s.handler && replies[0] in s.dpPort
    ensures Inv(Reply(s, replies[0])) && Willing(Reply(s, replies[0]), sp, replies[1..])
    ensures sp in Reply(s, replies[0]).dpPort && Reply(s, replies[0]).dpPort[sp] == port
  {
    assert sp in s.handler;
    ReplyInv(s, replies[0]);
    assert forall x :: x in replies <==> x == replies[0] || x in replies[1..];
  }

  lemma TakenMeansConsumed(s: Sys, port: Port, sp: Packet, replies: seq<Packet>)
    requires Inv(s) && sp in s.dpPort && s.dpPort[sp] == port && Queue(s, port) != [] && Willing(s, sp, replies)
    ensures Inv(Take(s, port)) && Queue(s, port)[0] !in Take(s, port).dpPort
    ensures Queue(s, port)[0] != sp ==>
              && sp in Take(s, port).dpPort && Take(s, port).dpPort[sp] == port
              && Willing(Take(s, port), sp, replies)
  {
    TakeInv(s, port);
  }

  /**
    __wait_sync_packet and __wait_select_packet: the state on return, and the
    replies that had not been needed by then.
   */
  ghost function Wait(s: Sys, port: Port, sp: Packet, replies: seq<Packet>): (r: (Sys, seq<Packet>))
    requires Inv(s) && Willing(s, sp, replies) && (sp in s.dpPort ==> s.dpPort[sp] == port)
    ensures Inv(r.0) && sp !in r.0.dpPort
    decreases |replies|, |Queue(s, port)|
  {
    if sp !in s.dpPort then (s, replies)
    else if Queue(s, port) != [] then
      TakenMeansConsumed(s, port, sp, replies);
      if Queue(s, port)[0] == sp then (Take(s, port), replies) else Wait(Take(s, port), port, sp, replies)
    else
      BlockedMeansPending(s, port, sp, replies);
      Wait(Reply(s, replies[0]), port, sp, replies[1..])
  }

  /** Those of the replies that come to the given port. */
  ghost function To(s: Sys, port: Port, replies: seq<Packet>): (r: seq<Packet>)
    requires forall i :: 0 <= i < |replies| ==> replies[i] in s.dpPort
    ensures forall p :: p in r <==> p in replies && s.dpPort[p] == port
  {
    if replies == [] then []
    else (if s.dpPort[replies[0]] == port then [replies[0]] else []) + To(s, port, replies[1..])
  }

  /** Everything that arrives at the port, from what is queued to what is still to come. */
  ghost function Arrivals(s: Sys, port: Port, replies: seq<Packet>): seq<Packet>
    requires forall i :: 0 <= i < |replies| ==> replies[i] in s.dpPort
  {
    Queue(s, port) + To(s, port, replies)
  }

  lemma {:induction false} ToSame(s: Sys, t: Sys, port: Port, replies: seq<Packet>)
    requires forall i :: 0 <= i < |replies| ==> replies[i] in s.dpPort && replies[i] in t.dpPort
                                                && s.dpPort[replies[i]] == t.dpPort[replies[i]]
    ensures To(s, port, replies) == To(t, port, replies)
  {
    if replies != [] { ToSame(s, t, port, replies[1..]); }
  }

  lemma RepliesKnown(s: Sys, sp: Packet, replies: seq<Packet>)
    requires Inv(s) && Willing(s, sp, replies)
    ensures forall i :: 0 <= i < |replies| ==> replies[i] in s.dpPort && replies[i] !in s.sync && replies[i] !in s.sel
  {
  }

  lemma ArrivalsAfterTake(s: Sys, port: Port, sp: Packet, replies: seq<Packet>)
    requires Inv(s) && Willing(s, sp, replies) && Queue(s, port) != []
    ensures forall i :: 0 <= i < |replies| ==> replies[i] in s.dpPort && replies[i] in Take(s, port).dpPort
    ensures Arrivals(s, port, replies) == [Queue(s, port)[0]] + Arrivals(Take(s, port), port, replies)
  {
    RepliesKnown(s, sp, replies);
    hide Inv, Willing, Distinct, To;
    var q, t := Queue(s, port), Take(s, port);
    NotTheFirst(q, s, port, replies);
    ToSame(s, t, port, replies);
    Regroup(q, To(s, port, replies));
  }

  lemma NotTheFirst(q: seq<Packet>, s: Sys, port: Port, replies: seq<Packet>)
    requires q != [] && q == Queue(s, port)
    requires forall i :: 0 <= i < |replies| ==> replies[i] !in s.sync && replies[i] !in s.sel
    ensures forall i :: 0 <= i < |replies| ==> replies[i] != q[0]
  {
    assert q[0] in q;
  }

  lemma Regroup(q: seq<Packet>, r: seq<Packet>)
    requires q != []
    ensures q + r == [q[0]] + (q[1..] + r)
  {
  }

  lemma ArrivalsAfterReply(s: Sys, port: Port, sp: Packet, replies: seq<Packet>)
    requires Inv(s) && Willing(s, sp, replies) && Queue(s, port) == [] && replies != []
    ensures forall i :: 0 <= i < |replies| ==> replies[i] in s.dpPort
    ensures Arrivals(s, port, replies) == Arrivals(Reply(s, replies[0]), port, replies[1..])
  {
    RepliesKnown(s, sp, replies);
    var first := if s.dpPort[replies[0]] == port then [replies[0]] else [];
    assert To(s, port, replies) == first + To(s, port, replies[1..]);
    hide Inv, Willing, Distinct, To;
    var t := Reply(s, replies[0]);
    ToSame(s, t, port, replies[1..]);
    assert [] + first == first && [] + To(s, port, replies) == To(s, port, replies);
    assert Queue(t, port) == first;
  }

  /** From s to t the packets of gone, and no others, had their dp_Port cleared. */
  ghost predicate Cleared(s: Sys, t: Sys, gone: seq<Packet>) {
    && (forall p :: p in t.dpPort <==> p in s.dpPort && p !in gone)
    && (forall p :: p in t.dpPort ==> t.dpPort[p] == s.dpPort[p])
  }

  lemma ClearedByTake(s: Sys, port: Port, t: Sys, gone: seq<Packet>)
    requires Queue(s, port) != []
    requires Cleared(Take(s, port), t, gone)
    ensures Cleared(s, t, [Queue(s, port)[0]] + gone)
  {
    var x := Queue(s, port)[0];
    assert forall p :: p in [x] + gone <==> p == x || p in gone;
  }

  lemma ClearedByReply(s: Sys, x: Packet, t: Sys, gone: seq<Packet>)
    requires x in s.dpPort && Cleared(Reply(s, x), t, gone)
    ensures Cleared(s, t, gone)
  {
  }

  lemma FirstAfterHead(x: Packet, b: seq<Packet>, sp: Packet, i: nat)
    requires var a := [x] + b; i < |a| && a[i] == sp && sp !in a[..i]
    ensures x == sp ==> i == 0
    ensures x != sp ==> 0 < i <= |b| && b[i - 1] == sp && sp !in b[..i - 1]
    ensures ([x] + b)[..i + 1] == [x] + b[..i]
  {
    var a := [x] + b;
    assert i > 0 ==> a[..i][0] == x && a[..i] == [x] + b[..i - 1];
  }

  /**
    A wait returns once its own reply has come in, not before: it clears the
    packets that arrived at its port up to and including its own, in order,
    and no others.
   */
  lemma {:induction false} WaitClears(s: Sys, port: Port, sp: Packet, replies: seq<Packet>, i: nat)
    requires Inv(s) && Willing(s, sp, replies) && sp in s.dpPort && s.dpPort[sp] == port
    requires forall k :: 0 <= k < |replies| ==> replies[k] in s.dpPort
    requires var a := Arrivals(s, port, replies); i < |a| && a[i] == sp && sp !in a[..i]
    ensures Cleared(s, Wait(s, port, sp, replies).0, Arrivals(s, port, replies)[..i + 1])
    decreases |replies|, |Queue(s, port)|
  {
    hide Inv, Willing, Distinct, To, Arrivals, Cleared;
    if Queue(s, port) != [] {
      TakenMeansConsumed(s, port, sp, replies);
      ArrivalsAfterTake(s, port, sp, replies);
      var x, t := Queue(s, port)[0], Take(s, port);
      var b := Arrivals(t, port, replies);
      FirstAfterHead(x, b, sp, i);
      if x == sp {
        ClearedBySelf(t);
        assert b[..0] == [];
        ClearedByTake(s, port, t, b[..0]);
      } else {
        WaitClears(t, port, sp, replies, i - 1);
        ClearedByTake(s, port, Wait(t, port, sp, replies).0, b[..i]);
      }
    } else {
      BlockedMeansPending(s, port, sp, replies);
      ArrivalsAfterReply(s, port, sp, replies);
      WaitClears(Reply(s, replies[0]), port, sp, replies[1..], i);
      ClearedByReply(s, replies[0], Wait(s, port, sp, replies).0, Arrivals(s, port, replies)[..i + 1]);
    }
  }

  lemma ClearedBySelf(s: Sys)
    ensures Cleared(s, s, [])
  {
  }

  /** Its own reply does come: it is queued already, or among those the handler will send. */
  lemma OwnReplyArrives(s: Sys, port: Port, sp: Packet, replies: seq<Packet>) returns (i: nat)
    requires Inv(s) && Willing(s, sp, replies) && sp in s.dpPort && s.dpPort[sp] == port
    ensures forall k :: 0 <= k < |replies| ==> replies[k] in s.dpPort
    ensures var a := Arrivals(s, port, replies); i < |a| && a[i] == sp && sp !in a[..i]
  {
    RepliesKnown(s, sp, replies);
    var a := Arrivals(s, port, replies);
    assert sp in Queue(s, port) || sp in To(s, port, replies);
    assert sp in a;
    i := FirstOf(a, sp);
  }

  lemma {:induction false} FirstOf(a: seq<Packet>, p: Packet) returns (i: nat)
    requires p in a
    ensures i < |a| && a[i] == p && p !in a[..i]
  {
    if a[0] == p {
      i := 0;
    } else {
      i := FirstOf(a[1..], p);
      assert a[..i + 1] == [a[0]] + a[1..][..i];
      i := i + 1;
    }
  }

  // ---------------------------------------------------------- whole runs

  /** handle_select_port: take in everything queued at the select port. */
  ghost function Drain(s: Sys): (t: Sys)
    requires Inv(s)
    ensures Inv(t) && t.sel == []
    decreases |s.sel|
  {
    if s.sel == [] then s else TakeInv(s, SelectPort); Drain(Take(s, SelectPort))
  }

  /** Select packets that were drained are free again; the others are as before. */
  lemma {:induction false} DrainFrees(s: Sys)
    requires Inv(s)
    ensures var t := Drain(s);
            && t.handler == s.handler && t.sync == s.sync
            && (forall p :: p in t.dpPort <==> p in s.dpPort && p !in s.sel)
            && (forall p :: p in t.dpPort ==> t.dpPort[p] == s.dpPort[p])
    decreases |s.sel|
  {
    if s.sel != [] {
      TakeInv(s, SelectPort);
      DrainFrees(Take(s, SelectPort));
      assert forall p :: p in s.sel <==> p == s.sel[0] || p in s.sel[1..];
    }
  }

  /** What a process does, and what handlers do in between. */
  datatype Event =
    | Prepare(file: nat)
    | DrainSelect
    | WaitSelect(file: nat, replies: seq<Packet>)
    | CallSync(file: nat, replies: seq<Packet>)
    | Answer(packet: Packet)

  /** Between calls no synchronous packet is under way. */
  ghost predicate Quiet(s: Sys) {
    Inv(s) && forall p :: p in s.dpPort ==> p.Sel? && s.dpPort[p] == SelectPort
  }

  ghost predicate Allowed(s: Sys, e: Event)
    requires Quiet(s)
  {
    match e
    case Prepare(_) => true
    case DrainSelect => true
    case WaitSelect(f, replies) => Willing(s, Sel(f), replies)
    case CallSync(f, replies) => Willing(Send(s, Main(f), SyncPort), Main(f), replies)
    case Answer(p) => p in s.handler
  }

  /** The packet an event puts under way, if any. */
  ghost predicate Sends(s: Sys, e: Event, p: Packet) {
    (e.Prepare? && p == Sel(e.file) && p !in s.dpPort) || (e.CallSync? && p == Main(e.file))
  }

  ghost function Step(s: Sys, e: Event): (t: Sys)
    requires Quiet(s) && Allowed(s, e)
    ensures Inv(t)
  {
    match e
    case Prepare(f) =>
      if Sel(f) in s.dpPort then s else SendInv(s, Sel(f), SelectPort); Send(s, Sel(f), SelectPort)
    case DrainSelect => Drain(s)
    case WaitSelect(f, replies) => Wait(s, SelectPort, Sel(f), replies).0
    case CallSync(f, replies) =>
      SendInv(s, Main(f), SyncPort);
      Wait(Send(s, Main(f), SyncPort), SyncPort, Main(f), replies).0
    case Answer(p) => ReplyInv(s, p); Reply(s, p)
  }

  /**
    Every event keeps the protocol: dp_Port stays exact, no synchronous packet
    is left under way, and no packet is sent that is under way already.
   */
  lemma StepKeeps(s: Sys, e: Event)
    requires Quiet(s) && Allowed(s, e)
    ensures Quiet(Step(s, e))
    ensures forall p :: Sends(s, e, p) ==> p !in s.dpPort && p !in s.handler && p !in s.sync && p !in s.sel
    ensures e.WaitSelect? ==> Sel(e.file) !in Step(s, e).dpPort
  {
    match e
    case Prepare(f) =>
    case DrainSelect => DrainFrees(s);
    case WaitSelect(f, replies) =>
      if Sel(f) in s.dpPort {
        var i := OwnReplyArrives(s, SelectPort, Sel(f), replies);
        WaitClears(s, SelectPort, Sel(f), replies, i);
      }
    case CallSync(f, replies) =>
      SendInv(s, Main(f), SyncPort);
      var t := Send(s, Main(f), SyncPort);
      var i := OwnReplyArrives(t, SyncPort, Main(f), replies);
      WaitClears(t, SyncPort, Main(f), replies, i);
    case Answer(p) => ReplyInv(s, p);
  }

  ghost predicate Legal(s: Sys, run: seq<Event>)
    requires Quiet(s)
    decreases |run|
  {
    run != [] ==> Allowed(s, run[0]) && (StepKeeps(s, run[0]); Legal(Step(s, run[0]), run[1..]))
  }

  ghost function After(s: Sys, run: seq<Event>): (t: Sys)
    requires Quiet(s) && Legal(s, run)
    ensures Quiet(t)
    decreases |run|
  {
    if run == [] then s else StepKeeps(s, run[0]); After(Step(s, run[0]), run[1..])
  }

  // ------------------------------------------------------------- the routines

  /** What a handler writes into a packet it replies: dp_Res1 and dp_Res2. */
  datatype Result = Result(value: int, error: int)

  /** dos-true is -1. */
  predicate Positive(r: Result) {
    r.error != 0 || r.value % 2 != 0
  }

  datatype Answered = Answered(packet: Packet, result: Result)

  /** Answers that handlers can give while the process waits: to packets they hold, each once. */
  ghost predicate Possible(s: Sys, answers: seq<Answered>) {
    && (forall i :: 0 <= i < |answers| ==> answers[i].packet in s.handler)
    && (forall i, j :: 0 <= i < j < |answers| ==> answers[i].packet != answers[j].packet)
  }

  /** The packet is neither at a handler nor queued, and may be sent. */
  ghost predicate Idle(s: Sys, p: Packet) {
    p !in s.handler && p !in s.sync && p !in s.sel
  }

  class Process {
    /** The system as it is now. */
    var sys: Sys

    /** The result fields of each file's select packet. */
    var results: map<nat, Result>

    constructor ()
      ensures Quiet(sys) && sys == Sys(map[], {}, [], [])
    {
      sys := Sys(map[], {}, [], []);
      results := map[];
    }

    function SelResult(file: nat): Result
      reads this
    {
      if file in results then results[file] else Result(0, 0)
    }

    /** A handler replies. */
    method Answer(a: Answered)
      requires Quiet(sys) && a.packet in sys.handler
      modifies this
      ensures Quiet(sys) && sys == Step(old(sys), Event.Answer(a.packet))
      ensures results == if a.packet.Sel? then old(results)[a.packet.file := a.result] else old(results)
    {
      StepKeeps(sys, Event.Answer(a.packet));
      sys := Reply(sys, a.packet);
      if a.packet.Sel? {
        results := results[a.packet.file := a.result];
      }
    }

    /** GetPacket, and clearing dp_Port of what it returns. */
    method GetPacket(port: Port) returns (p: Packet)
      requires Inv(sys) && Queue(sys, port) != []
      modifies this`sys
      ensures Inv(sys) && sys == Take(old(sys), port) && p == Queue(old(sys), port)[0]
    {
      TakeInv(sys, port);
      p := Queue(sys, port)[0];
      sys := Take(sys, port);
    }

    /**
      __wait_sync_packet and __wait_select_packet, which differ in the port
      alone.  While the process sleeps in Wait the handlers reply, in the order
      given; rest are the replies it did not have to wait for.
     */
    method WaitPacket(port: Port, sp: Packet, replies: seq<Packet>) returns (rest: seq<Packet>)
      requires Inv(sys) && Willing(sys, sp, replies) && (sp in sys.dpPort ==> sys.dpPort[sp] == port)
      modifies this`sys
      ensures Inv(sys) && sp !in sys.dpPort
      ensures (sys, rest) == Wait(old(sys), port, sp, replies)
      ensures sp !in old(sys).dpPort ==> sys == old(sys) && rest == replies
    {
      rest := replies;
      if sp !in sys.dpPort {
        return;
      }
      while true
        invariant Inv(sys) && sp in sys.dpPort && sys.dpPort[sp] == port && Willing(sys, sp, rest)
        invariant Wait(sys, port, sp, rest) == Wait(old(sys), port, sp, replies)
        decreases |rest|, |Queue(sys, port)|
      {
        if Queue(sys, port) != [] {
          TakenMeansConsumed(sys, port, sp, rest);
          var prw := GetPacket(port);
          if prw == sp {
            break;
          }
        } else {
          BlockedMeansPending(sys, port, sp, rest);
          sys := Reply(sys, rest[0]);
          rest := rest[1..];
        }
      }
    }

    /** handle_select_port */
    method HandleSelectPort()
      requires Inv(sys)
      modifies this`sys
      ensures Inv(sys) && sys == Drain(old(sys))
    {
      while sys.sel != []
        invariant Inv(sys) && Drain(sys) == Drain(old(sys))
        decreases |sys.sel|
      {
        var _ := GetPacket(SelectPort);
      }
    }

    /**
      __fselect, SELCMD_PREPARE: for input, clear the error and send the packet
      unless it is under way.  The result says whether to wait on the select port.
     */
    method FselectPrepare(file: nat, input: bool) returns (listen: bool)
      requires Quiet(sys)
      modifies this
      ensures Quiet(sys) && listen == input
      ensures input ==> sys == Step(old(sys), Prepare(file)) && Sel(file) in sys.dpPort
      ensures input ==> results == old(results)[file := Result(old(SelResult(file)).value, 0)]
      ensures !input ==> sys == old(sys) && results == old(results)
    {
      if !input {
        return false;
      }
      results := results[file := SelResult(file).(error := 0)];
      StepKeeps(sys, Prepare(file));
      if Sel(file) !in sys.dpPort {
        sys := Send(sys, Sel(file), SelectPort);
      }
      listen := true;
    }

    /**
      __fselect, SELCMD_CHECK: other modes than input are always ready.  Input
      is ready once the packet is back with an error or a positive answer; an
      error is reported once.
     */
    method FselectCheck(file: nat, input: bool) returns (ready: bool)
      requires Quiet(sys)
      modifies this`results
      ensures !input ==> ready && results == old(results)
      ensures input && ready ==> Idle(sys, Sel(file))
      ensures input && Idle(sys, Sel(file)) ==> ready == Positive(old(SelResult(file)))
      ensures input && Idle(sys, Sel(file)) ==> SelResult(file) == old(SelResult(file)).(error := 0)
      ensures forall f :: f != file || !Idle(sys, Sel(file)) ==> SelResult(f) == old(SelResult(f))
    {
      if !input {
        return true;
      }
      if Sel(file) in sys.dpPort {
        return false;
      }
      ready := SelResult(file).error != 0 || SelResult(file).value % 2 != 0;
      results := results[file := SelResult(file).(error := 0)];
    }

    /** Handlers answer while the process waits. */
    method Await(answers: seq<Answered>)
      requires Quiet(sys) && Possible(sys, answers)
      modifies this
      ensures Quiet(sys) && sys.dpPort == old(sys).dpPort
      ensures forall p :: p in sys.handler <==> p in old(sys).handler && !Among(answers, p)
      ensures forall i :: 0 <= i < |answers| && answers[i].packet.Sel? ==>
                            SelResult(answers[i].packet.file) == answers[i].result
      ensures forall f :: !Among(answers, Sel(f)) ==> SelResult(f) == old(SelResult(f))
    {
      hide Inv, Quiet, Distinct;
      var n := 0;
      while n < |answers|
        invariant 0 <= n <= |answers| && Quiet(sys) && sys.dpPort == old(sys).dpPort
        invariant forall p :: p in sys.handler <==> p in old(sys).handler && !Among(answers[..n], p)
        invariant forall i :: 0 <= i < n && answers[i].packet.Sel? ==>
                                SelResult(answers[i].packet.file) == answers[i].result
        invariant forall f :: !Among(answers[..n], Sel(f)) ==> SelResult(f) == old(SelResult(f))
      {
        assert !Among(answers[..n], answers[n].packet);
        Answer(answers[n]);
        forall p ensures Among(answers[..n + 1], p) <==> Among(answers[..n], p) || p == answers[n].packet {
          AmongMore(answers, n, p);
        }
        n := n + 1;
      }
      assert answers[..n] == answers;
    }

    /**
      One round of select on a file: prepare it, wait while handlers answer,
      take in what came, check it.  The file is reported as ready exactly if
      its handler answered, with an error or positively.  Of an answer that was
      already queued when the round began the error is lost.
     */
    method SelectRound(file: nat, answers: seq<Answered>) returns (ready: bool)
      requires Quiet(sys) && Possible(Step(sys, Prepare(file)), answers)
      modifies this
      ensures Quiet(sys) && sys.sel == []
      ensures Sel(file) !in old(sys).sel ==> (ready <==> Answers(answers, Sel(file)))
      ensures Sel(file) in old(sys).sel ==> (ready <==> old(SelResult(file)).value % 2 != 0)
      ensures Idle(sys, Sel(file)) <==> Among(answers, Sel(file)) || Sel(file) in old(sys).sel
    {
      var _ := FselectPrepare(file, true);
      Await(answers);
      StepKeeps(sys, DrainSelect);
      DrainFrees(sys);
      HandleSelectPort();
      ready := FselectCheck(file, true);
    }
  }

  /** The packet was answered positively, or with an error. */
  ghost predicate Answers(answers: seq<Answered>, p: Packet) {
    exists i :: 0 <= i < |answers| && answers[i].packet == p && Positive(answers[i].result)
  }

  ghost predicate Among(answers: seq<Answered>, p: Packet) {
    exists i :: 0 <= i < |answers| && answers[i].packet == p
  }

  lemma AmongMore(answers: seq<Answered>, n: nat, p: Packet)
    requires n < |answers|
    ensures Among(answers[..n + 1], p) <==> Among(answers[..n], p) || p == answers[n].packet
  {
    assert forall i :: 0 <= i < n ==> answers[..n + 1][i] == answers[..n][i];
    assert answers[..n + 1][n] == answers[n];
  }
}
