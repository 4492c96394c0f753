/**
 * The request, retry and replay protocol between bcap_client.c and bcap_server.c on UDP and COM, over a
 * channel that may lose and duplicate but not reorder. Calls and stamps are numbered from 0; the fields
 * call, of and stamp of a message record where it comes from and are read by no step.
 */
module Retry {
  import opened Client

  /** A transmission of a request. */
  datatype Msg = Msg(serial: nat, reserv: nat, call: nat, stamp: nat)

  /**
   * A reply to the transmission with this stamp. A final one carries the result of executing call of, or
   * refuses that call without executing it: E_MAX_OBJECT or E_BUSY_PROC.
   */
  datatype Ans = Ans(serial: nat, final: bool, of: nat, stamp: nat, refused: bool := false)

  const NOTHING := Ans(0, true, 0, 0)

  datatype Handling = Recorded | Unrecorded | Refused

  /** Executed, refused, or answered with the recorded reply of call of, executed for the transmission stamp. */
  datatype Deed = Ran(recorded: bool) | Refusal | Replay(of: nat, stamp: nat)

  /** A transmission the server took in, how often its record had been dropped by then, and what it did. */
  datatype Delivery = Delivery(call: nat, stamp: nat, era: nat, deed: Deed)

  /** A final reply the client took: the call and transmission it was waiting on, the reply's call, and its kind. */
  datatype Taken = Taken(call: nat, stamp: nat, of: nat, refused: bool)

  datatype State = State(
    serial: nat, stamped: nat, firsts: seq<nat>, reserv: nat, left: nat,
    active: bool, waiting: bool, cur: nat, curStamp: nat,
    up: seq<Msg>, down: seq<Ans>,
    last: Ans, era: nat, log: seq<Delivery>, accepted: seq<Taken>)

  const INIT := State(1, 0, [], 0, 0, false, false, 0, 0, [], [], NOTHING, 0, [], [])

  datatype Event =
    | Begin(retry: nat)
    | Attempt
    | SendFails
    | TimeOut
    | Read
    | LoseUp(i: nat)
    | LoseDown(i: nat)
    | DupUp(i: nat)
    | DupDown(i: nat)
    | Deliver(executing: nat, handling: Handling)
    | Forget

  predicate Enabled(s: State, e: Event)
  {
    match e
    case Begin(n) => !s.active && RETRY_MIN <= n <= RETRY_MAX
    case Attempt => s.active && !s.waiting && s.left > 0
    case SendFails => s.active && !s.waiting && s.left > 0
    case TimeOut => s.waiting
    case Read => s.waiting && s.down != []
    case LoseUp(i) => i < |s.up|
    case DupUp(i) => i < |s.up|
    case LoseDown(i) => i < |s.down|
    case DupDown(i) => i < |s.down|
    case Deliver(_, _) => s.up != []
    case Forget => true
  }

  function Cut<T>(q: seq<T>, i: nat): seq<T>
    requires i < |q|
  {
    q[..i] + q[i + 1..]
  }

  function Twice<T>(q: seq<T>, i: nat): seq<T>
    requires i < |q|
  {
    q[..i + 1] + q[i..]
  }

  /** Stamping the next serial, in send_receive. */
  function Stamp(s: State): State
    requires s.serial < 0x1_0000
  {
    s.(serial := Next(s.serial), stamped := s.stamped + 1, cur := s.serial, curStamp := s.stamped)
  }

  /** The S_EXECUTING replies and the final one. */
  function Answers(m: Msg, executing: nat): seq<Ans>
  {
    seq(executing, _ => Ans(m.serial, false, m.call, m.stamp))
  }

  /** The server's part of receive_execute: replay the recorded reply, or handle the request. */
  function Serve(s: State, executing: nat, h: Handling): State
    requires s.up != []
  {
    var m := s.up[0];
    var t, a := s.(up := s.up[1..]), Ans(m.serial, true, m.call, m.stamp);
    if Replays(s.last, m) then
      t.(down := s.down + [s.last.(serial := m.serial, stamp := m.stamp)], log := s.log + [Done(s, h)])
    else
      match h
      case Recorded => t.(down := s.down + Answers(m, executing) + [a], last := a, log := s.log + [Done(s, h)])
      case Unrecorded => t.(down := s.down + Answers(m, executing), log := s.log + [Done(s, h)])
      case Refused => t.(down := s.down + [a.(refused := true)], log := s.log + [Done(s, h)])
  }

  /** The serial under which the server looks for an earlier answer. */
  function FirstSerial(m: Msg): nat
  {
    if m.reserv == 0 then m.serial else m.reserv
  }

  /** The test for a recorded reply. */
  predicate Replays(last: Ans, m: Msg)
  {
    last.serial == FirstSerial(m)
  }

  function Done(s: State, h: Handling): Delivery
    requires s.up != []
  {
    var m := s.up[0];
    var deed :=
      if Replays(s.last, m) then Replay(s.last.of, s.last.stamp)
      else match h
        case Recorded => Ran(true)
        case Unrecorded => Ran(false)
        case Refused => Refusal;
    Delivery(m.call, m.stamp, s.era, deed)
  }

  function Apply(s: State, e: Event): State
    requires Enabled(s, e) && s.serial < 0x1_0000
  {
    match e
    case Begin(n) =>
      s.(active := true, waiting := false, left := n, reserv := s.serial, firsts := s.firsts + [s.stamped])
    case Attempt =>
      Stamp(s).(waiting := true, left := s.left - 1,
        up := s.up + [Msg(s.serial, s.reserv, if s.firsts == [] then 0 else |s.firsts| - 1, s.stamped)])
    case SendFails => Stamp(s).(active := false)
    case TimeOut => s.(waiting := false, active := s.left > 0)
    case Read =>
      var a, t := s.down[0], s.(down := s.down[1..]);
      if a.serial == s.cur && a.final then
        t.(waiting := false, active := false,
           accepted := s.accepted + [Taken(if s.firsts == [] then 0 else |s.firsts| - 1, s.curStamp, a.of, a.refused)])
      else t
    case LoseUp(i) => s.(up := Cut(s.up, i))
    case DupUp(i) => s.(up := Twice(s.up, i))
    case LoseDown(i) => s.(down := Cut(s.down, i))
    case DupDown(i) => s.(down := Twice(s.down, i))
    case Deliver(n, h) => Serve(s, n, h)
    case Forget => s.(last := NOTHING, era := s.era + 1)
  }

  /** A call begins with one to seven transmissions allowed, all of them with its first serial in the reserve field. */
  lemma CallBegins(s: State, n: nat)
    requires s.serial < 0x1_0000
    ensures Enabled(s, Begin(n)) <==> !s.active && 1 <= n <= 7
    ensures Enabled(s, Begin(n)) ==>
      var t := Apply(s, Begin(n));
      && t.active && !t.waiting && t.left == n && t.reserv == s.serial && t.serial == s.serial
      && t.firsts == s.firsts + [s.stamped] && t.up == s.up && t.down == s.down && t.last == s.last && t.log == s.log
  {
  }

  /**
   * One transmission without an answer: it may fail, which ends the call, or goes out with the next serial; the call
   * ends when it was the last one allowed and nothing came in time.
   */
  lemma OneTransmission(s: State)
    requires s.active && !s.waiting && s.left > 0 && 1 <= s.serial < 0x1_0000 && s.firsts != []
    ensures Enabled(s, SendFails) && Enabled(s, Attempt) && Enabled(Apply(s, Attempt), TimeOut)
    ensures var next := if s.serial == 65535 then 1 else s.serial + 1;
            var f, t := Apply(s, SendFails), Apply(s, Attempt);
            var u := Apply(t, TimeOut);
            && f.serial == next && f.stamped == s.stamped + 1 && !f.active && f.up == s.up
            && t.serial == next && t.stamped == s.stamped + 1 && t.active && t.waiting && t.cur == s.serial
            && t.up == s.up + [Msg(s.serial, s.reserv, |s.firsts| - 1, s.stamped)]
            && u.up == t.up && u.serial == next && !u.waiting && u.left == s.left - 1
            && (u.active <==> s.left > 1)
  {
  }

  /** When the record is dropped no request is answered from it any more, whatever its serials but 0. */
  lemma RecordDropped(s: State)
    requires s.serial < 0x1_0000
    ensures Enabled(s, Forget)
    ensures var t := Apply(s, Forget);
            && t == s.(last := t.last, era := s.era + 1)
            && forall m: Msg :: m.serial > 0 ==> !Replays(t.last, m)
  {
  }

  /** The earlier answer is looked up under the first serial of the call, or the message's own where it names none. */
  predicate AlreadyAnswered(s: State)
    requires s.up != []
  {
    s.last.serial == if s.up[0].reserv == 0 then s.up[0].serial else s.up[0].reserv
  }

  /** A remembered reply is sent again as it was, under the new serial; nothing is executed or recorded. */
  lemma ServedAgain(s: State, executing: nat, h: Handling)
    requires s.up != [] && AlreadyAnswered(s)
    ensures var m, t := s.up[0], Serve(s, executing, h);
            && t.up == s.up[1..] && t.last == s.last
            && t.down == s.down + [Ans(m.serial, s.last.final, s.last.of, m.stamp, s.last.refused)]
            && t.log == s.log + [Delivery(m.call, m.stamp, s.era, Replay(s.last.of, s.last.stamp))]
  {
  }

  /**
   * Any other request is executed or refused. A recorded execution sends "executing" any number of times, then one
   * final reply, which is the new record; an unrecorded one has no final reply and a refusal no other.
   */
  lemma ServedAnew(s: State, executing: nat, h: Handling)
    requires s.up != [] && !AlreadyAnswered(s)
    ensures var m, t := s.up[0], Serve(s, executing, h);
            var n := |t.down| - |s.down|;
            && t.up == s.up[1..] && n >= 0 && t.down[..|s.down|] == s.down
            && (forall i :: |s.down| <= i < |t.down| ==> t.down[i].serial == m.serial && t.down[i].of == m.call)
            && (h.Recorded? ==>
                  n == executing + 1 && t.last == t.down[|t.down| - 1] && t.last.final && !t.last.refused
                  && (forall i :: |s.down| <= i < |t.down| - 1 ==> !t.down[i].final))
            && (h.Unrecorded? ==>
                  n == executing && t.last == s.last && (forall i :: |s.down| <= i < |t.down| ==> !t.down[i].final))
            && (h.Refused? ==> n == 1 && t.last == s.last && t.down[|s.down|].final && t.down[|s.down|].refused)
            && t.log == s.log + [Delivery(m.call, m.stamp, s.era, if h.Refused? then Refusal else Ran(h.Recorded?))]
  {
  }

  /** The client takes the next reply; only a final one under its own serial ends the call, with that reply's result. */
  lemma ReadEnds(s: State)
    requires Enabled(s, Read) && s.serial < 0x1_0000 && s.firsts != []
    ensures var a, t := s.down[0], Apply(s, Read);
            && t.down == s.down[1..]
            && (if a.serial == s.cur && a.final then
                  !t.active && !t.waiting
                  && t.accepted == s.accepted + [Taken(|s.firsts| - 1, s.curStamp, a.of, a.refused)]
                else t == s.(down := t.down))
  {
  }

  /** s is the state after the events of a run. */
  ghost predicate Runs(es: seq<Event>, states: seq<State>)
  {
    && |states| == |es| + 1 && states[0] == INIT
    && forall i :: 0 <= i < |es| ==>
         states[i].serial < 0x1_0000 && Enabled(states[i], es[i]) && states[i + 1] == Apply(states[i], es[i])
  }

  // ----- the client -----

  /** The stamps of a call run from its first to the next call's first. */
  predicate Owns(f: seq<nat>, n: nat, call: nat, stamp: nat)
  {
    call < |f| && f[call] <= stamp < n && (call + 1 < |f| ==> stamp < f[call + 1])
  }

  predicate Ordered(f: seq<nat>, bound: nat)
  {
    (forall i, j :: 0 <= i < j < |f| ==> f[i] < f[j]) && forall i :: 0 <= i < |f| ==> f[i] <= bound
  }

  /** No call is transmitted more than RETRY_MAX times. */
  ghost predicate Short(f: seq<nat>, n: nat)
  {
    forall c: nat, x: nat :: Owns(f, n, c, x) ==> x < f[c] + RETRY_MAX
  }

  ghost predicate ClientOk(s: State)
  {
    && s.serial == SerialAt(s.stamped) && Ordered(s.firsts, s.stamped) && Short(s.firsts, s.stamped)
    && (!s.active && s.firsts != [] ==> s.firsts[|s.firsts| - 1] < s.stamped)
    && (s.active ==> Calling(s))
    && (s.waiting ==> s.active && Sent(s))
  }

  /** The present call, with the transmissions left to it. */
  predicate Calling(s: State)
  {
    && s.firsts != [] && s.reserv == SerialAt(s.firsts[|s.firsts| - 1])
    && s.stamped + s.left <= s.firsts[|s.firsts| - 1] + RETRY_MAX
  }

  /** The present transmission. */
  predicate Sent(s: State)
  {
    && s.firsts != [] && s.curStamp + 1 == s.stamped && s.cur == SerialAt(s.curStamp)
    && Owns(s.firsts, s.stamped, |s.firsts| - 1, s.curStamp)
  }

  /** Serials may have been stamped since, or a call begun. */
  predicate Later(f: seq<nat>, n: nat, f': seq<nat>, n': nat)
  {
    (f' == f && n <= n') || (n' == n && f' == f + [n])
  }

  lemma OneOwner(f: seq<nat>, n: nat, c: nat, d: nat, stamp: nat)
    requires Ordered(f, n) && Owns(f, n, c, stamp) && Owns(f, n, d, stamp)
    ensures c == d
  {
  }

  lemma ShortStamped(f: seq<nat>, n: nat, n': nat)
    requires Short(f, n) && Ordered(f, n) && f != [] && n < f[|f| - 1] + RETRY_MAX && n' == n + 1
    ensures Short(f, n')
  {
    forall c: nat, x: nat | Owns(f, n', c, x) ensures x < f[c] + RETRY_MAX {
      if x < n {
        assert Owns(f, n, c, x);
      } else if c + 1 < |f| {
        assert f[c + 1] <= n;
      }
    }
  }

  lemma ShortBegun(f: seq<nat>, n: nat)
    requires Short(f, n) && Ordered(f, n)
    ensures Short(f + [n], n)
  {
    var g := f + [n];
    forall c: nat, x: nat | Owns(g, n, c, x) ensures x < g[c] + RETRY_MAX {
      assert c < |f| && g[c] == f[c];
      if c + 1 < |f| {
        assert g[c + 1] == f[c + 1];
      }
      assert Owns(f, n, c, x);
    }
  }

  /** A transmission takes the next serial. */
  lemma ClientSends(s: State, e: Event)
    requires ClientOk(s) && Enabled(s, e) && (e.Attempt? || e.SendFails?) && s.serial < 0x1_0000
    ensures ClientOk(Apply(s, e))
  {
    NextSerial(s.stamped);
    ShortStamped(s.firsts, s.stamped, s.stamped + 1);
  }

  lemma ClientBegins(s: State, n: nat)
    requires ClientOk(s) && Enabled(s, Begin(n)) && s.serial < 0x1_0000
    ensures ClientOk(Apply(s, Begin(n)))
  {
    ShortBegun(s.firsts, s.stamped);
  }

  /** What a step does to the client's numbers. */
  lemma ClientStep(s: State, e: Event)
    requires ClientOk(s) && Enabled(s, e)
    ensures s.serial < 0x1_0000 && ClientOk(Apply(s, e))
  {
    if e.Attempt? || e.SendFails? {
      ClientSends(s, e);
    } else if e.Begin? {
      ClientBegins(s, e.retry);
    }
  }

  // ----- the channel and the record -----

  predicate MsgOk(f: seq<nat>, n: nat, m: Msg)
  {
    Owns(f, n, m.call, m.stamp) && m.serial == SerialAt(m.stamp) && m.reserv == SerialAt(f[m.call])
  }

  /** A final reply answers a transmission of its own call, or one a full round after that call began. */
  predicate AnsOk(f: seq<nat>, n: nat, a: Ans)
  {
    && a.stamp < n && a.serial == SerialAt(a.stamp)
    && (a.final ==> a.of < |f| && (Owns(f, n, a.of, a.stamp) || f[a.of] + SERIALS <= a.stamp))
  }

  /** What is recorded was executed for a transmission of its own call. */
  predicate RecordOwn(f: seq<nat>, n: nat, last: Ans)
  {
    last.serial != 0 ==> last.final && last.serial == SerialAt(last.stamp) && Owns(f, n, last.of, last.stamp)
  }

  predicate InOrder(q: seq<Msg>)
  {
    forall i, j :: 0 <= i <= j < |q| ==> q[i].stamp <= q[j].stamp
  }

  /** The record is no newer than any waiting transmission. */
  predicate NoNewer(last: Ans, up: seq<Msg>)
  {
    last.serial != 0 ==> forall i :: 0 <= i < |up| ==> last.stamp <= up[i].stamp
  }

  predicate Held(f: seq<nat>, n: nat, up: seq<Msg>, down: seq<Ans>, last: Ans)
  {
    && (forall i :: 0 <= i < |up| ==> MsgOk(f, n, up[i]))
    && (forall i :: 0 <= i < |down| ==> AnsOk(f, n, down[i]))
    && RecordOwn(f, n, last) && InOrder(up) && NoNewer(last, up)
  }

  lemma OwnsLater(f: seq<nat>, n: nat, f': seq<nat>, n': nat, c: nat, x: nat)
    requires Owns(f, n, c, x) && Later(f, n, f', n')
    ensures Owns(f', n', c, x) && f'[c] == f[c]
  {
  }

  lemma HeldLater(f: seq<nat>, n: nat, f': seq<nat>, n': nat, up: seq<Msg>, down: seq<Ans>, last: Ans)
    requires Held(f, n, up, down, last) && Later(f, n, f', n')
    ensures Held(f', n', up, down, last)
  {
    forall i | 0 <= i < |up| ensures MsgOk(f', n', up[i]) {
      OwnsLater(f, n, f', n', up[i].call, up[i].stamp);
    }
    forall i | 0 <= i < |down| ensures AnsOk(f', n', down[i]) {
      var a := down[i];
      if a.final && Owns(f, n, a.of, a.stamp) {
        OwnsLater(f, n, f', n', a.of, a.stamp);
      }
    }
    if last.serial != 0 {
      OwnsLater(f, n, f', n', last.of, last.stamp);
    }
  }

  lemma CutQueue(q: seq<Msg>, i: nat, last: Ans)
    requires InOrder(q) && NoNewer(last, q) && i < |q|
    ensures InOrder(Cut(q, i)) && NoNewer(last, Cut(q, i))
    ensures forall k :: 0 <= k < |Cut(q, i)| ==> Cut(q, i)[k] == q[if k < i then k else k + 1]
  {
  }

  lemma TwiceQueue(q: seq<Msg>, i: nat, last: Ans)
    requires InOrder(q) && NoNewer(last, q) && i < |q|
    ensures InOrder(Twice(q, i)) && NoNewer(last, Twice(q, i))
    ensures forall k :: 0 <= k < |Twice(q, i)| ==> Twice(q, i)[k] == q[if k <= i then k else k - 1]
  {
  }

  /** One more transmission. */
  lemma HeldAttempt(f: seq<nat>, n: nat, up: seq<Msg>, down: seq<Ans>, last: Ans, m: Msg)
    requires Held(f, n, up, down, last) && m.stamp == n && MsgOk(f, n + 1, m)
    ensures Held(f, n + 1, up + [m], down, last)
  {
    HeldLater(f, n, f, n + 1, up, down, last);
    var q := up + [m];
    forall i | 0 <= i < |q| ensures MsgOk(f, n + 1, q[i]) && q[i].stamp <= n {
      assert i < |up| ==> q[i] == up[i];
    }
  }

  /**
   * A record that passes the server's test is of the waiting transmission's own call if and only if less than
   * a round of serials lies between them; otherwise its call began a full round before the transmission.
   */
  lemma ReplayExactly(f: seq<nat>, n: nat, last: Ans, m: Msg)
    requires Ordered(f, n) && Short(f, n) && MsgOk(f, n, m) && RecordOwn(f, n, last)
    requires Replays(last, m) && last.stamp <= m.stamp
    ensures last.serial != 0 && (last.of == m.call <==> f[m.call] < last.stamp + SERIALS)
    ensures last.of == m.call <==> last.stamp == f[m.call]
    ensures AnsOk(f, n, last.(serial := m.serial, stamp := m.stamp))
  {
    var c := m.call;
    if last.of == c {
      SerialsDistinct(f[c], last.stamp);
    } else if f[c] < last.stamp {
      OneOwner(f, n, last.of, c, last.stamp);
    } else if f[c] < last.stamp + SERIALS {
      SerialsDistinct(last.stamp, f[c]);
      OneOwner(f, n, last.of, c, f[c]);
    }
  }

  lemma RepliesOk(s: State, executing: nat, h: Handling)
    requires ClientOk(s) && Held(s.firsts, s.stamped, s.up, s.down, s.last) && s.up != []
    ensures var t := Serve(s, executing, h); forall i :: 0 <= i < |t.down| ==> AnsOk(s.firsts, s.stamped, t.down[i])
  {
    var m, t := s.up[0], Serve(s, executing, h);
    if Replays(s.last, m) {
      ReplayExactly(s.firsts, s.stamped, s.last, m);
    }
    forall i | 0 <= i < |t.down| ensures AnsOk(s.firsts, s.stamped, t.down[i]) {
      if i < |s.down| {
        assert t.down[i] == s.down[i];
      }
    }
  }

  lemma HeldServed(s: State, executing: nat, h: Handling)
    requires ClientOk(s) && Held(s.firsts, s.stamped, s.up, s.down, s.last) && s.up != []
    ensures var t := Serve(s, executing, h); Held(s.firsts, s.stamped, t.up, t.down, t.last)
  {
    RepliesOk(s, executing, h);
  }

  /** Replies were lost, doubled or read. */
  lemma HeldReplies(f: seq<nat>, n: nat, up: seq<Msg>, down: seq<Ans>, last: Ans, down': seq<Ans>)
    requires Held(f, n, up, down, last) && forall a :: a in down' ==> a in down
    ensures Held(f, n, up, down', last)
  {
    forall i | 0 <= i < |down'| ensures AnsOk(f, n, down'[i]) {
      assert down'[i] in down;
    }
  }

  lemma HeldStep(s: State, e: Event)
    requires ClientOk(s) && Held(s.firsts, s.stamped, s.up, s.down, s.last) && Enabled(s, e)
    requires s.serial < 0x1_0000
    ensures var t := Apply(s, e); Held(t.firsts, t.stamped, t.up, t.down, t.last)
  {
    if e.Deliver? {
      HeldServed(s, e.executing, e.handling);
    } else if e.LoseUp? || e.DupUp? || e.Attempt? {
      HeldRequests(s, e);
    } else {
      HeldElse(s, e);
    }
  }

  lemma HeldRequests(s: State, e: Event)
    requires ClientOk(s) && Held(s.firsts, s.stamped, s.up, s.down, s.last) && Enabled(s, e)
    requires s.serial < 0x1_0000 && (e.LoseUp? || e.DupUp? || e.Attempt?)
    ensures var t := Apply(s, e); Held(t.firsts, t.stamped, t.up, t.down, t.last)
  {
    match e
    case LoseUp(i) => CutQueue(s.up, i, s.last);
    case DupUp(i) => TwiceQueue(s.up, i, s.last);
    case Attempt =>
      var m := Apply(s, e).up[|s.up|];
      HeldAttempt(s.firsts, s.stamped, s.up, s.down, s.last, m);
  }

  lemma HeldElse(s: State, e: Event)
    requires Held(s.firsts, s.stamped, s.up, s.down, s.last) && Enabled(s, e) && s.serial < 0x1_0000
    requires !e.Deliver? && !e.LoseUp? && !e.DupUp? && !e.Attempt?
    ensures var t := Apply(s, e); Held(t.firsts, t.stamped, t.up, t.down, t.last)
  {
    var t := Apply(s, e);
    HeldLater(s.firsts, s.stamped, t.firsts, t.stamped, s.up, s.down, s.last);
    HeldReplies(t.firsts, t.stamped, s.up, s.down, s.last, t.down);
  }

  // ----- what the client takes -----

  /** Whether an accepted reply is of the call made is decided by how long ago its call began. */
  predicate TakenOk(f: seq<nat>, n: nat, t: Taken)
  {
    t.of < |f| && t.stamp < n && (t.call == t.of <==> t.stamp < f[t.of] + SERIALS)
  }

  lemma TakenExactly(s: State)
    requires ClientOk(s) && Held(s.firsts, s.stamped, s.up, s.down, s.last) && s.waiting && s.down != []
    requires s.down[0].serial == s.cur && s.down[0].final
    ensures TakenOk(s.firsts, s.stamped, Taken(|s.firsts| - 1, s.curStamp, s.down[0].of, s.down[0].refused))
  {
    var a, f, n, c := s.down[0], s.firsts, s.stamped, |s.firsts| - 1;
    if s.curStamp < f[a.of] + SERIALS {
      SerialsDistinct(a.stamp, s.curStamp);
      OneOwner(f, n, a.of, c, a.stamp);
    }
  }

  predicate AllTakenOk(f: seq<nat>, n: nat, ts: seq<Taken>)
  {
    forall i :: 0 <= i < |ts| ==> TakenOk(f, n, ts[i])
  }

  lemma TakenStep(s: State, e: Event)
    requires ClientOk(s) && Held(s.firsts, s.stamped, s.up, s.down, s.last) && Enabled(s, e)
    requires s.serial < 0x1_0000 && AllTakenOk(s.firsts, s.stamped, s.accepted)
    ensures AllTakenOk(Apply(s, e).firsts, Apply(s, e).stamped, Apply(s, e).accepted)
  {
    if e.Read? && s.down[0].serial == s.cur && s.down[0].final {
      TakenExactly(s);
    }
  }

  // ----- what the server did -----

  /** The first transmission of call c was executed and its reply recorded, in this era. */
  predicate Remembered(f: seq<nat>, log: seq<Delivery>, c: nat, era: nat)
  {
    c < |f| && exists j :: 0 <= j < |log| && log[j].stamp == f[c] && log[j].deed == Ran(true) && log[j].era == era
  }

  /** A reply of its own call is replayed exactly when the call is remembered; any other is a full round old. */
  predicate EntryOk(f: seq<nat>, n: nat, log: seq<Delivery>, d: Delivery)
  {
    && Owns(f, n, d.call, d.stamp)
    && (d.deed.Replay? && d.deed.of == d.call <==> Remembered(f, log, d.call, d.era))
    && (d.deed.Replay? ==> (d.deed.of == d.call <==> f[d.call] < d.deed.stamp + SERIALS))
  }

  predicate LogOk(f: seq<nat>, n: nat, log: seq<Delivery>)
  {
    log == [] || (LogOk(f, n, log[..|log| - 1]) && EntryOk(f, n, log[..|log| - 1], log[|log| - 1]))
  }

  /** Deliveries come in the order of their stamps, and the waiting transmissions behind them. */
  predicate Behind(f: seq<nat>, n: nat, log: seq<Delivery>, up: seq<Msg>, era: nat)
  {
    && (forall i :: 0 <= i < |log| ==> Owns(f, n, log[i].call, log[i].stamp) && log[i].era <= era)
    && (forall i, j :: 0 <= i <= j < |log| ==> log[i].stamp <= log[j].stamp)
    && forall i, j :: 0 <= i < |log| && 0 <= j < |up| ==> log[i].stamp <= up[j].stamp
  }

  /** The record was made in this era, and it is the call last heard of if that is remembered. */
  predicate RecordOk(f: seq<nat>, log: seq<Delivery>, era: nat, last: Ans)
  {
    && (last.serial != 0 ==>
          exists j :: 0 <= j < |log| && log[j].stamp == last.stamp && log[j].deed == Ran(true) && log[j].era == era)
    && (log != [] ==>
          var c := log[|log| - 1].call; Remembered(f, log, c, era) ==> last.serial != 0 && last.stamp == f[c])
  }

  lemma RememberedSnoc(f: seq<nat>, log: seq<Delivery>, d: Delivery, c: nat, era: nat)
    requires c < |f|
    ensures Remembered(f, log + [d], c, era)
      <==> Remembered(f, log, c, era) || (d.stamp == f[c] && d.deed == Ran(true) && d.era == era)
  {
    var l := log + [d];
    assert forall j :: 0 <= j < |log| ==> l[j] == log[j];
    assert l[|log|] == d;
  }

  /** The call of a waiting transmission is remembered exactly when the record is of its first transmission. */
  lemma RecordTells(f: seq<nat>, n: nat, log: seq<Delivery>, era: nat, last: Ans, m: Msg)
    requires Ordered(f, n) && MsgOk(f, n, m) && Behind(f, n, log, [m], era) && RecordOk(f, log, era, last)
    ensures last.serial != 0 && last.stamp == f[m.call] <==> Remembered(f, log, m.call, era)
  {
    if Remembered(f, log, m.call, era) {
      var j :| 0 <= j < |log| && log[j].stamp == f[m.call] && log[j].deed == Ran(true) && log[j].era == era;
      var d := log[|log| - 1];
      assert [m][0] == m && log[j].stamp <= d.stamp;
      OneOwner(f, n, d.call, m.call, d.stamp);
    }
  }

  lemma DeedIs(s: State, h: Handling)
    requires ClientOk(s) && Held(s.firsts, s.stamped, s.up, s.down, s.last) && s.up != []
    requires Behind(s.firsts, s.stamped, s.log, s.up, s.era) && RecordOk(s.firsts, s.log, s.era, s.last)
    ensures EntryOk(s.firsts, s.stamped, s.log, Done(s, h))
    ensures Remembered(s.firsts, s.log, s.up[0].call, s.era)
      <==> s.last.serial != 0 && s.last.stamp == s.firsts[s.up[0].call]
    ensures !Replays(s.last, s.up[0]) ==> !Remembered(s.firsts, s.log, s.up[0].call, s.era)
  {
    var m := s.up[0];
    assert Behind(s.firsts, s.stamped, s.log, [m], s.era);
    RecordTells(s.firsts, s.stamped, s.log, s.era, s.last, m);
    if Replays(s.last, m) {
      ReplayExactly(s.firsts, s.stamped, s.last, m);
    }
  }

  lemma LogSnoc(f: seq<nat>, n: nat, log: seq<Delivery>, d: Delivery)
    requires LogOk(f, n, log) && EntryOk(f, n, log, d)
    ensures LogOk(f, n, log + [d])
  {
    var l := log + [d];
    assert l[..|l| - 1] == log && l[|l| - 1] == d;
  }

  lemma BehindNext(f: seq<nat>, n: nat, log: seq<Delivery>, up: seq<Msg>, era: nat, d: Delivery)
    requires Behind(f, n, log, up, era) && InOrder(up) && up != []
    requires Owns(f, n, d.call, d.stamp) && d.stamp == up[0].stamp && d.era == era
    ensures Behind(f, n, log + [d], up[1..], era)
  {
  }

  lemma RecordNext(f: seq<nat>, log: seq<Delivery>, era: nat, last: Ans, d: Delivery, last': Ans)
    requires RecordOk(f, log, era, last) && d.call < |f| && d.era == era
    requires Remembered(f, log, d.call, era) ==> d.deed.Replay? && last.serial != 0 && last.stamp == f[d.call]
    requires if d.deed == Ran(true) then last'.serial != 0 && last'.stamp == d.stamp else last' == last
    ensures RecordOk(f, log + [d], era, last')
  {
    var l := log + [d];
    RememberedSnoc(f, log, d, d.call, era);
    assert l[|log|] == d && forall j :: 0 <= j < |log| ==> l[j] == log[j];
  }

  ghost predicate ServerOk(s: State)
  {
    && LogOk(s.firsts, s.stamped, s.log) && Behind(s.firsts, s.stamped, s.log, s.up, s.era)
    && RecordOk(s.firsts, s.log, s.era, s.last)
  }

  lemma ServeShape(s: State, n: nat, h: Handling)
    requires s.up != []
    ensures var m, t, d := s.up[0], Serve(s, n, h), Done(s, h);
            && t.firsts == s.firsts && t.stamped == s.stamped && t.era == s.era
            && t.up == s.up[1..] && t.log == s.log + [d]
            && d.call == m.call && d.stamp == m.stamp && d.era == s.era && (d.deed.Replay? <==> Replays(s.last, m))
            && t.last == if d.deed == Ran(true) then Ans(m.serial, true, m.call, m.stamp) else s.last
  {
  }

  lemma ServerServes(s: State, n: nat, h: Handling)
    requires ClientOk(s) && Held(s.firsts, s.stamped, s.up, s.down, s.last) && ServerOk(s) && s.up != []
    ensures ServerOk(Serve(s, n, h))
  {
    var m, t, d := s.up[0], Serve(s, n, h), Done(s, h);
    ServeShape(s, n, h);
    DeedIs(s, h);
    LogSnoc(s.firsts, s.stamped, s.log, d);
    BehindNext(s.firsts, s.stamped, s.log, s.up, s.era, d);
    RecordNext(s.firsts, s.log, s.era, s.last, d, t.last);
  }

  lemma {:induction false} LogLater(f: seq<nat>, n: nat, f': seq<nat>, n': nat, log: seq<Delivery>)
    requires LogOk(f, n, log) && Later(f, n, f', n')
    ensures LogOk(f', n', log)
  {
    if log != [] {
      var d := log[|log| - 1];
      LogLater(f, n, f', n', log[..|log| - 1]);
      OwnsLater(f, n, f', n', d.call, d.stamp);
    }
  }

  lemma RecordLater(f: seq<nat>, n: nat, f': seq<nat>, n': nat, log: seq<Delivery>, up: seq<Msg>, era: nat, last: Ans)
    requires Behind(f, n, log, up, era) && RecordOk(f, log, era, last) && Later(f, n, f', n')
    ensures Behind(f', n', log, up, era) && RecordOk(f', log, era, last)
  {
    forall i | 0 <= i < |log| ensures Owns(f', n', log[i].call, log[i].stamp) && f'[log[i].call] == f[log[i].call] {
      OwnsLater(f, n, f', n', log[i].call, log[i].stamp);
    }
  }

  lemma BehindAttempt(f: seq<nat>, n: nat, log: seq<Delivery>, up: seq<Msg>, era: nat, m: Msg)
    requires Behind(f, n, log, up, era) && n <= m.stamp
    ensures Behind(f, n, log, up + [m], era)
  {
    var q := up + [m];
    forall i, j | 0 <= i < |log| && 0 <= j < |q| ensures log[i].stamp <= q[j].stamp {
      if j < |up| {
        assert q[j] == up[j];
      }
    }
  }

  /** Dropping the record begins an era in which nothing is remembered. */
  lemma ServerForgets(s: State)
    requires ServerOk(s) && s.serial < 0x1_0000
    ensures ServerOk(Apply(s, Forget))
  {
  }

  /** A step that brings nothing to the server, the waiting transmissions being behind the log still. */
  lemma ServerIdle(f: seq<nat>, n: nat, f': seq<nat>, n': nat, log: seq<Delivery>, up: seq<Msg>, era: nat, last: Ans)
    requires LogOk(f, n, log) && Behind(f, n, log, up, era) && RecordOk(f, log, era, last) && Later(f, n, f', n')
    ensures LogOk(f', n', log) && Behind(f', n', log, up, era) && RecordOk(f', log, era, last)
  {
    LogLater(f, n, f', n', log);
    RecordLater(f, n, f', n', log, up, era, last);
  }

  lemma QueueStep(s: State, e: Event)
    requires ClientOk(s) && Held(s.firsts, s.stamped, s.up, s.down, s.last) && ServerOk(s) && Enabled(s, e)
    requires s.serial < 0x1_0000 && !e.Deliver? && !e.Forget?
    ensures Behind(s.firsts, s.stamped, s.log, Apply(s, e).up, s.era)
  {
    match e
    case LoseUp(i) => CutQueue(s.up, i, s.last);
    case DupUp(i) => TwiceQueue(s.up, i, s.last);
    case Attempt => BehindAttempt(s.firsts, s.stamped, s.log, s.up, s.era, Apply(s, e).up[|s.up|]);
    case _ =>
  }

  lemma ServerStep(s: State, e: Event)
    requires ClientOk(s) && Held(s.firsts, s.stamped, s.up, s.down, s.last) && ServerOk(s) && Enabled(s, e)
    requires s.serial < 0x1_0000 && !e.Deliver? && !e.Forget?
    ensures ServerOk(Apply(s, e))
  {
    var t := Apply(s, e);
    QueueStep(s, e);
    ServerIdle(s.firsts, s.stamped, t.firsts, t.stamped, s.log, t.up, s.era, s.last);
  }

  // ----- replies and what stands behind them -----

  /** The server took in a transmission of call c and executed it, or refused it. */
  predicate Handled(log: seq<Delivery>, c: nat, refused: bool)
  {
    exists i :: 0 <= i < |log| && log[i].call == c && if refused then log[i].deed.Refusal? else log[i].deed.Ran?
  }

  predicate Backed(log: seq<Delivery>, a: Ans)
  {
    a.final ==> Handled(log, a.of, a.refused)
  }

  predicate AllBacked(s: State)
  {
    && (forall i :: 0 <= i < |s.down| ==> Backed(s.log, s.down[i]))
    && (s.last.serial != 0 ==> s.last.final && Backed(s.log, s.last))
    && forall i :: 0 <= i < |s.accepted| ==> Handled(s.log, s.accepted[i].of, s.accepted[i].refused)
  }

  lemma StillHandled(log: seq<Delivery>, d: Delivery, c: nat, refused: bool)
    requires Handled(log, c, refused) || (d.call == c && if refused then d.deed.Refusal? else d.deed.Ran?)
    ensures Handled(log + [d], c, refused)
  {
    var all := log + [d];
    if Handled(log, c, refused) {
      var i :| 0 <= i < |log| && log[i].call == c && if refused then log[i].deed.Refusal? else log[i].deed.Ran?;
      assert all[i] == log[i];
    } else {
      assert all[|log|] == d;
    }
  }

  lemma ServeBacks(s: State, n: nat, h: Handling)
    requires RecordOwn(s.firsts, s.stamped, s.last) && AllBacked(s) && s.up != [] && FirstSerial(s.up[0]) != 0
    ensures AllBacked(Serve(s, n, h))
  {
    var m, t, d := s.up[0], Serve(s, n, h), Done(s, h);
    assert t.log == s.log + [d];
    forall a: Ans | Backed(s.log, a) ensures Backed(t.log, a) {
      if a.final {
        StillHandled(s.log, d, a.of, a.refused);
      }
    }
    forall i | 0 <= i < |s.accepted| ensures Handled(t.log, s.accepted[i].of, s.accepted[i].refused) {
      StillHandled(s.log, d, s.accepted[i].of, s.accepted[i].refused);
    }
    if d.deed.Ran? {
      StillHandled(s.log, d, m.call, false);
    }
    if d.deed.Refusal? {
      StillHandled(s.log, d, m.call, true);
    }
  }

  lemma StepBacks(s: State, e: Event)
    requires Held(s.firsts, s.stamped, s.up, s.down, s.last) && AllBacked(s) && Enabled(s, e) && s.serial < 0x1_0000
    ensures AllBacked(Apply(s, e))
  {
    if e.Deliver? {
      ServeBacks(s, e.executing, e.handling);
    }
  }

  // ----- over every run -----

  ghost predicate Inv(s: State)
  {
    && ClientOk(s) && Held(s.firsts, s.stamped, s.up, s.down, s.last) && ServerOk(s)
    && AllTakenOk(s.firsts, s.stamped, s.accepted) && AllBacked(s)
  }

  lemma StepKeeps(s: State, e: Event)
    requires Inv(s) && Enabled(s, e)
    ensures s.serial < 0x1_0000 && Inv(Apply(s, e))
  {
    ClientStep(s, e);
    HeldStep(s, e);
    TakenStep(s, e);
    StepBacks(s, e);
    match e
    case Deliver(n, h) => ServerServes(s, n, h);
    case Forget => ServerForgets(s);
    case _ => ServerStep(s, e);
  }

  lemma {:induction false} EveryRun(es: seq<Event>, states: seq<State>, n: nat)
    requires Runs(es, states) && n < |states|
    ensures Inv(states[n])
  {
    if n > 0 {
      EveryRun(es, states, n - 1);
      StepKeeps(states[n - 1], es[n - 1]);
    }
  }

  /**
   * Over every run: an accepted final reply is of the call made if and only if its call began less than a round
   * of serials before the transmission it is taken for. In any case the server took in a transmission of the
   * reply's call and executed it, or refused it if the reply says so.
   */
  lemma AcceptedExactly(es: seq<Event>, states: seq<State>, n: nat)
    requires Runs(es, states) && n < |states|
    ensures forall i :: 0 <= i < |states[n].accepted| ==>
      var s, t := states[n], states[n].accepted[i];
      t.of < |s.firsts| && (t.call == t.of <==> t.stamp < s.firsts[t.of] + SERIALS) && Handled(s.log, t.of, t.refused)
  {
    EveryRun(es, states, n);
  }

  lemma {:induction false} EntryAt(f: seq<nat>, n: nat, log: seq<Delivery>, i: nat)
    requires LogOk(f, n, log) && i < |log|
    ensures EntryOk(f, n, log[..i], log[i])
  {
    if i < |log| - 1 {
      var front := log[..|log| - 1];
      EntryAt(f, n, front, i);
      assert front[..i] == log[..i];
    }
  }

  /**
   * Over every run: a transmission is answered with a recorded reply of its own call if and only if the call's
   * first transmission was executed and recorded before, and the record not dropped since; a recorded reply it
   * is answered with is of another call if and only if that was executed a full round of serials before.
   */
  lemma ReplayedExactly(es: seq<Event>, states: seq<State>, n: nat, i: nat)
    requires Runs(es, states) && n < |states| && i < |states[n].log|
    ensures var s, d := states[n], states[n].log[i];
            && d.call < |s.firsts|
            && (d.deed.Replay? && d.deed.of == d.call <==> Remembered(s.firsts, s.log[..i], d.call, d.era))
            && (d.deed.Replay? ==> (d.deed.of != d.call <==> d.deed.stamp + SERIALS <= s.firsts[d.call]))
  {
    EveryRun(es, states, n);
    EntryAt(states[n].firsts, states[n].stamped, states[n].log, i);
  }

  /** Until the serials repeat nothing goes wrong. */
  lemma FirstRound(es: seq<Event>, states: seq<State>, n: nat)
    requires Runs(es, states) && n < |states| && states[n].stamped <= SERIALS
    ensures forall i :: 0 <= i < |states[n].accepted| ==> states[n].accepted[i].call == states[n].accepted[i].of
    ensures forall i :: 0 <= i < |states[n].log| && states[n].log[i].deed.Replay? ==>
      states[n].log[i].deed.of == states[n].log[i].call
  {
    EveryRun(es, states, n);
    var s := states[n];
    forall i | 0 <= i < |s.log| && s.log[i].deed.Replay? ensures s.log[i].deed.of == s.log[i].call {
      EntryAt(s.firsts, s.stamped, s.log, i);
    }
  }

  // ----- how often a call is executed -----

  function Deliveries(log: seq<Delivery>, c: nat): nat
  {
    if log == [] then 0
    else Deliveries(log[..|log| - 1], c) + (if log[|log| - 1].call == c then 1 else 0)
  }

  function Executions(log: seq<Delivery>, c: nat): nat
  {
    if log == [] then 0
    else Executions(log[..|log| - 1], c)
         + (if log[|log| - 1].call == c && log[|log| - 1].deed.Ran? then 1 else 0)
  }

  /** Answered with the reply of another call. */
  predicate Misled(d: Delivery)
  {
    d.deed.Replay? && d.deed.of != d.call
  }

  /**
   * The deliveries of c that were neither refused nor misled, up to and including, in each era, the first one of
   * its first transmission that was recorded.
   */
  function Due(f: seq<nat>, log: seq<Delivery>, c: nat): nat
  {
    if log == [] then 0
    else
      var front, d := log[..|log| - 1], log[|log| - 1];
      Due(f, front, c)
      + (if d.call == c && !d.deed.Refusal? && !Misled(d) && !Remembered(f, front, c, d.era) then 1 else 0)
  }

  lemma {:induction false} CountDue(f: seq<nat>, n: nat, log: seq<Delivery>, c: nat)
    requires LogOk(f, n, log)
    ensures Executions(log, c) == Due(f, log, c)
  {
    if log != [] {
      CountDue(f, n, log[..|log| - 1], c);
    }
  }

  /** Over every run and for every handling: how often each call was executed. */
  lemma ExecutionCount(es: seq<Event>, states: seq<State>, n: nat, c: nat)
    requires Runs(es, states) && n < |states|
    ensures Executions(states[n].log, c) == Due(states[n].firsts, states[n].log, c)
  {
    EveryRun(es, states, n);
    CountDue(states[n].firsts, states[n].stamped, states[n].log, c);
  }

  /** The first transmission of call c is among these deliveries. */
  predicate FirstSeen(f: seq<nat>, log: seq<Delivery>, c: nat)
  {
    c < |f| && exists j :: 0 <= j < |log| && log[j].stamp == f[c]
  }

  lemma FirstSeenSnoc(f: seq<nat>, log: seq<Delivery>, d: Delivery, c: nat)
    requires c < |f|
    ensures FirstSeen(f, log + [d], c) <==> FirstSeen(f, log, c) || d.stamp == f[c]
  {
    var l := log + [d];
    assert forall j :: 0 <= j < |log| ==> l[j] == log[j];
    assert l[|log|] == d;
  }

  /** Whatever arrived of call c in one era was executed and recorded, or answered with its own reply. */
  predicate Untroubled(log: seq<Delivery>, c: nat, era: nat)
  {
    forall i :: 0 <= i < |log| && log[i].call == c ==>
      log[i].era == era && (log[i].deed == Ran(true) || (log[i].deed.Replay? && log[i].deed.of == c))
  }

  lemma SeenIsRemembered(f: seq<nat>, n: nat, log: seq<Delivery>, c: nat, era: nat)
    requires Ordered(f, n) && LogOk(f, n, log) && Untroubled(log, c, era) && FirstSeen(f, log, c)
    ensures Remembered(f, log, c, era)
  {
    var j :| 0 <= j < |log| && log[j].stamp == f[c];
    EntryAt(f, n, log, j);
    OneOwner(f, n, log[j].call, c, f[c]);
    if log[j].deed.Replay? {
      var k :| 0 <= k < j && log[..j][k].stamp == f[c] && log[..j][k].deed == Ran(true) && log[..j][k].era == era;
      assert log[..j][k] == log[k];
    }
  }

  lemma {:induction false} NoDelivery(log: seq<Delivery>, c: nat)
    requires forall i :: 0 <= i < |log| ==> log[i].call != c
    ensures Deliveries(log, c) == 0
  {
    if log != [] {
      NoDelivery(log[..|log| - 1], c);
    }
  }

  lemma LastApart(log: seq<Delivery>)
    requires log != []
    ensures log == log[..|log| - 1] + [log[|log| - 1]]
  {
  }

  /** Executions of a call: one if its first transmission was seen, as many as were delivered if not. */
  predicate Counted(f: seq<nat>, log: seq<Delivery>, c: nat)
  {
    Executions(log, c) == if FirstSeen(f, log, c) then 1 else Deliveries(log, c)
  }

  lemma NoneBefore(f: seq<nat>, n: nat, l: seq<Delivery>, d: Delivery, c: nat)
    requires c < |f| && !FirstSeen(f, l, c) && d.stamp == f[c]
    requires forall i :: 0 <= i < |l| ==> Owns(f, n, l[i].call, l[i].stamp) && l[i].stamp <= d.stamp
    ensures Deliveries(l, c) == 0
  {
    NoDelivery(l, c);
  }

  lemma CountOne(f: seq<nat>, n: nat, l: seq<Delivery>, d: Delivery, c: nat, era: nat)
    requires Ordered(f, n) && LogOk(f, n, l) && EntryOk(f, n, l, d) && c < |f|
    requires Untroubled(l, c, era) && Untroubled([d], c, era) && Counted(f, l, c)
    requires forall i :: 0 <= i < |l| ==> Owns(f, n, l[i].call, l[i].stamp) && l[i].stamp <= d.stamp
    ensures Counted(f, l + [d], c)
  {
    var log := l + [d];
    assert log[..|log| - 1] == l && log[|log| - 1] == d == [d][0];
    FirstSeenSnoc(f, l, d, c);
    if FirstSeen(f, l, c) {
      SeenIsRemembered(f, n, l, c, era);
    } else if d.stamp == f[c] {
      OneOwner(f, n, d.call, c, f[c]);
      NoneBefore(f, n, l, d, c);
    }
  }

  lemma {:induction false} CountOnce(f: seq<nat>, n: nat, log: seq<Delivery>, now: nat, c: nat, era: nat)
    requires Ordered(f, n) && LogOk(f, n, log) && Behind(f, n, log, [], now) && c < |f| && Untroubled(log, c, era)
    ensures Counted(f, log, c)
  {
    if log != [] {
      var l, d := log[..|log| - 1], log[|log| - 1];
      LastApart(log);
      CountOnce(f, n, l, now, c, era);
      CountOne(f, n, l, d, c, era);
    }
  }

  /**
   * A call that is never refused, whose every execution is recorded, whose record is not dropped and that is not
   * misled, is executed exactly once if its first transmission arrives, however many others do, and once for
   * each transmission that arrives if not. Nothing is asked of any other call.
   */
  lemma RecordedOnce(es: seq<Event>, states: seq<State>, n: nat, c: nat, era: nat)
    requires Runs(es, states) && n < |states| && c < |states[n].firsts| && Untroubled(states[n].log, c, era)
    ensures Counted(states[n].firsts, states[n].log, c)
  {
    EveryRun(es, states, n);
    var s := states[n];
    CountOnce(s.firsts, s.stamped, s.log, s.era, c, era);
  }

  // ----- what the conditions are needed for -----

  /** A run under construction, by its latest state. */
  ghost predicate Reached(s: State)
  {
    exists es, states :: Runs(es, states) && states[|es|] == s
  }

  lemma ReachedInit()
    ensures Reached(INIT)
  {
    assert Runs([], [INIT]);
  }

  lemma Extend(s: State, e: Event) returns (t: State)
    requires Reached(s) && s.serial < 0x1_0000 && Enabled(s, e)
    ensures t == Apply(s, e) && Reached(t)
  {
    t := Apply(s, e);
    var es, states :| Runs(es, states) && states[|es|] == s;
    assert Runs(es + [e], states + [t]);
  }

  lemma LostFirst() returns (s: State)
    ensures Reached(s) && s.serial == 3 && s.firsts == [0] && s.log == [] && s.last == NOTHING && s.era == 0
    ensures s.up == [Msg(2, 1, 0, 1)]
  {
    ReachedInit();
    s := Extend(INIT, Begin(7));
    s := Extend(s, Attempt);
    s := Extend(s, LoseUp(0));
    s := Extend(s, TimeOut);
    s := Extend(s, Attempt);
  }

  lemma LostFirstServed() returns (s: State)
    ensures Reached(s) && s.serial == 3 && s.firsts == [0] && s.up == [Msg(2, 1, 0, 1)]
    ensures s.era == 0 && s.log == [Delivery(0, 1, 0, Ran(true))] && s.last == Ans(2, true, 0, 1)
  {
    s := LostFirst();
    s := Extend(s, DupUp(0));
    s := Extend(s, Deliver(0, Recorded));
  }

  /** Without the first transmission each later one that arrives is executed. */
  lemma LostFirstRunsTwice() returns (s: State)
    ensures Reached(s) && |s.firsts| == 1 && Executions(s.log, 0) == 2
  {
    s := LostFirstServed();
    s := Extend(s, Deliver(0, Recorded));
    var d := Delivery(0, 1, 0, Ran(true));
    assert s.log == [d] + [d] == [d, d];
    assert [d, d][..1] == [d] && [d][..0] == [];
    assert Executions([d], 0) == 1;
  }

  /** The first transmission of the first call is on its way. */
  lemma FirstSent() returns (s: State)
    ensures Reached(s)
    ensures s == State(2, 1, [0], 1, 0, true, true, 1, 0, [Msg(1, 1, 0, 0)], [], NOTHING, 0, [], [])
  {
    ReachedInit();
    s := Extend(INIT, Begin(1));
    s := Extend(s, Attempt);
  }

  lemma FirstOfSeven() returns (s: State)
    ensures Reached(s)
    ensures s == State(2, 1, [0], 1, 6, true, true, 1, 0, [Msg(1, 1, 0, 0)], [], NOTHING, 0, [], [])
  {
    ReachedInit();
    s := Extend(INIT, Begin(7));
    s := Extend(s, Attempt);
  }

  /** A refused call ends with a final reply and is never executed. */
  lemma RefusedRunsNever() returns (s: State)
    ensures Reached(s) && s.accepted == [Taken(0, 0, 0, true)] && Executions(s.log, 0) == 0
  {
    s := FirstSent();
    s := Extend(s, Deliver(0, Refused));
    s := Extend(s, Read);
    var d := Delivery(0, 0, 0, Refusal);
    assert s.log == [d] && [d][..0] == [];
  }

  /** The first transmission arrives, but its reply cannot be sent and is not recorded; the second is executed too. */
  lemma UnrecordedRunsTwice() returns (s: State)
    ensures Reached(s) && FirstSeen(s.firsts, s.log, 0) && Executions(s.log, 0) == 2
  {
    s := FirstOfSeven();
    s := Extend(s, Deliver(0, Unrecorded));
    s := Extend(s, TimeOut);
    s := Extend(s, Attempt);
    s := Extend(s, Deliver(0, Recorded));
    var d, e := Delivery(0, 0, 0, Ran(false)), Delivery(0, 1, 0, Ran(true));
    assert s.log == [d] + [e] == [d, e] && s.log[0].stamp == s.firsts[0];
    assert [d, e][..1] == [d] && [d][..0] == [];
    assert Executions([d], 0) == 1;
  }

  /** The first call was answered; since then k calls were made and lost. */
  ghost predicate Silence(s: State, k: nat)
  {
    && s.serial == SerialAt(k + 1) && s.stamped == |s.firsts| == k + 1
    && !s.active && !s.waiting && s.up == [] && s.down == []
    && s.last == Ans(1, true, 0, 0)
  }

  lemma FirstAnswered() returns (s: State)
    ensures Reached(s) && Silence(s, 0)
  {
    s := FirstSent();
    s := Extend(s, Deliver(0, Recorded));
    s := Extend(s, Read);
    NextSerial(0);
  }

  lemma OneMoreLost(s: State, k: nat) returns (t: State)
    requires Reached(s) && Silence(s, k)
    ensures Reached(t) && Silence(t, k + 1)
  {
    NextSerial(k + 1);
    t := Extend(s, Begin(1));
    t := Extend(t, Attempt);
    t := Extend(t, LoseUp(0));
    t := Extend(t, TimeOut);
  }

  lemma {:induction false} LongSilence(k: nat) returns (s: State)
    ensures Reached(s) && Silence(s, k)
  {
    if k == 0 {
      s := FirstAnswered();
    } else {
      s := LongSilence(k - 1);
      s := OneMoreLost(s, k - 1);
    }
  }

  /** After 65534 lost calls in a row the next one is given the answer to the very first. */
  lemma StaleReplay()
    ensures exists s :: Reached(s) && Taken(SERIALS, SERIALS, 0, false) in s.accepted
  {
    var s := LongSilence(SERIALS - 1);
    assert SerialAt(SERIALS) == 1;
    s := Extend(s, Begin(1));
    s := Extend(s, Attempt);
    s := Extend(s, Deliver(0, Recorded));
    s := Extend(s, Read);
    assert s.accepted[|s.accepted| - 1] == Taken(SERIALS, SERIALS, 0, false);
  }
}
