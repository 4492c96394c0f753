/** The teach pendant's connection state and its notifications (TPComm/dn_tpcomm.c). */
module Pendant {
  import opened Wire

  const TPERROR_TIMEOUT := 10000
  const TPLESS_INTERVAL := 10000
  const TP_CMD_REQ_ID := 0x0EF0

  // RTK_RETRY_FLAG, RTK_RETRY_COUNT and the bits NativeCommand clears
  const RETRY_FLAG := 0x1000
  const RETRY_COUNT := 0x2000

  datatype Tp = DISCONNECT | CONNECT | TPLESS | TPERROR

  /** What tp_recv returned: CTS is off, another failure, or a packet. */
  datatype Heard = Denied | Failed | Packet(command: nat)

  /** One receive_execute: what was heard, whether the reply could be sent, and the time. */
  datatype Input = Input(heard: Heard, replied: bool, at: nat)

  /** The state and the time check_clock was set; the field keeps that time modulo 2^32. */
  datatype Pad = Pad(state: Tp, check: nat)

  function NativeCommand(command: nat): (c: nat)
  {
    command % RETRY_FLAG
  }

  /** RTK_CMD_REJ, RTK_CMD_ACK and RTK_CMD_NAK get no reply. */
  predicate Answers(command: nat)
  {
    NativeCommand(command) !in {0x0E01, 0x0E02, 0x0E82}
  }

  /** The packet was received and the reply it calls for was sent. */
  predicate Accepted(i: Input)
  {
    i.heard.Packet? && (Answers(i.heard.command) ==> i.replied)
  }

  /** The state the cycle asks for. A request for the ID alone does not connect. */
  function Wanted(state: Tp, heard: Heard): Tp
  {
    match heard
    case Denied => TPLESS
    case Failed => TPERROR
    case Packet(command) => if state != CONNECT && NativeCommand(command) == TP_CMD_REQ_ID then state else CONNECT
  }

  predicate Late(p: Pad, now: nat, limit: nat)
  {
    TimeDiff(p.check % U32, now % U32) > limit
  }

  /** receive_execute: the new state and the notification, if any. */
  function Cycle(p: Pad, i: Input): (Pad, seq<Tp>)
  {
    var wanted := Wanted(p.state, i.heard);
    var next := Pad(wanted, i.at);
    if i.heard.Packet? && !Accepted(i) then (p, [])
    else if p.state == CONNECT then
      if wanted == CONNECT then (next, [])
      else if wanted == TPLESS || Late(p, i.at, TPERROR_TIMEOUT) then (next, [DISCONNECT])
      else (p, [])
    else if wanted == CONNECT then (next, [CONNECT])
    else if Late(p, i.at, TPLESS_INTERVAL) then (next, [wanted])
    else (p, [])
  }

  class Connection {
    var state: Tp
    var check: nat
    ghost var notified: seq<Tp>

    constructor (now: nat)
      ensures state == TPLESS && check == now && notified == []
    {
      state, check, notified := TPLESS, now, [];
    }

    method Notify(kind: Tp)
      modifies this`notified
      ensures notified == old(notified) + [kind]
    {
      notified := notified + [kind];
    }

    method ReceiveExecute(i: Input)
      requires state != DISCONNECT
      modifies this
      ensures (Pad(state, check), notified) ==
        (var c := old(Cycle(Pad(state, check), i)); (c.0, old(notified) + c.1))
    {
      assert old(notified) + [] == old(notified);
      var wanted := state;
      match i.heard {
        case Denied => wanted := TPLESS;
        case Failed => wanted := TPERROR;
        case Packet(command) =>
          if Answers(command) && !i.replied { return; }
          if wanted != CONNECT && NativeCommand(command) != TP_CMD_REQ_ID {
            wanted := CONNECT;
          }
      }
      var diff := TimeDiff(check % U32, i.at % U32);
      if state == CONNECT {
        if wanted == CONNECT {
          check := i.at;
        } else if wanted == TPLESS || diff > TPERROR_TIMEOUT {
          Notify(DISCONNECT);
          state, check := wanted, i.at;
        }
      } else if wanted == CONNECT {
        Notify(CONNECT);
        state, check := CONNECT, i.at;
      } else if diff > TPLESS_INTERVAL {
        Notify(wanted);
        state, check := wanted, i.at;
      }
    }
  }

  /** More than ten seconds since check_clock was set, as the 32-bit difference has it. */
  predicate Overdue(p: Pad, now: nat)
  {
    TimeDiff(p.check % 0x1_0000_0000, now % 0x1_0000_0000) > 10000
  }

  /** A packet, by its command without retry bits: 0x0E01, 0x0E02 and 0x0E82 get no reply, 0x0EF0 does not connect. */
  lemma PacketCycle(p: Pad, i: Input)
    requires i.heard.Packet?
    ensures var native := i.heard.command % 0x1000;
            var silent := native == 0x0E01 || native == 0x0E02 || native == 0x0E82;
            Cycle(p, i) ==
              if !silent && !i.replied then (p, [])
              else if p.state == CONNECT then (Pad(CONNECT, i.at), [])
              else if native != 0x0EF0 then (Pad(CONNECT, i.at), [CONNECT])
              else if Overdue(p, i.at) then (Pad(p.state, i.at), [p.state])
              else (p, [])
  {
  }

  /** Without a packet a connection ends at once when CTS goes off, else when overdue, as any repeated notice is. */
  lemma SilentCycle(p: Pad, i: Input)
    requires !i.heard.Packet?
    ensures var wanted := if i.heard.Denied? then TPLESS else TPERROR;
            Cycle(p, i) ==
              if p.state == CONNECT then
                if i.heard.Denied? || Overdue(p, i.at) then (Pad(wanted, i.at), [DISCONNECT]) else (p, [])
              else if Overdue(p, i.at) then (Pad(wanted, i.at), [wanted])
              else (p, [])
  {
  }

  // ----- runs from TPComm_Open -----

  function After(start: nat, run: seq<Input>): Pad
  {
    if run == [] then Pad(TPLESS, start)
    else Cycle(After(start, run[..|run| - 1]), run[|run| - 1]).0
  }

  function Notices(start: nat, run: seq<Input>): seq<Tp>
  {
    if run == [] then []
    else Notices(start, run[..|run| - 1]) + Cycle(After(start, run[..|run| - 1]), run[|run| - 1]).1
  }

  /** The notifications of a connection made or lost. */
  function Links(notices: seq<Tp>): seq<Tp>
  {
    if notices == [] then []
    else
      Links(notices[..|notices| - 1]) + OfLink([notices[|notices| - 1]])
  }

  /** A notification of at most one kind, kept when it is about the link. */
  function OfLink(more: seq<Tp>): seq<Tp>
  {
    if more == [CONNECT] || more == [DISCONNECT] then more else []
  }

  /** CONNECT first, then by turns. */
  predicate Alternate(links: seq<Tp>)
  {
    forall i :: 0 <= i < |links| ==> links[i] == if i % 2 == 0 then CONNECT else DISCONNECT
  }

  lemma LinksSnoc(notices: seq<Tp>, more: seq<Tp>)
    requires |more| <= 1
    ensures Links(notices + more) == Links(notices) + OfLink(more)
  {
    if more == [] {
      assert notices + more == notices;
    } else {
      assert more == [more[0]];
      assert (notices + more)[..|notices|] == notices;
    }
  }

  /** What a cycle keeps: the links so far alternate and the state says which one is next. */
  predicate InStep(links: seq<Tp>, state: Tp)
  {
    Alternate(links) && state != DISCONNECT && (state == CONNECT <==> |links| % 2 == 1)
  }

  lemma CycleInStep(links: seq<Tp>, p: Pad, i: Input)
    requires InStep(links, p.state)
    ensures InStep(links + OfLink(Cycle(p, i).1), Cycle(p, i).0.state)
  {
    var more := OfLink(Cycle(p, i).1);
    if more == [] {
      assert links + more == links;
    }
  }

  /** In every run CONNECT and DISCONNECT alternate, and the state is CONNECT exactly after a CONNECT. */
  lemma {:induction false} NoticesAlternate(start: nat, run: seq<Input>)
    ensures InStep(Links(Notices(start, run)), After(start, run).state)
  {
    if run != [] {
      var front, last := run[..|run| - 1], run[|run| - 1];
      NoticesAlternate(start, front);
      LinksSnoc(Notices(start, front), Cycle(After(start, front), last).1);
      CycleInStep(Links(Notices(start, front)), After(start, front), last);
    }
  }

  /** The last packet accepted, or -1. */
  function LastAccepted(run: seq<Input>): (k: int)
    ensures -1 <= k < |run| && (k >= 0 ==> Accepted(run[k]))
    ensures forall i :: 0 <= i < |run| && Accepted(run[i]) ==> i <= k
  {
    if run == [] then -1
    else if Accepted(run[|run| - 1]) then |run| - 1
    else LastAccepted(run[..|run| - 1])
  }

  /** While connected, check_clock is the time of the last packet accepted. */
  lemma {:induction false} CheckIsLast(start: nat, run: seq<Input>)
    requires After(start, run).state == CONNECT
    ensures LastAccepted(run) >= 0 && After(start, run).check == run[LastAccepted(run)].at
  {
    var front, last := run[..|run| - 1], run[|run| - 1];
    if !Accepted(last) {
      CheckIsLast(start, front);
    }
  }

  /** The last cycle notified a DISCONNECT although CTS was not off. */
  predicate ErrorDisconnect(start: nat, run: seq<Input>)
  {
    run != [] && run[|run| - 1].heard.Failed?
    && Cycle(After(start, run[..|run| - 1]), run[|run| - 1]).1 == [DISCONNECT]
  }

  /**
   * In any run, when receiving fails in a connection, the connection is given up if the last packet accepted is
   * more than ten seconds old; but if the clock has wrapped since, it is given up unless that is almost a whole
   * turn ago. So within ten seconds of a packet it is given up if and only if the clock has wrapped.
   */
  lemma ErrorDisconnectExactly(start: nat, run: seq<Input>, front: seq<Input>, last: Input)
    requires run == front + [last] && last.heard.Failed? && After(start, front).state == CONNECT
    requires var k := LastAccepted(front); k >= 0 ==> front[k].at <= last.at < front[k].at + U32
    ensures var k := LastAccepted(front);
            k >= 0 &&
            var t, now := front[k].at, last.at;
            && (ErrorDisconnect(start, run)
                <==> if t / U32 == now / U32 then now - t > TPERROR_TIMEOUT else now - t < U32 - 1 - TPERROR_TIMEOUT)
            && (now - t <= TPERROR_TIMEOUT ==> (ErrorDisconnect(start, run) <==> t / U32 != now / U32))
  {
    CheckIsLast(start, front);
    assert run[..|run| - 1] == front && run[|run| - 1] == last;
    LateExactly(front[LastAccepted(front)].at, last.at, TPERROR_TIMEOUT);
  }

  lemma {:induction false} OnlyWhileConnected(start: nat, run: seq<Input>)
    requires ErrorDisconnect(start, run)
    ensures After(start, run[..|run| - 1]).state == CONNECT
  {
    NoticesAlternate(start, run[..|run| - 1]);
  }

  predicate Monotone(start: nat, run: seq<Input>)
  {
    && (forall i :: 0 <= i < |run| ==> start <= run[i].at)
    && forall i, j :: 0 <= i <= j < |run| ==> run[i].at <= run[j].at
  }

  /**
   * A connection is given up for errors only when nothing was accepted for over ten seconds, unless the clock
   * has wrapped since the packet in question.
   */
  lemma ErrorDisconnectIsLate(start: nat, run: seq<Input>, i: nat)
    requires Monotone(start, run) && ErrorDisconnect(start, run)
    requires i < |run| && Accepted(run[i]) && run[i].at / U32 == run[|run| - 1].at / U32
    ensures run[|run| - 1].at - run[i].at > TPERROR_TIMEOUT
  {
    var front, last := run[..|run| - 1], run[|run| - 1];
    OnlyWhileConnected(start, run);
    CheckIsLast(start, front);
    var k := LastAccepted(front);
    assert front[i] == run[i] && front[k] == run[k] && run[i].at <= run[k].at <= last.at;
    SameEpoch(run[i].at, run[k].at, last.at);
    assert run == front + [last];
    ErrorDisconnectExactly(start, run, front, last);
  }

  lemma SameEpoch(a: nat, b: nat, c: nat)
    requires a <= b <= c && a / U32 == c / U32
    ensures b / U32 == c / U32 && c - b < U32
  {
  }

  /** After a wrap the same loss is reported at once: here 32 ms after an accepted packet. */
  lemma WrapDisconnectsAtOnce(run: seq<Input>)
    requires run == [Input(Packet(0x0C20), true, U32 - 16), Input(Failed, true, U32 + 16)]
    ensures Monotone(U32 - 20, run) && Accepted(run[0]) && ErrorDisconnect(U32 - 20, run)
    ensures run[1].at - run[0].at == 32
  {
    assert run[..1] == [run[0]] && run[..1][..0] == [];
    assert After(U32 - 20, run[..1]) == Pad(CONNECT, U32 - 16);
  }

  // ----- retries of send_receive -----

  /** One more retry: the flag is or-ed in and the count added, in 16 bits. */
  function Again(c: nat): nat
  {
    ((if c / RETRY_FLAG % 2 == 1 then c else c + RETRY_FLAG) + RETRY_COUNT) % U16
  }

  /** The command of retry k. */
  function Retried(command: nat, k: nat): nat
  {
    if k == 0 then command else Again(Retried(command, k - 1))
  }

  /** The flag and a count of three bits above a native command. */
  function Code(command: nat, n: nat): nat
  {
    command + 0x1000 + n * 0x2000
  }

  lemma AgainCode(command: nat, n: nat)
    requires command < 0x1000 && n < 8
    ensures Again(command) == Code(command, 1) && NativeCommand(Code(command, n)) == command
    ensures Again(Code(command, n)) == Code(command, if n == 7 then 0 else n + 1)
  {
  }

  lemma NextCount(k: nat)
    requires k > 0
    ensures k % 8 == if (k - 1) % 8 == 7 then 0 else (k - 1) % 8 + 1
  {
  }

  /** Every retry is the same native command, flagged, with its number modulo 8 in the top three bits. */
  lemma {:induction false} RetryEncoding(command: nat, k: nat)
    requires command < 0x1000 && k > 0
    ensures Retried(command, k) == Code(command, k % 8) && NativeCommand(Retried(command, k)) == command
  {
    var n, before := k % 8, (k - 1) % 8;
    AgainCode(command, n);
    if k == 1 {
      assert Retried(command, 0) == command;
    } else {
      RetryEncoding(command, k - 1);
      AgainCode(command, before);
      NextCount(k);
    }
  }

  /** One attempt: not sent, no answer in time, another failure, or an answer. */
  datatype Attempt = Unsent | TimedOut | Broken | Answer(command: nat)

  datatype Result = Success(command: nat) | Rejected | Error

  function Outcome(a: Attempt): Result
  {
    if a.Answer? then (if NativeCommand(a.command) == 0x0E01 then Rejected else Success(a.command)) else Error
  }

  /** Only an answer ends in success, and the answer 0x0E01, whatever its retry bits, is a rejection. */
  lemma OutcomeByCommand(a: Attempt)
    ensures Outcome(a) == Rejected <==> a.Answer? && a.command % 0x1000 == 0x0E01
    ensures forall c :: Outcome(a) == Success(c) <==> a == Answer(c) && c % 0x1000 != 0x0E01
  {
  }

  /** The position of the first attempt that did not time out, or the last one allowed. */
  function Decisive(attempts: seq<Attempt>): (k: nat)
    requires attempts != []
    ensures k < |attempts| && forall i :: 0 <= i < k ==> attempts[i].TimedOut?
    ensures attempts[k].TimedOut? ==> k == |attempts| - 1
  {
    if attempts[0].TimedOut? && |attempts| > 1 then 1 + Decisive(attempts[1..]) else 0
  }

  lemma DecisiveIs(attempts: seq<Attempt>, k: nat)
    requires k < |attempts| && forall i :: 0 <= i < k ==> attempts[i].TimedOut?
    requires attempts[k].TimedOut? ==> k == |attempts| - 1
    ensures Decisive(attempts) == k
  {
  }

  /** The commands of the first n transmissions. */
  function Commands(command: nat, n: nat): (s: seq<nat>)
    ensures |s| == n && forall i :: 0 <= i < n ==> s[i] == Retried(command, i)
  {
    if n == 0 then [] else Commands(command, n - 1) + [Retried(command, n - 1)]
  }

  method SendOne(ghost command: nat, k: nat, c: nat, sent: seq<nat>) returns (c': nat, sent': seq<nat>)
    requires sent == Commands(command, k) && c == if k == 0 then command else Retried(command, k - 1)
    ensures c' == Retried(command, k) && sent' == Commands(command, k + 1)
  {
    c' := if k > 0 then Again(c) else c;
    sent' := sent + [c'];
  }

  /** send_receive: only a timeout is retried, and every packet sent is a retry of the same command. */
  method SendReceive(state: Tp, command: nat, attempts: seq<Attempt>) returns (r: Result, sent: seq<nat>)
    requires attempts != []
    ensures state == TPLESS ==> r == Error && sent == []
    ensures state != TPLESS ==>
              r == Outcome(attempts[Decisive(attempts)]) && sent == Commands(command, Decisive(attempts) + 1)
  {
    r, sent := Error, [];
    if state == TPLESS { return; }
    var c := command;
    var k := 0;
    while k < |attempts|
      invariant k <= |attempts| && r == Error
      invariant sent == Commands(command, k) && c == if k == 0 then command else Retried(command, k - 1)
      invariant forall i :: 0 <= i < k ==> attempts[i].TimedOut?
    {
      c, sent := SendOne(command, k, c, sent);
      if !attempts[k].TimedOut? {
        DecisiveIs(attempts, k);
        r := Outcome(attempts[k]);
        return;
      }
      k := k + 1;
    }
    DecisiveIs(attempts, k - 1);
  }
}
