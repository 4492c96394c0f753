/** Serial numbers and the send and retry loops of bcap_client.c. */
module Client {
  import opened Wire

  const SERIALS := 65535
  const RETRY_MIN := 1
  const RETRY_MAX := 7

  /** A reply packet; code is its id field. */
  datatype Reply = Reply(serial: nat, code: int)

  const S_EXECUTING := 0x900
  const E_FAIL := 0x80004005 - 0x1_0000_0000

  /** bcap_param->serial++ in 16 bits, with 0 skipped */
  function Next(serial: nat): nat
    requires serial < 0x1_0000
  {
    var s := (serial + 1) % 0x1_0000;
    if s == 0 then 1 else s
  }

  /** The n-th serial a connection stamps, counting from 0. */
  function SerialAt(n: nat): (s: nat)
    ensures 1 <= s <= SERIALS
  {
    n % SERIALS + 1
  }

  lemma NextSerial(n: nat)
    ensures Next(SerialAt(n)) == SerialAt(n + 1)
  {
    var q, r := n / SERIALS, n % SERIALS;
    assert n == q * SERIALS + r;
    if r + 1 < SERIALS {
      assert n + 1 == q * SERIALS + (r + 1);
    } else {
      assert n + 1 == (q + 1) * SERIALS;
    }
  }

  /** Among any 65535 consecutive stamps a serial tells the stamp. */
  lemma SerialsDistinct(m: nat, n: nat)
    requires m <= n < m + SERIALS && SerialAt(m) == SerialAt(n)
    ensures m == n
  {
    var d := n - m;
    assert n == SERIALS * (n / SERIALS) + n % SERIALS;
    assert m == SERIALS * (m / SERIALS) + m % SERIALS;
    assert d == SERIALS * (n / SERIALS - m / SERIALS);
  }

  /** One attempt heard these replies before its receive call failed. */
  type Hearing = seq<Reply>

  /** The client takes a reply to the attempt stamped with serial. */
  predicate Takes(serial: nat, r: Reply)
  {
    r.serial == serial && r.code != S_EXECUTING
  }

  /** Nothing was heard under this serial but "still executing", code 0x900. */
  lemma UnansweredExactly(h: Hearing, serial: nat)
    ensures Unanswered(h, serial) <==> forall i :: 0 <= i < |h| && h[i].serial == serial ==> h[i].code == 0x900
  {
  }

  predicate Unanswered(h: Hearing, serial: nat)
  {
    forall i :: 0 <= i < |h| ==> !Takes(serial, h[i])
  }

  /** The first reply to this serial has this code. */
  ghost predicate FirstTaken(h: Hearing, serial: nat, code: int)
  {
    exists j :: 0 <= j < |h| && Takes(serial, h[j]) && h[j].code == code && Unanswered(h[..j], serial)
  }

  /** CONN_BCAP_CLIENT; stamped counts the serials used so far. */
  class Connection {
    const link: Link
    var retry: nat
    var serial: nat
    ghost var stamped: nat

    ghost predicate Valid()
      reads this
    {
      && serial == SerialAt(stamped)
      && RETRY_MIN <= retry <= RETRY_MAX && (link == TCP ==> retry == 1)
    }

    /** bCap_Open_Client as far as it sets these fields */
    constructor (link: Link, retry: nat)
      ensures Valid() && stamped == 0 && this.link == link
      ensures this.retry == if link == TCP then 1 else if retry < 1 then 1 else if retry > 7 then 7 else retry
    {
      this.link := link;
      this.retry := 1;
      serial, stamped := 1, 0;
      new;
      SetRetry(retry);
    }

    /** bCap_SetRetry */
    method SetRetry(n: nat)
      requires serial == SerialAt(stamped)
      modifies this`retry
      ensures Valid()
      ensures retry == if link == TCP then 1 else if n < 1 then 1 else if n > 7 then 7 else n
    {
      match link {
        case TCP => retry := 1;
        case UDP | COM =>
          if n < RETRY_MIN {
            retry := RETRY_MIN;
          } else if RETRY_MAX < n {
            retry := RETRY_MAX;
          } else {
            retry := n;
          }
      }
    }

    /**
     * send_receive. heard tells what each attempt would hear, sends whether its packet can be sent.
     * The serials stamped and the first serial sent along with every attempt are returned beside the
     * code; ended tells that the code is a reply's.
     */
    method SendReceive(heard: seq<Hearing>, sends: seq<bool>)
      returns (code: int, ended: bool, serials: seq<nat>, reserv: nat)
      requires Valid() && |heard| == |sends| == retry
      modifies this`serial, this`stamped
      ensures Valid() && stamped == old(stamped) + |serials| && 1 <= |serials| <= retry
      ensures forall i :: 0 <= i < |serials| ==> serials[i] == SerialAt(old(stamped) + i)
      ensures reserv == if link == TCP then 0 else serials[0]
      ensures forall i :: 0 <= i < |serials| - 1 ==> sends[i] && Unanswered(heard[i], serials[i])
      ensures ended ==> code != 0x900
      ensures var i := |serials| - 1;
              if ended then sends[i] && FirstTaken(heard[i], serials[i], code)
              else !sends[i] || (|serials| == retry && Unanswered(heard[i], serials[i]))
    {
      reserv := if link == TCP then 0 else serial;
      code, ended, serials := E_FAIL, false, [];
      while |serials| < retry
        invariant |serials| <= retry && !ended
        invariant serial == SerialAt(stamped) && stamped == old(stamped) + |serials|
        invariant forall i :: 0 <= i < |serials| ==> serials[i] == SerialAt(old(stamped) + i)
        invariant forall i :: 0 <= i < |serials| ==> sends[i] && Unanswered(heard[i], serials[i])
        invariant reserv == if link == TCP then 0 else SerialAt(old(stamped))
      {
        var k := |serials|;
        serials := serials + [serial];
        NextSerial(stamped);
        serial := Next(serial);
        stamped := stamped + 1;
        if !sends[k] {
          return;
        }
        for j := 0 to |heard[k]|
          invariant Unanswered(heard[k][..j], serials[k])
        {
          if heard[k][j].serial == serials[k] && heard[k][j].code != S_EXECUTING {
            code, ended := heard[k][j].code, true;
            return;
          }
        }
        assert heard[k][..|heard[k]|] == heard[k];
      }
    }
  }
}
