/** The parent's child list and delete list in bcap_server.c, kept in two reused pointer fields. */
module Relations {
  import opened Wire

  const CLIENT_MAX := 20
  const UDP_LIFELIMIT := 10000

  predicate Distinct(s: seq<Conn>)
  {
    forall i, j :: 0 <= i < j < |s| ==> s[i] != s[j]
  }

  /** Three lists without repetition and without a common node. */
  ghost predicate Apart(a: seq<Conn>, b: seq<Conn>, c: seq<Conn>)
  {
    && Distinct(a) && Distinct(b) && Distinct(c)
    && (forall x :: x in a ==> x !in b && x !in c)
    && (forall x :: x in b ==> x !in c)
  }

  lemma MoveApart(a: seq<Conn>, i: nat, b: seq<Conn>, c: seq<Conn>)
    requires Apart(a, b, c) && i < |a|
    ensures Apart(a[..i] + a[i + 1..], [a[i]] + b, c)
  {
    var r, d := a[..i] + a[i + 1..], [a[i]] + b;
    assert forall j :: 0 <= j < |r| ==> r[j] == a[if j < i then j else j + 1];
    assert forall j :: 0 < j < |d| ==> d[j] == b[j - 1];
    assert forall x :: x in r ==> x in a;
    assert a[i] !in r && a[i] in a;
  }

  lemma Separate(a: seq<Conn>, b: seq<Conn>)
    requires forall x :: x in a ==> x !in b
    ensures forall j :: 0 <= j < |b| ==> b[j] !in a
    ensures forall i :: 0 <= i < |a| ==> a[i] !in b
  {
  }

  lemma FreeApart(a: seq<Conn>, b: seq<Conn>, c: seq<Conn>)
    requires Apart(a, b, c)
    ensures Apart(a, [], c + b)
  {
    var d := c + b;
    assert forall j :: 0 <= j < |d| ==> d[j] == if j < |c| then c[j] else b[j - |c|];
    assert forall i, j :: 0 <= i < |b| && 0 <= j < |c| ==> b[i] in b && c[j] in c;
  }

  predicate DistinctAddresses(s: seq<Conn>)
  {
    forall i, j :: 0 <= i < j < |s| ==> s[i].address != s[j].address
  }

  /** The test check_lifelimit makes; it is meant to say: not heard of for longer than the limit. */
  predicate Expired(lastModified: nat, now: nat)
  {
    TimeDiff(lastModified % U32, now % U32) > UDP_LIFELIMIT
  }

  /** It says so exactly while the clock has not wrapped, or long after it has. */
  lemma ExpiredExactly(lastModified: nat, now: nat)
    requires lastModified <= now < lastModified + U32
    ensures (Expired(lastModified, now) <==> now - lastModified > 10000)
      <==> lastModified / U32 == now / U32 || 10000 < now - lastModified < U32 - 1 - 10000
  {
    LateExactly(lastModified, now, UDP_LIFELIMIT);
  }

  /** A client heard of 32 ms ago is dropped if the clock wrapped in between. */
  lemma WrapExpires()
    ensures Expired(U32 - 16, U32 + 16) && (U32 + 16) - (U32 - 16) == 32
  {
  }

  /** Of the first n nodes those that have not expired; clock gives the time of each look. */
  function Kept(s: seq<Conn>, mods: seq<nat>, clock: seq<nat>, n: nat): (r: seq<Conn>)
    requires n <= |s| == |mods| && n <= |clock|
    ensures |r| <= n
  {
    if n == 0 then []
    else Kept(s, mods, clock, n - 1) + (if Expired(mods[n - 1], clock[n - 1]) then [] else [s[n - 1]])
  }

  /** Of the first n nodes those that have expired, the one looked at last first, as the delete list has them. */
  function Gone(s: seq<Conn>, mods: seq<nat>, clock: seq<nat>, n: nat): (r: seq<Conn>)
    requires n <= |s| == |mods| && n <= |clock|
  {
    if n == 0 then []
    else (if Expired(mods[n - 1], clock[n - 1]) then [s[n - 1]] else []) + Gone(s, mods, clock, n - 1)
  }

  predicate Parted(kept: seq<Conn>, gone: seq<Conn>, s: seq<Conn>)
  {
    multiset(kept) + multiset(gone) == multiset(s)
  }

  lemma OneKept(kept: seq<Conn>, gone: seq<Conn>, s: seq<Conn>, x: Conn)
    requires Parted(kept, gone, s)
    ensures Parted(kept + [x], gone, s + [x])
  {
  }

  lemma OneGone(kept: seq<Conn>, gone: seq<Conn>, s: seq<Conn>, x: Conn)
    requires Parted(kept, gone, s)
    ensures Parted(kept, [x] + gone, s + [x])
  {
  }

  lemma PartedNext(late: bool, kept: seq<Conn>, gone: seq<Conn>, s: seq<Conn>, x: Conn,
                   kept': seq<Conn>, gone': seq<Conn>, s': seq<Conn>)
    requires Parted(kept, gone, s) && s' == s + [x]
    requires kept' == if late then kept else kept + [x]
    requires gone' == if late then [x] + gone else gone
    ensures Parted(kept', gone', s')
  {
    OneKept(kept, gone, s, x);
    OneGone(kept, gone, s, x);
  }

  lemma NoneParted(s: seq<Conn>, mods: seq<nat>, clock: seq<nat>)
    requires |s| == |mods|
    ensures Parted(Kept(s, mods, clock, 0), Gone(s, mods, clock, 0), s[..0])
  {
  }

  lemma Grown(s: seq<Conn>, k: nat)
    requires k < |s|
    ensures s[..k + 1] == s[..k] + [s[k]]
  {
  }

  lemma PartedAfter(s: seq<Conn>, mods: seq<nat>, clock: seq<nat>, k: nat, done: seq<Conn>, next: seq<Conn>)
    requires k < |s| == |mods| && k < |clock| && next == done + [s[k]]
    requires Parted(Kept(s, mods, clock, k), Gone(s, mods, clock, k), done)
    ensures Parted(Kept(s, mods, clock, k + 1), Gone(s, mods, clock, k + 1), next)
  {
    var late := Expired(mods[k], clock[k]);
    SweepNext(s, mods, clock, k);
    PartedNext(late, Kept(s, mods, clock, k), Gone(s, mods, clock, k), done, s[k],
               Kept(s, mods, clock, k + 1), Gone(s, mods, clock, k + 1), next);
  }

  lemma {:induction false} PartedUpTo(s: seq<Conn>, mods: seq<nat>, clock: seq<nat>, n: nat, done: seq<Conn>)
    requires n <= |s| == |mods| && n <= |clock| && done == s[..n]
    ensures Parted(Kept(s, mods, clock, n), Gone(s, mods, clock, n), done)
  {
    if n == 0 {
      NoneParted(s, mods, clock);
    } else {
      var front := s[..n - 1];
      PartedUpTo(s, mods, clock, n - 1, front);
      Grown(s, n - 1);
      PartedAfter(s, mods, clock, n - 1, front, done);
    }
  }

  /** Every node is kept or freed, and once. */
  lemma KeptOrGone(s: seq<Conn>, mods: seq<nat>, clock: seq<nat>)
    requires |s| == |mods| <= |clock|
    ensures Parted(Kept(s, mods, clock, |s|), Gone(s, mods, clock, |s|), s)
  {
    assert s[..|s|] == s;
    PartedUpTo(s, mods, clock, |s|, s);
  }

  /** The nodes freed while room was sought: none while there are fewer than the limit. */
  function Freed(s: seq<Conn>, mods: seq<nat>, clock: seq<nat>): seq<Conn>
    requires |s| == |mods| <= |clock|
  {
    if |s| < CLIENT_MAX then [] else Gone(s, mods, clock, |s|)
  }

  /** The children left once room was sought: all of them while there are fewer than the limit. */
  function Alive(s: seq<Conn>, mods: seq<nat>, clock: seq<nat>): seq<Conn>
    requires |s| == |mods| <= |clock|
  {
    if |s| < CLIENT_MAX then s else Kept(s, mods, clock, |s|)
  }

  /** Below twenty clients nobody is looked at; from twenty on every expired one is freed and no other. */
  lemma RoomByNumber(s: seq<Conn>, mods: seq<nat>, clock: seq<nat>)
    requires |s| == |mods| <= |clock| && Distinct(s)
    ensures |s| < 20 ==> Freed(s, mods, clock) == [] && Alive(s, mods, clock) == s
    ensures |s| >= 20 ==>
      forall i :: 0 <= i < |s| ==> (s[i] in Freed(s, mods, clock) <==> Expired(mods[i], clock[i]))
                                   && (s[i] in Alive(s, mods, clock) <==> !Expired(mods[i], clock[i]))
  {
    if |s| >= 20 {
      SweptApart(s, mods, clock, |s|);
      KeptOrGone(s, mods, clock);
      forall i | 0 <= i < |s|
        ensures s[i] !in Gone(s, mods, clock, |s|) || s[i] !in Kept(s, mods, clock, |s|)
      {
        OnceThere(s, i);
        InBoth(Kept(s, mods, clock, |s|), Gone(s, mods, clock, |s|), s, s[i]);
      }
    }
  }

  lemma OnceThere(s: seq<Conn>, i: nat)
    requires i < |s| && Distinct(s)
    ensures multiset(s)[s[i]] == 1
  {
    assert s == s[..i] + [s[i]] + s[i + 1..];
    assert s[i] !in s[..i] && s[i] !in s[i + 1..];
  }

  lemma InBoth(kept: seq<Conn>, gone: seq<Conn>, s: seq<Conn>, x: Conn)
    requires Parted(kept, gone, s) && multiset(s)[x] == 1
    ensures x !in gone || x !in kept
  {
    assert multiset(kept)[x] + multiset(gone)[x] == multiset(s)[x];
  }

  lemma {:induction false} SweptApart(s: seq<Conn>, mods: seq<nat>, clock: seq<nat>, n: nat)
    requires n <= |s| == |mods| && n <= |clock|
    ensures forall i :: 0 <= i < n ==> if Expired(mods[i], clock[i]) then s[i] in Gone(s, mods, clock, n)
                                       else s[i] in Kept(s, mods, clock, n)
  {
    if n > 0 {
      SweptApart(s, mods, clock, n - 1);
    }
  }

  lemma {:induction false} KeptWithin(s: seq<Conn>, mods: seq<nat>, clock: seq<nat>, n: nat)
    requires n <= |s| == |mods| && n <= |clock|
    ensures forall x :: x in Kept(s, mods, clock, n) ==> x in s[..n]
  {
    if n > 0 {
      KeptWithin(s, mods, clock, n - 1);
      Grown(s, n - 1);
    }
  }

  lemma {:induction false} KeptDistinct(s: seq<Conn>, mods: seq<nat>, clock: seq<nat>, n: nat)
    requires n <= |s| == |mods| && n <= |clock| && DistinctAddresses(s)
    ensures DistinctAddresses(Kept(s, mods, clock, n))
  {
    if n > 0 {
      KeptDistinct(s, mods, clock, n - 1);
      var front := Kept(s, mods, clock, n - 1);
      KeptWithin(s, mods, clock, n - 1);
      assert forall i :: 0 <= i < |front| ==> front[i] in s[..n - 1];
    }
  }

  /** The same nodes, the last first. */
  function Backwards(s: seq<Conn>): (r: seq<Conn>)
    ensures |r| == |s| && forall j :: 0 <= j < |r| ==> r[j] == s[|s| - 1 - j]
  {
    seq(|s|, j requires 0 <= j < |s| => s[|s| - 1 - j])
  }

  lemma Backward(s: seq<Conn>, n: nat)
    requires n < |s|
    ensures Backwards(s[..n + 1]) == [s[n]] + Backwards(s[..n])
  {
  }

  lemma CutAt(s: seq<Conn>, i: nat, r: seq<Conn>)
    requires i < |s| && r == s[..i] + s[i + 1..]
    ensures |r| == |s| - 1 && forall j :: 0 <= j < |r| ==> r[j] == s[if j < i then j else j + 1]
  {
  }

  lemma KidAt(front: seq<Conn>, s: seq<Conn>, n: nat)
    requires n < |s|
    ensures (front + s[n..])[|front|] == s[n]
    ensures |front| + 1 < |front + s[n..]| ==> n + 1 < |s| && (front + s[n..])[|front| + 1] == s[n + 1]
    ensures |front| + 1 == |front + s[n..]| ==> n + 1 == |s|
  {
  }

  lemma KidsAfter(front: seq<Conn>, s: seq<Conn>, n: nat)
    requires n < |s|
    ensures var all := front + s[n..];
            all[..|front|] + all[|front| + 1..] == front + s[n + 1..] && all == front + [s[n]] + s[n + 1..]
  {
  }

  lemma SweptKids(late: bool, kept: seq<Conn>, s: seq<Conn>, n: nat, kids: seq<Conn>)
    requires n < |s|
    requires var all := kept + s[n..]; kids == if late then all[..|kept|] + all[|kept| + 1..] else all
    ensures kids == (if late then kept else kept + [s[n]]) + s[n + 1..]
  {
    KidsAfter(kept, s, n);
  }

  lemma SweptDels(late: bool, x: Conn, gone: seq<Conn>, dels: seq<Conn>)
    requires dels == (if late then [x] else []) + gone
    ensures dels == if late then [x] + gone else gone
  {
    assert [] + gone == gone;
  }

  lemma SweepNext(s: seq<Conn>, mods: seq<nat>, clock: seq<nat>, n: nat)
    requires n < |s| == |mods| && n < |clock|
    ensures var late, kept, gone := Expired(mods[n], clock[n]), Kept(s, mods, clock, n), Gone(s, mods, clock, n);
            Kept(s, mods, clock, n + 1) == (if late then kept else kept + [s[n]])
            && Gone(s, mods, clock, n + 1) == if late then [s[n]] + gone else gone
  {
  }

  function Times(s: seq<Conn>): (r: seq<nat>)
    reads s
    ensures |r| == |s| && forall i :: 0 <= i < |s| ==> r[i] == s[i].lastModified
  {
    seq(|s|, i requires 0 <= i < |s| reads s => s[i].lastModified)
  }

  ghost predicate KidsLinked(own: Conn, s: seq<Conn>)
    reads s
  {
    && (forall i {:trigger s[i].parent} :: 0 <= i < |s| ==> s[i].parent == own)
    && (forall i {:trigger s[i].node1} :: 0 <= i < |s| ==> s[i].node1 == if i == 0 then null else s[i - 1])
    && (forall i {:trigger s[i].node2} :: 0 <= i < |s| ==> s[i].node2 == if i + 1 == |s| then null else s[i + 1])
  }

  ghost predicate DelsLinked(own: Conn, s: seq<Conn>)
    reads s
  {
    && (forall i {:trigger s[i].parent} :: 0 <= i < |s| ==> s[i].parent == own)
    && (forall i {:trigger s[i].node2} :: 0 <= i < |s| ==> s[i].node2 == if i + 1 == |s| then null else s[i + 1])
  }

  /**
   * CONN_BCAP_SERVER. In the root, node1 heads the child list and node2 the delete list. In a child,
   * node1 is the younger brother and node2 the elder; on the delete list node2 is the successor.
   */
  class Conn {
    const address: nat
    var lastModified: nat
    var numChild: nat
    var parent: Conn?
    var node1: Conn?
    var node2: Conn?

    // the lists of a root, and every node that was freed
    ghost var kids: seq<Conn>
    ghost var dels: seq<Conn>
    ghost var freed: seq<Conn>

    constructor (address: nat)
      ensures ValidRoot() && kids == [] && dels == [] && freed == []
      ensures this.address == address
    {
      this.address := address;
      lastModified, numChild, parent, node1, node2 := 0, 0, null, null, null;
      kids, dels, freed := [], [], [];
    }

    /** A new child, linked in by its parent. */
    constructor Child(address: nat, own: Conn, now: nat)
      ensures this.address == address && lastModified == now
      ensures parent == own && node1 == null && node2 == null
    {
      this.address := address;
      lastModified, numChild, parent, node1, node2 := now, 0, own, null, null;
      kids, dels, freed := [], [], [];
    }

    /** Each live child is on exactly one list, each list is linked as it should be, no freed node is on either. */
    ghost predicate ValidRoot()
      reads this, kids, dels
    {
      && parent == null && this !in kids && this !in dels
      && Apart(kids, dels, freed)
      && numChild == |kids| + |dels| <= CLIENT_MAX
      && node1 == (if kids == [] then null else kids[0])
      && node2 == (if dels == [] then null else dels[0])
      && KidsLinked(this, kids) && DelsLinked(this, dels)
    }

    /** Between two requests of a UDP server: nothing waits to be deleted, the clients' addresses differ. */
    ghost predicate Settled()
      reads this, kids, dels
    {
      ValidRoot() && dels == [] && DistinctAddresses(kids)
    }

    /** change_relation(ADD_CHILD): the new node heads the child list. */
    method AddChild(address: nat, now: nat) returns (node: Conn)
      requires ValidRoot() && numChild < CLIENT_MAX
      modifies this, kids
      ensures ValidRoot() && fresh(node)
      ensures kids == [node] + old(kids) && dels == old(dels) && freed == old(freed)
      ensures node.address == address && node.lastModified == now
      ensures forall k :: k in old(kids) ==> k.lastModified == old(k.lastModified)
    {
      node := new Conn.Child(address, this, now);
      numChild := numChild + 1;
      var tmp := node1;
      node1 := node;
      node.node2 := tmp;
      if tmp != null {
        tmp.node1 := node;
      }
      kids := [node] + kids;
    }

    /** Leaving the child list. */
    method LeaveChildren(own: Conn, ghost i: nat)
      requires i < |own.kids| && this == own.kids[i] && own !in own.kids && Distinct(own.kids)
      requires parent == own && KidsLinked(own, own.kids) && own.node1 == own.kids[0]
      modifies own`node1, own`kids, own.kids
      ensures own.kids == old(own.kids)[..i] + old(own.kids)[i + 1..]
      ensures KidsLinked(own, own.kids) && own.node1 == (if own.kids == [] then null else own.kids[0])
      ensures parent == own
      ensures forall k :: k in old(own.kids) ==> k.lastModified == old(k.lastModified)
    {
      ghost var was := own.kids;
      var tmp := node1;
      if tmp == null {
        own.node1 := node2;
      } else {
        tmp.node2 := node2;
      }
      if node2 != null {
        node2.node1 := tmp;
      }
      own.kids := own.kids[..i] + own.kids[i + 1..];
      CutAt(was, i, own.kids);
    }

    /** Heading the delete list; node1 keeps its stale value, which that list never follows. */
    method EnterDeleted(own: Conn)
      requires parent == own && own != this && this !in own.dels && own !in own.dels
      requires Distinct(own.dels)
      requires DelsLinked(own, own.dels) && own.node2 == (if own.dels == [] then null else own.dels[0])
      modifies own`node2, own`dels, this`node2, own.dels
      ensures own.dels == [this] + old(own.dels) && own.node2 == this
      ensures DelsLinked(own, own.dels)
      ensures forall k :: k in old(own.dels) ==> k.lastModified == old(k.lastModified)
    {
      var tmp := own.node2;
      own.node2 := this;
      node2 := tmp;
      if tmp != null {
        tmp.node1 := this;
      }
      own.dels := [this] + own.dels;
    }

    /** change_relation(DESTROY_SELF) of a child: from the child list to the head of the delete list. */
    method DestroySelf(own: Conn, ghost i: nat)
      requires own.ValidRoot() && i < |own.kids| && this == own.kids[i]
      modifies own`node1, own`node2, own`kids, own`dels, own.kids, own.dels
      ensures own.ValidRoot()
      ensures own.kids == old(own.kids)[..i] + old(own.kids)[i + 1..]
      ensures own.dels == [this] + old(own.dels)
      ensures forall k :: k in old(own.kids) || k in old(own.dels) ==> k.lastModified == old(k.lastModified)
    {
      ghost var dels := own.dels;
      MoveApart(own.kids, i, dels, own.freed);
      Separate(own.kids, dels);
      LeaveChildren(own, i);
      assert DelsLinked(own, dels);
      ghost var kids := own.kids;
      Separate(kids, [this] + dels);
      assert forall j :: 0 <= j < |kids| ==> kids[j] != ([this] + dels)[0];
      EnterDeleted(own);
      assert KidsLinked(own, kids);
    }

    /** change_relation(DELETE_CHILD): the delete list is freed node by node. */
    method DeleteChildren()
      requires ValidRoot()
      modifies this
      ensures ValidRoot() && kids == old(kids) && dels == []
      ensures freed == old(freed) + old(dels)
      ensures numChild == |kids|
    {
      var node := node2;
      ghost var n, was := 0, dels;
      while node != null
        invariant n <= |was| && node == (if n == |was| then null else was[n])
        invariant numChild == |kids| + |was| - n
        invariant freed == old(freed) + was[..n]
        invariant kids == old(kids) && dels == was && node1 == old(node1) && parent == null
        decreases |was| - n
      {
        var tmp := node.node2;
        freed := freed + [node];
        node := tmp;
        numChild := numChild - 1;
        n := n + 1;
      }
      node2 := null;
      dels := [];
      assert was[..n] == was;
      FreeApart(kids, was, old(freed));
    }

    /** search_node: the child with this address, if there is one */
    method SearchNode(address: nat) returns (node: Conn?)
      requires ValidRoot()
      ensures node == null <==> forall k :: k in kids ==> k.address != address
      ensures node != null ==> node in kids && node.address == address
    {
      node := node1;
      ghost var i := 0;
      while node != null
        invariant i <= |kids| && node == (if i == |kids| then null else kids[i])
        invariant forall j :: 0 <= j < i ==> kids[j].address != address
        decreases |kids| - i
      {
        if node.address == address {
          return;
        }
        node := node.node2;
        i := i + 1;
      }
    }

    /** One round of check_lifelimit. */
    method Look(own: Conn, ghost i: nat, now: nat, ghost all: seq<Conn>) returns (elder: Conn?)
      requires own.ValidRoot() && i < |own.kids| && this == own.kids[i] && own !in all
      requires forall j :: 0 <= j < |own.kids| ==> own.kids[j] in all
      requires forall j :: 0 <= j < |own.dels| ==> own.dels[j] in all
      modifies own`node1, own`node2, own`kids, own`dels, all
      ensures own.ValidRoot()
      ensures elder == if i + 1 == |old(own.kids)| then null else old(own.kids)[i + 1]
      ensures own.kids == if Expired(old(lastModified), now)
                          then old(own.kids)[..i] + old(own.kids)[i + 1..] else old(own.kids)
      ensures own.dels == (if Expired(old(lastModified), now) then [this] else []) + old(own.dels)
      ensures forall j :: 0 <= j < |own.kids| ==> own.kids[j] in all
      ensures forall j :: 0 <= j < |own.dels| ==> own.dels[j] in all
      ensures forall k :: k in all ==> k.lastModified == old(k.lastModified)
    {
      elder := node2;
      assert [] + own.dels == own.dels;
      if Expired(lastModified, now) {
        DestroySelf(own, i);
      }
    }

    /** The state of check_lifelimit before its look at the n-th of the children it found: some kept, some gone. */
    ghost predicate Sweeping(child: Conn?, n: nat, was: seq<Conn>, mods: seq<nat>, kept: seq<Conn>, gone: seq<Conn>)
      reads this, kids, dels, was
    {
      && n <= |was| && mods == Times(was) && this !in was
      && child == (if n == |was| then null else was[n])
      && ValidRoot() && kids == kept + was[n..] && dels == gone
      && (forall i :: 0 <= i < |kids| ==> kids[i] in was)
      && (forall i :: 0 <= i < |dels| ==> dels[i] in was)
    }

    method SweepOne(child: Conn, now: nat, ghost n: nat, ghost was: seq<Conn>, ghost mods: seq<nat>,
                    ghost kept: seq<Conn>, ghost gone: seq<Conn>)
      returns (next: Conn?)
      requires Sweeping(child, n, was, mods, kept, gone) && n < |was|
      modifies `node1, `node2, `kids, `dels, was
      ensures var late := Expired(mods[n], now);
              Sweeping(next, n + 1, was, mods,
                       if late then kept else kept + [was[n]], if late then [was[n]] + gone else gone)
    {
      KidAt(kept, was, n);
      ghost var late := Expired(mods[n], now);
      next := child.Look(this, |kept|, now, was);
      SweptKids(late, kept, was, n, kids);
      SweptDels(late, was[n], gone, dels);
    }

    /** The loop of check_lifelimit. */
    method Sweep(clock: seq<nat>, ghost was: seq<Conn>, ghost mods: seq<nat>)
      requires Sweeping(node1, 0, was, mods, [], []) && |was| <= |clock|
      modifies `node1, `node2, `kids, `dels, was
      ensures Sweeping(null, |was|, was, mods, Kept(was, mods, clock, |was|), Gone(was, mods, clock, |was|))
    {
      var child := node1;
      var n := 0;
      while child != null
        invariant n <= |was| == |mods|
        invariant Sweeping(child, n, was, mods, Kept(was, mods, clock, n), Gone(was, mods, clock, n))
        decreases |was| - n
      {
        ghost var kept, gone := Kept(was, mods, clock, n), Gone(was, mods, clock, n);
        child := SweepOne(child, clock[n], n, was, mods, kept, gone);
        SweepNext(was, mods, clock, n);
        n := n + 1;
      }
    }

    /** From all children on the child list to those kept there and those on the delete list. */
    method SweepAll(clock: seq<nat>, ghost was: seq<Conn>, ghost mods: seq<nat>)
      requires ValidRoot() && dels == [] && was == kids && mods == Times(kids) && |was| <= |clock|
      modifies `node1, `node2, `kids, `dels, was
      ensures ValidRoot() && kids == Kept(was, mods, clock, |was|) && dels == Gone(was, mods, clock, |was|)
    {
      assert [] + was[0..] == was;
      Sweep(clock, was, mods);
      ghost var kept := Kept(was, mods, clock, |was|);
      assert kept + was[|was|..] == kept;
    }

    /** check_lifelimit */
    method CheckLifelimit(clock: seq<nat>) returns (left: nat)
      requires ValidRoot() && dels == [] && |kids| <= |clock|
      modifies this, kids
      ensures ValidRoot() && dels == []
      ensures left == numChild
      ensures kids == Kept(old(kids), old(Times(kids)), clock, |old(kids)|)
      ensures freed == old(freed) + Gone(old(kids), old(Times(kids)), clock, |old(kids)|)
      ensures forall j :: 0 <= j < |kids| ==> kids[j] in old(kids)
    {
      ghost var was := kids;
      SweepAll(clock, kids, Times(kids));
      DeleteChildren();
      KeptWithin(was, old(Times(kids)), clock, |was|);
      assert was[..|was|] == was;
      left := numChild;
    }

    /** Making room for one more client of a UDP server, if that is possible. */
    method MakeRoom(clock: seq<nat>) returns (ok: bool)
      requires Settled() && |kids| <= |clock|
      modifies this, kids
      ensures Settled() && kids == Alive(old(kids), old(Times(kids)), clock)
      ensures freed == old(freed) + Freed(old(kids), old(Times(kids)), clock)
      ensures ok == (|kids| < CLIENT_MAX)
      ensures forall j :: 0 <= j < |kids| ==> kids[j] in old(kids)
    {
      ok := true;
      if numChild >= CLIENT_MAX {
        KeptDistinct(kids, Times(kids), clock, |kids|);
        var left := CheckLifelimit(clock);
        ok := left < CLIENT_MAX;
      }
    }

    /** The UDP branch of receive_execute: the sender's node, an old or a new one, or null when all places are taken. */
    method Admit(address: nat, clock: seq<nat>, now: nat) returns (node: Conn?)
      requires Settled() && |kids| <= |clock|
      modifies this, kids
      ensures Settled()
      ensures old(exists k :: k in kids && k.address == address) ==>
                node in old(kids) && node.address == address && kids == old(kids) && freed == old(freed)
      ensures old(forall k :: k in kids ==> k.address != address) ==>
                var alive := Alive(old(kids), old(Times(kids)), clock);
                freed == old(freed) + Freed(old(kids), old(Times(kids)), clock) &&
                if |alive| >= CLIENT_MAX then node == null && kids == alive
                else node != null && fresh(node) && node.address == address && kids == [node] + alive
    {
      node := SearchNode(address);
      if node == null {
        var ok := MakeRoom(clock);
        if ok {
          node := AddChild(address, now);
        }
      }
    }

    /** A UDP client that stopped its service: its node is unlinked and freed at once. */
    method Forget(node: Conn, ghost i: nat)
      requires Settled() && i < |kids| && node == kids[i]
      modifies this, kids
      ensures Settled() && kids == old(kids)[..i] + old(kids)[i + 1..] && freed == old(freed) + [node]
    {
      node.DestroySelf(this, i);
      DeleteChildren();
    }

    /** The state of that loop before its n-th round: what was unlinked heads the delete list, last first. */
    ghost predicate Emptying(child: Conn?, n: nat, was: seq<Conn>)
      reads this, kids, dels
    {
      && n <= |was| && this !in was && child == (if n == |was| then null else was[n])
      && ValidRoot() && kids == was[n..] && dels == Backwards(was[..n])
      && (forall i :: 0 <= i < |kids| ==> kids[i] in was)
      && (forall i :: 0 <= i < |dels| ==> dels[i] in was)
    }

    method EmptyOne(child: Conn, ghost n: nat, ghost was: seq<Conn>) returns (next: Conn?)
      requires Emptying(child, n, was) && n < |was|
      modifies `node1, `node2, `kids, `dels, was
      ensures Emptying(next, n + 1, was)
    {
      Backward(was, n);
      next := child.node2;
      child.DestroySelf(this, 0);
      assert kids == was[n + 1..];
    }

    method EmptyAll(ghost was: seq<Conn>)
      requires Emptying(node1, 0, was)
      modifies `node1, `node2, `kids, `dels, was
      ensures Emptying(null, |was|, was)
    {
      var node := node1;
      ghost var n := 0;
      while node != null
        invariant n <= |was| && Emptying(node, n, was)
        decreases |was| - n
      {
        node := EmptyOne(node, n, was);
        n := n + 1;
      }
    }

    /** change_relation(DESTROY_SELF) of a UDP root: every child is unlinked, then all are freed. */
    method DestroyAll()
      requires Settled()
      modifies this, kids
      ensures Settled() && kids == [] && numChild == 0
      ensures freed == old(freed) + Backwards(old(kids))
    {
      ghost var was := kids;
      EmptyAll(was);
      assert was[..|was|] == was;
      DeleteChildren();
    }
  }
}
