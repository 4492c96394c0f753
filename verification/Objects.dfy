/** Object lifetime across server and client: bcap_server.c against bcap_service.cpp. */
module Objects {
  import Wire
  import opened FunctionIds
  import opened ObjectStack

  const S_OK := 0
  const E_INVALIDARG := 0x80070057 - 0x1_0000_0000
  const E_NOTIMPL := 0x80004001 - 0x1_0000_0000
  const E_MAX_OBJECT := 0x80000905 - 0x1_0000_0000

  /** A request as the server sees it, with what its callback, if there is one, will answer. */
  datatype Request = Request(id: int, arg: nat, implemented: bool, code: int, ret: nat)

  /** bcap_callfunc */
  function Answer(r: Request): int
  {
    if !(0 < r.id < ID_MAX) then E_INVALIDARG
    else if !r.implemented then E_NOTIMPL
    else r.code
  }

  /** The reply code, with the quota test in front. */
  function ReplyCode(s: seq<Entry>, r: Request): int
  {
    if Gated(r.id) && |s| >= OBJECT_MAX then E_MAX_OBJECT else Answer(r)
  }

  function Created(r: Request): Entry
  {
    Entry(RelationId(r.id), if r.id == SERVICE_START then 0 else r.ret)
  }

  function Released(r: Request): Entry
  {
    Entry(r.id, if r.id == SERVICE_STOP then 0 else r.arg)
  }

  function Drop(s: seq<Entry>, e: Entry): seq<Entry>
  {
    if Wire.IndexOf(s, e) < |s| then Without(s, Wire.IndexOf(s, e)) else s
  }

  /** The stack after a request has been answered. */
  function After(s: seq<Entry>, r: Request): seq<Entry>
  {
    if ReplyCode(s, r) != S_OK then s
    else if RelationId(r.id) > 0 then [Created(r)] + s
    else if RelationId(r.id) < 0 then Drop(s, Released(r))
    else s
  }

  /** A request that passes the quota test. */
  lemma AfterAnswer(s: seq<Entry>, r: Request)
    requires !(Gated(r.id) && |s| >= OBJECT_MAX)
    ensures ReplyCode(s, r) == Answer(r)
    ensures Answer(r) == S_OK && RelationId(r.id) > 0 ==> |s| < OBJECT_MAX && After(s, r) == [Created(r)] + s
    ensures Answer(r) == S_OK && RelationId(r.id) < 0 ==> After(s, r) == Drop(s, Released(r))
    ensures Answer(r) != S_OK || RelationId(r.id) == 0 ==> After(s, r) == s
  {
    TablesAgree(r.id);
  }

  /** A full stack, an id outside the table and a function without callback each have their own code. */
  lemma RefusedByNumber(s: seq<Entry>, r: Request)
    ensures Gated(r.id) && |s| >= 1000 ==> ReplyCode(s, r) == -2147481339
    ensures r.id <= 0 || r.id >= 138 ==> ReplyCode(s, r) == -2147024809
    ensures 0 < r.id < 138 && !r.implemented && !(Gated(r.id) && |s| >= 1000) ==> ReplyCode(s, r) == -2147467263
    ensures 0 < r.id < 138 && r.implemented && !(Gated(r.id) && |s| >= 1000) ==> ReplyCode(s, r) == r.code
  {
  }

  /** The reply is 0 exactly when a callback ran and returned 0. */
  predicate Done(s: seq<Entry>, r: Request)
  {
    0 < r.id < 138 && r.implemented && r.code == 0 && !(Gated(r.id) && |s| >= 1000)
  }

  /** Nothing but a callback that returned 0 changes the stack. */
  lemma OnlyDoneChanges(s: seq<Entry>, r: Request)
    ensures ReplyCode(s, r) == 0 <==> Done(s, r)
    ensures !Done(s, r) ==> After(s, r) == s
  {
    RefusedByNumber(s, r);
  }

  /** e is taken out at its first position, if it is there. */
  ghost predicate FirstTaken(s: seq<Entry>, e: Entry, t: seq<Entry>)
  {
    if e in s then exists i :: 0 <= i < |s| && s[i] == e && e !in s[..i] && t == s[..i] + s[i + 1..] else t == s
  }

  lemma DropTakes(s: seq<Entry>, e: Entry)
    ensures FirstTaken(s, e, Drop(s, e))
  {
    var i := Wire.IndexOf(s, e);
    if i < |s| {
      assert s[i] == e && e !in s[..i];
    }
  }

  /** What a callback's success does, by number: the service has handle 0, all else the one returned or named. */
  lemma ServedByNumber(s: seq<Entry>, r: Request)
    requires Done(s, r)
    ensures r.id == 1 ==> After(s, r) == [Entry(2, 0)] + s
    ensures r.id != 1 && RelationId(r.id) > 0 ==> After(s, r) == [Entry(RelationId(r.id), r.ret)] + s
    ensures r.id == 2 ==> FirstTaken(s, Entry(2, 0), After(s, r))
    ensures r.id != 2 && RelationId(r.id) < 0 ==> FirstTaken(s, Entry(r.id, r.arg), After(s, r))
    ensures RelationId(r.id) == 0 ==> After(s, r) == s
  {
    RefusedByNumber(s, r);
    DropTakes(s, Released(r));
  }

  /** A new object on top; the result of push_vector is ignored, as in the source. */
  method Register(st: Stack, id: int, hObj: nat)
    requires st.Valid()
    modifies st, st.nodes
    ensures st.Valid() && forall n :: n in st.nodes ==> n in old(st.nodes) || fresh(n)
    ensures st.Content() == if |old(st.Content())| < OBJECT_MAX then [Entry(id, hObj)] + old(st.Content())
                            else old(st.Content())
  {
    var obj := new VecObject(id, hObj);
    var pushed := st.Push(obj);
  }

  method Unregister(st: Stack, id: int, hObj: nat)
    requires st.Valid()
    modifies st, st.nodes
    ensures st.Valid() && forall n :: n in st.nodes ==> n in old(st.nodes)
    ensures st.Content() == Drop(old(st.Content()), Entry(id, hObj))
  {
    ghost var s := st.Content();
    var index := st.Search(id, hObj);
    if index >= 0 {
      assert Drop(s, Entry(id, hObj)) == Without(s, index);
      var obj := st.Pop(index);
    }
  }

  /** The sequential part of receive_execute. */
  method Serve(st: Stack, r: Request) returns (code: int)
    requires st.Valid()
    modifies st, st.nodes
    ensures st.Valid() && forall n :: n in st.nodes ==> n in old(st.nodes) || fresh(n)
    ensures code == ReplyCode(old(st.Content()), r)
    ensures st.Content() == After(old(st.Content()), r)
  {
    if Gated(r.id) && st.numObject >= OBJECT_MAX {
      return E_MAX_OBJECT;
    }
    code := Answer(r);
    AfterAnswer(st.Content(), r);
    if code == S_OK {
      var relation := RelationId(r.id);
      if relation > 0 {
        Register(st, relation, if r.id == SERVICE_START then 0 else r.ret);
      } else if relation < 0 {
        Unregister(st, r.id, if r.id == SERVICE_STOP then 0 else r.arg);
      }
    }
  }

  /** The release calls for what is on a stack, latest object first. */
  function Implemented(s: seq<Entry>, implemented: set<int>): seq<Entry>
  {
    if s == [] then []
    else (if s[0].id in implemented then [s[0]] else []) + Implemented(s[1..], implemented)
  }

  lemma TopImplemented(s: seq<Entry>, implemented: set<int>)
    requires s != []
    ensures Implemented(s, implemented)
         == (if s[0].id in implemented then [s[0]] else []) + Implemented(Without(s, 0), implemented)
  {
    assert Without(s, 0) == s[1..];
  }

  lemma {:induction false} CallsAppend(s: seq<Entry>, t: seq<Entry>, implemented: set<int>)
    ensures Implemented(s + t, implemented) == Implemented(s, implemented) + Implemented(t, implemented)
    decreases |s|
  {
    if s == [] {
      assert s + t == t;
    } else {
      assert (s + t)[1..] == s[1..] + t;
      CallsAppend(s[1..], t, implemented);
      Associate(Implemented(s[..1], implemented), Implemented(s[1..], implemented), Implemented(t, implemented));
      CallOne(s[0], s[..1], implemented);
    }
  }

  lemma CallOne(e: Entry, s: seq<Entry>, implemented: set<int>)
    requires s == [e]
    ensures Implemented(s, implemented) == if e.id in implemented then [e] else []
  {
    assert s[1..] == [];
  }

  /** The calls keep the order of the stack and leave out just the object, here in the middle, that has no callback. */
  lemma CallsInOrder(s: seq<Entry>, e: Entry, t: seq<Entry>, implemented: set<int>)
    ensures Implemented(s + ([e] + t), implemented) ==
      Implemented(s, implemented) + ((if e.id in implemented then [e] else []) + Implemented(t, implemented))
  {
    CallsAppend(s, [e] + t, implemented);
    CallsAppend([e], t, implemented);
    CallOne(e, [e], implemented);
  }

  lemma Associate(a: seq<Entry>, b: seq<Entry>, c: seq<Entry>)
    ensures a + (b + c) == (a + b) + c
  {
  }

  /** One round of the clean-up loop: the latest object, if there is one, and the release call made for it. */
  method ReleaseTop(st: Stack, implemented: set<int>) returns (found: bool, call: seq<Entry>)
    requires st.Valid()
    modifies st, st.nodes
    ensures st.Valid() && found == (old(st.Content()) != [])
    ensures forall i :: 0 <= i < |st.nodes| ==> st.nodes[i] in old(st.nodes)
    ensures found ==> |st.nodes| < |old(st.nodes)|
    ensures if found then st.Content() == Without(old(st.Content()), 0) else st.Content() == []
    ensures found ==> call == if old(st.Content())[0].id in implemented then [old(st.Content())[0]] else []
  {
    var obj := st.Pop(0);
    if obj == null { return false, []; }
    found := true;
    call := if obj.id in implemented then [Entry(obj.id, obj.hObj)] else [];
  }

  /** The clean-up loop of recv_thread: the release calls made, in order. */
  method ReleaseAll(st: Stack, implemented: set<int>) returns (calls: seq<Entry>)
    requires st.Valid()
    modifies st, st.nodes
    ensures st.Valid() && st.Content() == []
    ensures calls == Implemented(old(st.Content()), implemented)
  {
    calls := [];
    ghost var before, all := st.nodes, Implemented(st.Content(), implemented);
    while true
      invariant st.Valid() && forall i :: 0 <= i < |st.nodes| ==> st.nodes[i] in before
      invariant calls + Implemented(st.Content(), implemented) == all
      decreases |st.nodes|
    {
      ghost var s := st.Content();
      var found, call := ReleaseTop(st, implemented);
      if !found {
        return;
      }
      TopImplemented(s, implemented);
      Associate(calls, call, Implemented(st.Content(), implemented));
      calls := calls + call;
    }
  }

  // ----- conservation over runs of the server -----

  /** The stack after a run, each entry with the step that created it. */
  function Trace(run: seq<Request>): seq<(nat, Entry)>
  {
    if run == [] then [] else Traced(Trace(run[..|run| - 1]), |run| - 1, run[|run| - 1])
  }

  /** One request on such a stack. */
  function Traced(t: seq<(nat, Entry)>, n: nat, r: Request): seq<(nat, Entry)>
  {
    if ReplyCode(Entries(t), r) != S_OK then t
    else if RelationId(r.id) > 0 then [(n, Created(r))] + t
    else if RelationId(r.id) < 0 && Wire.IndexOf(Entries(t), Released(r)) < |t| then
      Cut(t, Wire.IndexOf(Entries(t), Released(r)))
    else t
  }

  function Cut(t: seq<(nat, Entry)>, i: nat): (r: seq<(nat, Entry)>)
    requires i < |t|
    ensures |r| == |t| - 1
    ensures forall j :: 0 <= j < |r| ==> r[j] == t[if j < i then j else j + 1]
  {
    t[..i] + t[i + 1..]
  }

  function Entries(t: seq<(nat, Entry)>): (s: seq<Entry>)
    ensures |s| == |t|
    ensures forall i :: 0 <= i < |t| ==> s[i] == t[i].1
  {
    seq(|t|, i requires 0 <= i < |t| => t[i].1)
  }

  /** The stack after a run, by repeated serving. */
  function StackAfter(run: seq<Request>): seq<Entry>
  {
    if run == [] then [] else After(StackAfter(run[..|run| - 1]), run[|run| - 1])
  }

  /** What a request pushes and what it pops. */
  function PushedBy(s: seq<Entry>, r: Request): multiset<Entry>
  {
    if ReplyCode(s, r) == S_OK && RelationId(r.id) > 0 then multiset{Created(r)} else multiset{}
  }

  function PoppedBy(s: seq<Entry>, r: Request): multiset<Entry>
  {
    if ReplyCode(s, r) == S_OK && RelationId(r.id) < 0 && Released(r) in s then multiset{Released(r)} else multiset{}
  }

  /** What the run pushed, and what its releases popped. */
  function Pushed(run: seq<Request>): multiset<Entry>
  {
    if run == [] then multiset{}
    else Pushed(run[..|run| - 1]) + PushedBy(StackAfter(run[..|run| - 1]), run[|run| - 1])
  }

  function Popped(run: seq<Request>): multiset<Entry>
  {
    if run == [] then multiset{}
    else Popped(run[..|run| - 1]) + PoppedBy(StackAfter(run[..|run| - 1]), run[|run| - 1])
  }

  lemma FindIn(s: seq<Entry>, e: Entry)
    ensures Wire.IndexOf(s, e) < |s| <==> e in s
  {
  }

  lemma WithoutMultiset(s: seq<Entry>, i: nat)
    requires i < |s|
    ensures multiset(s) == multiset(Without(s, i)) + multiset{s[i]}
  {
    assert s == s[..i] + [s[i]] + s[i + 1..];
  }

  lemma DropMultiset(s: seq<Entry>, e: Entry)
    ensures multiset(s) == multiset(Drop(s, e)) + (if e in s then multiset{e} else multiset{})
    ensures multiset(Drop(s, e)) == multiset(s) - multiset{e}
    ensures |Drop(s, e)| == if e in s then |s| - 1 else |s|
  {
    FindIn(s, e);
    if e in s {
      WithoutMultiset(s, Wire.IndexOf(s, e));
    } else {
      assert multiset(s)[e] == 0;
    }
  }

  lemma OneServed(s: seq<Entry>, r: Request)
    ensures multiset(s) + PushedBy(s, r) == PoppedBy(s, r) + multiset(After(s, r))
  {
    DropMultiset(s, Released(r));
  }

  lemma WithinQuota(s: seq<Entry>, r: Request)
    requires |s| <= OBJECT_MAX
    ensures |After(s, r)| <= OBJECT_MAX
  {
    TablesAgree(r.id);
    DropMultiset(s, Released(r));
  }

  lemma Regroup(pushed: multiset<Entry>, popped: multiset<Entry>, held: multiset<Entry>,
                more: multiset<Entry>, less: multiset<Entry>, next: multiset<Entry>)
    requires pushed == popped + held && held + more == less + next
    ensures pushed + more == (popped + less) + next
  {
    forall e ensures (pushed + more)[e] == ((popped + less) + next)[e] {
      assert (held + more)[e] == (less + next)[e];
    }
  }

  /**
   * Every object pushed is either popped by a matching release or still on the stack, and the quota
   * test keeps the stack within its bound, so push_vector never refuses an object.
   */
  lemma {:induction false} Conservation(run: seq<Request>)
    ensures Pushed(run) == Popped(run) + multiset(StackAfter(run))
    ensures |StackAfter(run)| <= OBJECT_MAX
  {
    if run != [] {
      var front, r := run[..|run| - 1], run[|run| - 1];
      var s := StackAfter(front);
      Conservation(front);
      OneServed(s, r);
      WithinQuota(s, r);
      Regroup(Pushed(front), Popped(front), multiset(s), PushedBy(s, r), PoppedBy(s, r), multiset(After(s, r)));
    }
  }

  predicate NewestFirst(t: seq<(nat, Entry)>, n: nat)
  {
    && (forall i :: 0 <= i < |t| ==> t[i].0 < n)
    && forall i, j :: 0 <= i < j < |t| ==> t[i].0 > t[j].0
  }

  /** A request for a function in the table that has a callback, which made an object and returned 0. */
  predicate Creates(r: Request)
  {
    0 < r.id < 138 && r.implemented && r.code == 0 && RelationId(r.id) > 0
  }

  /** Each entry is what the step it is marked with created. */
  predicate Origin(t: seq<(nat, Entry)>, run: seq<Request>)
  {
    forall i :: 0 <= i < |t| ==>
      t[i].0 < |run| && Creates(run[t[i].0]) && t[i].1 == Created(run[t[i].0])
  }

  lemma TracedIsAfter(t: seq<(nat, Entry)>, n: nat, r: Request)
    ensures Entries(Traced(t, n, r)) == After(Entries(t), r)
  {
    var s := Entries(t);
    if ReplyCode(s, r) == S_OK {
      if RelationId(r.id) > 0 {
        assert Entries([(n, Created(r))] + t) == [Created(r)] + s;
      } else if RelationId(r.id) < 0 {
        var i := Wire.IndexOf(s, Released(r));
        if i < |t| {
          assert Entries(Cut(t, i)) == Without(s, i);
        }
      }
    }
  }

  lemma TracedNewest(t: seq<(nat, Entry)>, n: nat, r: Request)
    requires NewestFirst(t, n)
    ensures NewestFirst(Traced(t, n, r), n + 1)
  {
  }

  lemma TracedOrigin(t: seq<(nat, Entry)>, run: seq<Request>, r: Request)
    requires Origin(t, run)
    ensures Origin(Traced(t, |run|, r), run + [r])
  {
    assert forall k :: 0 <= k < |run| ==> (run + [r])[k] == run[k];
  }

  /** The trace stands for the stack, newest first. */
  predicate Stands(t: seq<(nat, Entry)>, run: seq<Request>, s: seq<Entry>)
  {
    Entries(t) == s && NewestFirst(t, |run|) && Origin(t, run)
  }

  lemma TracedStands(t: seq<(nat, Entry)>, run: seq<Request>, s: seq<Entry>, r: Request)
    requires Stands(t, run, s)
    ensures Stands(Traced(t, |run|, r), run + [r], After(s, r))
  {
    TracedIsAfter(t, |run|, r);
    TracedNewest(t, |run|, r);
    TracedOrigin(t, run, r);
  }

  lemma LastApart(run: seq<Request>)
    requires run != []
    ensures run == run[..|run| - 1] + [run[|run| - 1]]
  {
  }

  lemma TraceSnoc(run: seq<Request>, r: Request)
    requires Stands(Trace(run), run, StackAfter(run))
    ensures Stands(Trace(run + [r]), run + [r], StackAfter(run + [r]))
  {
    var next := run + [r];
    assert next[..|next| - 1] == run && next[|next| - 1] == r;
    TracedStands(Trace(run), run, StackAfter(run), r);
  }

  /**
   * The stack is always in reverse order of creation, so the clean-up at the end of a connection
   * releases what is left newest first, each object once.
   */
  lemma {:induction false} TraceIsStack(run: seq<Request>)
    ensures Stands(Trace(run), run, StackAfter(run))
  {
    if run != [] {
      var front, r := run[..|run| - 1], run[|run| - 1];
      LastApart(run);
      TraceIsStack(front);
      TraceSnoc(front, r);
    }
  }

  // ----- the client's record -----

  /** BCAPService: the handles it created and has not released, oldest first. */
  class Service {
    var handles: seq<Entry>

    constructor ()
      ensures handles == []
    {
      handles := [];
    }

    /** The bookkeeping at the end of ExecFunction. */
    method Record(func: int, arg: nat, hr: int, ret: nat)
      modifies this
      ensures handles == Recorded(old(handles), func, arg, hr, ret)
    {
      if hr == S_OK {
        if ClientKey(func) > 0 {
          handles := handles + [Entry(ClientKey(func), ret)];
        } else if ClientReleases(func) && arg > 0 {
          ghost var e := Entry(func, arg);
          for i := 0 to |handles|
            invariant handles == old(handles)
            invariant forall j :: 0 <= j < i ==> handles[j] != e
          {
            if func == handles[i].id && arg == handles[i].hObj {
              assert i == Wire.IndexOf(handles, e);
              handles := handles[..i] + handles[i + 1..];
              return;
            }
          }
        }
      }
    }
  }

  function Recorded(v: seq<Entry>, func: int, arg: nat, hr: int, ret: nat): seq<Entry>
  {
    if hr != S_OK then v
    else if ClientKey(func) > 0 then v + [Entry(ClientKey(func), ret)]
    else if ClientReleases(func) && arg > 0 then Drop(v, Entry(func, arg))
    else v
  }

  /** The record by number: a new handle goes behind, a released one is taken out, handle 0 is never released. */
  lemma RecordedByNumber(v: seq<Entry>, func: int, arg: nat, hr: int, ret: nat)
    ensures hr != 0 ==> Recorded(v, func, arg, hr, ret) == v
    ensures hr == 0 && 3 <= func <= 137 && RelationId(func) > 0 ==>
              Recorded(v, func, arg, hr, ret) == v + [Entry(RelationId(func), ret)]
    ensures hr == 0 && 3 <= func <= 137 && RelationId(func) < 0 ==>
              if arg == 0 then Recorded(v, func, arg, hr, ret) == v
              else FirstTaken(v, Entry(func, arg), Recorded(v, func, arg, hr, ret))
    ensures 3 <= func <= 137 && RelationId(func) == 0 ==> Recorded(v, func, arg, hr, ret) == v
  {
    TablesAgree(func);
    DropTakes(v, Entry(func, arg));
  }

  const SERVICE_ENTRY := Entry(SERVICE_STOP, 0)

  /** Client and server hold the same handles; the server also holds the service itself. */
  ghost predicate Agree(v: seq<Entry>, s: seq<Entry>)
  {
    multiset(s) == multiset(v) + multiset{SERVICE_ENTRY}
  }

  /** A call ExecFunction makes, answered with a positive handle where it creates something. */
  predicate Proper(r: Request)
  {
    ClientCalls(r.id) && (RelationId(r.id) > 0 && Answer(r) == S_OK ==> r.ret > 0)
  }

  function ServiceStart(): Request
  {
    Request(SERVICE_START, 0, true, S_OK, 0)
  }

  /** The client's record after a run of calls on a server that runs the service. */
  function RecordAfter(run: seq<Request>): seq<Entry>
  {
    if run == [] then []
    else
      var front, r := run[..|run| - 1], run[|run| - 1];
      Recorded(RecordAfter(front), r.id, r.arg, ReplyCode(StackAfter([ServiceStart()] + front), r), r.ret)
  }

  predicate Positive(v: seq<Entry>)
  {
    forall i :: 0 <= i < |v| ==> v[i].hObj > 0 && v[i].id > 0
  }

  lemma AgreeCreate(v: seq<Entry>, s: seq<Entry>, e: Entry)
    requires Agree(v, s)
    ensures Agree(v + [e], [e] + s)
  {
  }

  lemma TakenFromFirst(a: multiset<Entry>, b: multiset<Entry>, e: Entry)
    requires e !in b
    ensures (a + b) - multiset{e} == (a - multiset{e}) + b
  {
  }

  lemma AgreeRelease(v: seq<Entry>, s: seq<Entry>, e: Entry)
    requires Agree(v, s) && e != SERVICE_ENTRY
    ensures Agree(Drop(v, e), Drop(s, e))
  {
    DropMultiset(s, e);
    DropMultiset(v, e);
    TakenFromFirst(multiset(v), multiset{SERVICE_ENTRY}, e);
  }

  lemma DropAbsent(v: seq<Entry>, s: seq<Entry>, e: Entry)
    requires Agree(v, s) && e != SERVICE_ENTRY && e !in v
    ensures Drop(s, e) == s
  {
    FindIn(s, e);
    assert e in s <==> e in multiset(s);
    assert e in v <==> e in multiset(v);
  }

  lemma DropPositive(v: seq<Entry>, e: Entry)
    requires Positive(v)
    ensures Positive(Drop(v, e))
  {
  }

  lemma ReleaseAgrees(v: seq<Entry>, s: seq<Entry>, r: Request)
    requires Agree(v, s) && Positive(v) && ClientReleases(r.id) && r.id != SERVICE_STOP
    ensures var e := Released(r);
            Agree(if r.arg > 0 then Drop(v, e) else v, Drop(s, e)) && Positive(if r.arg > 0 then Drop(v, e) else v)
  {
    var e := Released(r);
    AgreeRelease(v, s, e);
    DropPositive(v, e);
    if r.arg == 0 {
      DropAbsent(v, s, e);
    }
  }

  lemma AgreeStep(v: seq<Entry>, s: seq<Entry>, r: Request)
    requires Agree(v, s) && Positive(v) && Proper(r)
    ensures var v' := Recorded(v, r.id, r.arg, ReplyCode(s, r), r.ret);
            Agree(v', After(s, r)) && Positive(v')
  {
    TablesAgree(r.id);
    if !(Gated(r.id) && |s| >= OBJECT_MAX) {
      AfterAnswer(s, r);
      AgreeCreate(v, s, Created(r));
      assert r.id != SERVICE_START && r.id != SERVICE_STOP;
      if ClientReleases(r.id) {
        ReleaseAgrees(v, s, r);
      }
    }
  }

  lemma StackSnoc(run: seq<Request>, r: Request)
    ensures StackAfter(run + [r]) == After(StackAfter(run), r)
  {
    assert (run + [r])[..|run|] == run;
  }

  lemma AgreeFirst()
    ensures Agree([], StackAfter([ServiceStart()]))
  {
    StackSnoc([], ServiceStart());
    assert [] + [ServiceStart()] == [ServiceStart()];
    assert After([], ServiceStart()) == [SERVICE_ENTRY];
  }

  lemma AgreeNext(front: seq<Request>, r: Request, v: seq<Entry>, s: seq<Entry>)
    requires Proper(r) && v == RecordAfter(front) && s == StackAfter([ServiceStart()] + front)
    requires Agree(v, s) && Positive(v)
    ensures Agree(RecordAfter(front + [r]), StackAfter([ServiceStart()] + (front + [r])))
    ensures Positive(RecordAfter(front + [r]))
  {
    var run := front + [r];
    assert run[..|run| - 1] == front;
    assert [ServiceStart()] + run == [ServiceStart()] + front + [r];
    StackSnoc([ServiceStart()] + front, r);
    AgreeStep(v, s, r);
  }

  /** Over every run of proper calls, client and server agree on the live handles. */
  lemma {:induction false} HandlesAgree(run: seq<Request>)
    requires forall i :: 0 <= i < |run| ==> Proper(run[i])
    ensures Agree(RecordAfter(run), StackAfter([ServiceStart()] + run)) && Positive(RecordAfter(run))
  {
    if run == [] {
      AgreeFirst();
      assert [ServiceStart()] + run == [ServiceStart()];
    } else {
      var front, r := run[..|run| - 1], run[|run| - 1];
      LastApart(run);
      HandlesAgree(front);
      AgreeNext(front, r, RecordAfter(front), StackAfter([ServiceStart()] + front));
    }
  }

  // ----- disconnecting -----

  function Release(e: Entry, code: int): Request
  {
    Request(e.id, e.hObj, true, code, 0)
  }

  /** The stack after the releases of Disconnect, in the order of the record. */
  function AfterReleases(s: seq<Entry>, v: seq<Entry>, codes: seq<int>): seq<Entry>
    requires |codes| == |v|
  {
    if v == [] then s
    else After(AfterReleases(s, v[..|v| - 1], codes[..|v| - 1]), Release(v[|v| - 1], codes[|v| - 1]))
  }

  /** Disconnect: releases, then the service stop. */
  function AfterDisconnect(s: seq<Entry>, v: seq<Entry>, codes: seq<int>, stop: int): seq<Entry>
    requires |codes| == |v|
  {
    After(AfterReleases(s, v, codes), Release(SERVICE_ENTRY, stop))
  }

  /** The handles whose release call failed. */
  function Failed(v: seq<Entry>, codes: seq<int>): multiset<Entry>
    requires |codes| == |v|
  {
    if v == [] then multiset{}
    else Failed(v[..|v| - 1], codes[..|v| - 1])
         + (if codes[|v| - 1] != S_OK then multiset{v[|v| - 1]} else multiset{})
  }

  predicate Releasable(v: seq<Entry>)
  {
    forall i :: 0 <= i < |v| ==> ClientReleases(v[i].id) && v[i].hObj > 0
  }

  lemma ReleaseStep(s: seq<Entry>, e: Entry, code: int)
    requires ClientReleases(e.id) || e == SERVICE_ENTRY
    ensures multiset(After(s, Release(e, code)))
         == if code == S_OK then multiset(s) - multiset{e} else multiset(s)
  {
    TablesAgree(e.id);
    AfterAnswer(s, Release(e, code));
    DropMultiset(s, e);
    assert Released(Release(e, code)) == e;
  }

  lemma Cancel(f: multiset<Entry>, e: Entry, rest: multiset<Entry>)
    ensures f + (multiset{e} + rest) - multiset{e} == f + rest
    ensures f + multiset{e} + rest == f + (multiset{e} + rest)
  {
  }

  lemma OneLeaves(s: seq<Entry>, e: Entry, code: int, failed: multiset<Entry>, rest: multiset<Entry>)
    requires ClientReleases(e.id) && multiset(s) == failed + (multiset{e} + rest)
    ensures multiset(After(s, Release(e, code))) == failed + (if code != S_OK then multiset{e} else multiset{}) + rest
  {
    ReleaseStep(s, e, code);
    Cancel(failed, e, rest);
  }

  lemma {:induction false} ReleasesLeave(s: seq<Entry>, v: seq<Entry>, codes: seq<int>, rest: multiset<Entry>)
    requires |codes| == |v| && Releasable(v)
    requires multiset(s) == multiset(v) + rest
    ensures multiset(AfterReleases(s, v, codes)) == Failed(v, codes) + rest
  {
    if v != [] {
      var front, e := v[..|v| - 1], v[|v| - 1];
      var cs, c := codes[..|v| - 1], codes[|v| - 1];
      assert v == front + [e];
      ReleasesLeave(s, front, cs, multiset{e} + rest);
      OneLeaves(AfterReleases(s, front, cs), e, c, Failed(front, cs), rest);
    }
  }

  lemma {:induction false} FailedEmpty(v: seq<Entry>, codes: seq<int>)
    requires |codes| == |v|
    ensures Failed(v, codes) == multiset{} <==> forall i :: 0 <= i < |v| ==> codes[i] == S_OK
  {
    if v != [] {
      var front, cs := v[..|v| - 1], codes[..|v| - 1];
      FailedEmpty(front, cs);
      assert codes == cs + [codes[|v| - 1]];
      if codes[|v| - 1] != S_OK {
        assert v[|v| - 1] in Failed(v, codes);
      }
    }
  }

  lemma LeavesAfterDisconnect(s: seq<Entry>, v: seq<Entry>, codes: seq<int>, stop: int)
    requires |codes| == |v| && Releasable(v) && Agree(v, s)
    ensures multiset(AfterDisconnect(s, v, codes, stop))
         == Failed(v, codes) + (if stop == S_OK then multiset{} else multiset{SERVICE_ENTRY})
  {
    var f, b := Failed(v, codes), multiset{SERVICE_ENTRY};
    ReleasesLeave(s, v, codes, b);
    ReleaseStep(AfterReleases(s, v, codes), SERVICE_ENTRY, stop);
    assert f + b - b == f + multiset{};
  }

  lemma EmptyMultiset(s: seq<Entry>)
    ensures s == [] <==> multiset(s) == multiset{}
  {
    if s != [] {
      assert s[0] in multiset(s);
    }
  }

  /**
   * After any run of proper calls, Disconnect leaves on the server exactly the objects whose release
   * failed, and the service if its stop failed: nothing is left just when every call succeeded.
   */
  lemma DisconnectLeaves(run: seq<Request>, codes: seq<int>, stop: int)
    requires forall i :: 0 <= i < |run| ==> Proper(run[i])
    requires |codes| == |RecordAfter(run)|
    ensures var left := AfterDisconnect(StackAfter([ServiceStart()] + run), RecordAfter(run), codes, stop);
            && multiset(left) == Failed(RecordAfter(run), codes)
                                 + (if stop == S_OK then multiset{} else multiset{SERVICE_ENTRY})
            && (left == [] <==> stop == S_OK && forall i :: 0 <= i < |codes| ==> codes[i] == S_OK)
  {
    var v, s := RecordAfter(run), StackAfter([ServiceStart()] + run);
    HandlesAgree(run);
    RecordReleasable(run);
    LeavesAfterDisconnect(s, v, codes, stop);
    FailedEmpty(v, codes);
    EmptyMultiset(AfterDisconnect(s, v, codes, stop));
  }

  lemma {:induction false} RecordReleasable(run: seq<Request>)
    requires forall i :: 0 <= i < |run| ==> Proper(run[i])
    ensures Releasable(RecordAfter(run))
  {
    if run != [] {
      var r := run[|run| - 1];
      RecordReleasable(run[..|run| - 1]);
      TablesAgree(r.id);
    }
  }
}
