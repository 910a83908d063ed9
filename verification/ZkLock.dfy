/**
 * The lock of cpp/jiagoushi/chap4.3/main.c: clients that create a sequential node, list the nodes and
 * watch the one before theirs. The server handles one request at a time; requests, replies and watch
 * events arrive after any delay and in any order. Sessions do not expire.
 */
module ZkLock {
  import opened Options

  datatype Msg =
    // to the server
    | ReqCreate | ReqList | ReqExists(w: int) | ReqDelete(s: int)
    // to the client
    | RepCreate(s: int) | RepList(xs: seq<int>) | Event(w: int)

  /** zmt of one client, what is under way for it, and its watches at the server. */
  datatype Client = Client(me: int, watch: Option<int>, acquired: bool, net: seq<Msg>, armed: seq<int>)

  /** The nodes with their creators, the next sequence number, and the order of acquisition. */
  datatype World = World(nodes: map<int, nat>, next: int, clients: map<nat, Client>, grants: seq<int>)

  ghost predicate Initial(w: World) {
    && w.nodes == map[] && w.next >= 0 && w.grants == []
    && forall c :: c in w.clients ==> w.clients[c] == Client(-1, None, false, [ReqCreate], [])
  }

  /** The outcome of the loop over the children: the largest number below ours, if there is one. */
  ghost predicate Scanned(xs: seq<int>, me: int, r: Option<int>) {
    match r
    case None => forall v :: v in xs ==> v >= me
    case Some(w) => w in xs && w < me && forall v :: v in xs && v < me ==> v <= w
  }

  method Scan(xs: seq<int>, me: int) returns (r: Option<int>)
    ensures Scanned(xs, me, r)
  {
    var n, i := 0, 0;
    var watch := 0;
    while i < |xs|
      invariant 0 <= i <= |xs| && n >= 0
      invariant n == 0 ==> forall v :: v in xs[..i] ==> v >= me
      invariant n > 0 ==> watch in xs[..i] && watch < me && forall v :: v in xs[..i] && v < me ==> v <= watch
    {
      var v := xs[i];
      assert xs[..i + 1] == xs[..i] + [v];
      if v < me {
        if n == 0 {
          watch := v;
          n := n + 1;
        } else if v > watch {
          watch := v;
          n := n + 1;
        }
      }
      i := i + 1;
    }
    assert xs[..i] == xs;
    r := if n == 0 then None else Some(watch);
  }

  function Drop(net: seq<Msg>, k: nat): seq<Msg>
    requires k < |net|
  {
    net[..k] + net[k + 1..]
  }

  /** The acquire point: the client runs its critical section and asks for the deletion of its node. */
  function Acquire(w: World, c: nat, cl: Client): World {
    World(w.nodes, w.next, w.clients[c := cl.(acquired := true, net := cl.net + [ReqDelete(cl.me)])],
      w.grants + [cl.me])
  }

  function Put(w: World, c: nat, cl: Client): World { w.(clients := w.clients[c := cl]) }

  /** Watches on node s fire. */
  function Fire(cl: Client, s: int): Client
    decreases |cl.armed|
  {
    if cl.armed == [] then cl
    else
      var r := Fire(cl.(armed := cl.armed[1..]), s);
      if cl.armed[0] == s then r.(net := r.net + [Event(s)]) else r.(armed := [cl.armed[0]] + r.armed)
  }

  /** One message of client c takes effect, at the server or in a callback of the client. */
  ghost predicate Deliver(w: World, c: nat, k: nat, w': World) {
    && c in w.clients && k < |w.clients[c].net|
    && var cl := w.clients[c].(net := Drop(w.clients[c].net, k));
    match w.clients[c].net[k]
    case ReqCreate =>
      w' == World(w.nodes[w.next := c], w.next + 1, w.clients[c := cl.(net := cl.net + [RepCreate(w.next)])], w.grants)
    case ReqList =>
      exists xs :: (forall s :: s in xs <==> s in w.nodes) && w' == Put(w, c, cl.(net := cl.net + [RepList(xs)]))
    case ReqExists(p) => w' == Put(w, c, if p in w.nodes then cl.(armed := cl.armed + [p]) else cl)
    case ReqDelete(s) =>
      if s in w.nodes then
        var all := w.clients[c := cl];
        w' == World(w.nodes - {s}, w.next, map d | d in all :: Fire(all[d], s), w.grants)
      else w' == Put(w, c, cl)
    case RepCreate(s) =>
      var cl1 := cl.(me := s);
      w' == if s > 0 then Put(w, c, cl1.(net := cl1.net + [ReqList])) else Acquire(w, c, cl1)
    case RepList(xs) =>
      exists r :: Scanned(xs, cl.me, r) &&
        w' == if r.None? then Acquire(w, c, cl) else Put(w, c, cl.(watch := r, net := cl.net + [ReqExists(r.v)]))
    case Event(p) => w' == Put(w, c, if cl.watch == Some(p) then cl.(net := cl.net + [ReqList]) else cl)
  }

  // ---------------------------------------------------------------------------------------------
  // The invariant: at most one message or watch per client, and what each of them means
  // ---------------------------------------------------------------------------------------------

  ghost predicate Mine(nodes: map<int, nat>, c: nat, cl: Client) { cl.me in nodes && nodes[cl.me] == c }

  ghost predicate First(nodes: map<int, nat>, s: int) { forall v :: v in nodes ==> v >= s }

  ghost predicate ClientOk(nodes: map<int, nat>, c: nat, cl: Client) {
    && |cl.net| + |cl.armed| <= 1
    && (cl.armed != [] ==> Mine(nodes, c, cl) && !cl.acquired && cl.watch == Some(cl.armed[0]) && cl.armed[0] in nodes)
    && (cl.acquired && Mine(nodes, c, cl) ==> cl.net == [ReqDelete(cl.me)])
    && (cl.net != [] ==>
          match cl.net[0]
          case ReqCreate => !cl.acquired && forall s :: s in nodes ==> nodes[s] != c
          case RepCreate(s) => !cl.acquired && s in nodes && nodes[s] == c
          case ReqList => !cl.acquired && Mine(nodes, c, cl)
          case RepList(xs) =>
            && !cl.acquired && Mine(nodes, c, cl) && cl.me in xs
            && forall s :: s in nodes && s < cl.me ==> s in xs
          case ReqExists(p) => !cl.acquired && Mine(nodes, c, cl) && cl.watch == Some(p)
          case Event(p) => !cl.acquired && Mine(nodes, c, cl) && cl.watch == Some(p)
          case ReqDelete(s) => cl.acquired && Mine(nodes, c, cl) && s == cl.me && First(nodes, s))
  }

  ghost predicate Increasing(g: seq<int>) { forall i, j :: 0 <= i < j < |g| ==> g[i] < g[j] }

  ghost predicate Inv(w: World) {
    && (forall c :: c in w.clients ==> ClientOk(w.nodes, c, w.clients[c]))
    && (forall s :: s in w.nodes ==> 0 <= s < w.next && w.nodes[s] in w.clients) && 0 <= w.next
    && Increasing(w.grants)
    && (forall g :: g in w.grants ==> g < w.next)
    && (forall s, g :: s in w.nodes && g in w.grants ==> g < s || (g == s && w.clients[w.nodes[s]].acquired))
    && (forall s, t :: s in w.nodes && t in w.nodes && w.nodes[s] == w.nodes[t] ==> s == t)
    && (forall c :: c in w.clients && w.clients[c].acquired ==> w.clients[c].me in w.grants)
  }

  lemma InitialKeeps(w: World)
    requires Initial(w)
    ensures Inv(w)
  {}

  lemma OneMessage(w: World, c: nat, k: nat)
    requires Inv(w) && c in w.clients && k < |w.clients[c].net|
    ensures k == 0 && Drop(w.clients[c].net, k) == [] && w.clients[c].armed == [] && ClientOk(w.nodes, c, w.clients[c])
    ensures w.clients[c].net == [w.clients[c].net[0]]
  {}

  /** Only client c changes, and no node does. */
  lemma PutKeeps(w: World, c: nat, cl: Client)
    requires Inv(w) && c in w.clients && ClientOk(w.nodes, c, cl) && cl.acquired == w.clients[c].acquired
      && (cl.acquired ==> cl.me == w.clients[c].me)
    ensures Inv(Put(w, c, cl))
  {}

  lemma CreateKeeps(w: World, c: nat, cl: Client)
    requires Inv(w) && c in w.clients && w.clients[c].net == [ReqCreate] && w.clients[c].armed == []
    requires cl == w.clients[c].(net := [RepCreate(w.next)])
    ensures Inv(World(w.nodes[w.next := c], w.next + 1, w.clients[c := cl], w.grants))
  {
    var nodes := w.nodes[w.next := c];
    forall d | d in w.clients && d != c ensures ClientOk(nodes, d, w.clients[d]) {
      assert ClientOk(w.nodes, d, w.clients[d]);
    }
    assert ClientOk(w.nodes, c, w.clients[c]);
  }

  lemma IncreasingMore(g: seq<int>, s: int)
    requires Increasing(g) && forall x :: x in g ==> x < s
    ensures Increasing(g + [s])
  {
    var h := g + [s];
    forall i, j | 0 <= i < j < |h| ensures h[i] < h[j] {
      assert h[i] == g[i] && g[i] in g;
    }
  }

  lemma AcquireKeeps(w: World, c: nat, cl: Client)
    requires Inv(w) && c in w.clients && !w.clients[c].acquired && !cl.acquired && cl.net == [] && cl.armed == []
    requires Mine(w.nodes, c, cl) && First(w.nodes, cl.me)
    ensures Inv(Acquire(w, c, cl))
  {
    hide Increasing;
    var w' := Acquire(w, c, cl);
    forall g | g in w.grants ensures g < cl.me { assert cl.me in w.nodes; }
    assert w'.clients[c].net == [ReqDelete(cl.me)];
    assert ClientOk(w.nodes, c, w'.clients[c]);
    forall d | d in w.clients && d != c ensures ClientOk(w.nodes, d, w'.clients[d]) {}
    forall g ensures g in w'.grants <==> g in w.grants || g == cl.me {}
    forall s, g | s in w.nodes && g in w'.grants ensures g < s || (g == s && w'.clients[w.nodes[s]].acquired) {
      assert g in w.grants || g == cl.me;
    }
    IncreasingMore(w.grants, cl.me);
    forall d | d in w'.clients && w'.clients[d].acquired ensures w'.clients[d].me in w'.grants {}
  }

  lemma {:induction false} FireOne(cl: Client, s: int)
    requires |cl.armed| <= 1
    ensures Fire(cl, s) == if cl.armed == [s] then cl.(net := cl.net + [Event(s)], armed := []) else cl
  {
    if cl.armed != [] {
      assert cl.armed == [cl.armed[0]] && cl.armed[1..] == [];
    }
  }

  lemma DeleteKeeps(w: World, c: nat, s: int, w': World)
    requires Inv(w) && c in w.clients && w.clients[c].net == [ReqDelete(s)] && w.clients[c].armed == [] && s in w.nodes
    requires var all := w.clients[c := w.clients[c].(net := [])];
      w' == World(w.nodes - {s}, w.next, map d | d in all :: Fire(all[d], s), w.grants)
    ensures Inv(w')
  {
    assert ClientOk(w.nodes, c, w.clients[c]);
    var all := w.clients[c := w.clients[c].(net := [])];
    forall d | d in all
      ensures ClientOk(w'.nodes, d, w'.clients[d]) && w'.clients[d].acquired == w.clients[d].acquired
        && w'.clients[d].me == w.clients[d].me
    {
      assert ClientOk(w.nodes, d, w.clients[d]);
      FireOne(all[d], s);
    }
  }

  lemma ListKeeps(w: World, c: nat, xs: seq<int>)
    requires Inv(w) && c in w.clients && w.clients[c].net == [ReqList] && forall s :: s in xs <==> s in w.nodes
    ensures Inv(Put(w, c, w.clients[c].(net := [RepList(xs)])))
  {
    hide Inv;
    TheClient(w, c);
    PutKeeps(w, c, w.clients[c].(net := [RepList(xs)]));
  }

  lemma ExistsKeeps(w: World, c: nat, p: int)
    requires Inv(w) && c in w.clients && w.clients[c].net == [ReqExists(p)]
    ensures var cl := w.clients[c].(net := []); Inv(Put(w, c, if p in w.nodes then cl.(armed := [p]) else cl))
  {
    hide Inv;
    TheClient(w, c);
    var cl := w.clients[c].(net := []);
    PutKeeps(w, c, if p in w.nodes then cl.(armed := [p]) else cl);
  }

  lemma CreatedKeeps(w: World, c: nat, s: int)
    requires Inv(w) && c in w.clients && w.clients[c].net == [RepCreate(s)]
    ensures var cl := w.clients[c].(net := [], me := s);
      Inv(if s > 0 then Put(w, c, cl.(net := [ReqList])) else Acquire(w, c, cl))
  {
    hide Inv, First;
    TheClient(w, c);
    var cl := w.clients[c].(net := [], me := s);
    if s > 0 { PutKeeps(w, c, cl.(net := [ReqList])); }
    else { NoneBelow(w, s); AcquireKeeps(w, c, cl); }
  }

  lemma ListedKeeps(w: World, c: nat, xs: seq<int>, r: Option<int>)
    requires Inv(w) && c in w.clients && w.clients[c].net == [RepList(xs)] && Scanned(xs, w.clients[c].me, r)
    ensures var cl := w.clients[c].(net := []);
      Inv(if r.None? then Acquire(w, c, cl) else Put(w, c, cl.(watch := r, net := [ReqExists(r.v)])))
  {
    hide Inv, First;
    TheClient(w, c);
    var cl := w.clients[c].(net := []);
    if r.None? { SmallestListed(w.nodes, xs, cl.me); AcquireKeeps(w, c, cl); }
    else { PutKeeps(w, c, cl.(watch := r, net := [ReqExists(r.v)])); }
  }

  lemma EventKeeps(w: World, c: nat, p: int)
    requires Inv(w) && c in w.clients && w.clients[c].net == [Event(p)]
    ensures w.clients[c].watch == Some(p) && Inv(Put(w, c, w.clients[c].(net := [ReqList])))
  {
    hide Inv;
    TheClient(w, c);
    PutKeeps(w, c, w.clients[c].(net := [ReqList]));
  }

  lemma TheClient(w: World, c: nat)
    requires Inv(w) && c in w.clients
    ensures ClientOk(w.nodes, c, w.clients[c])
  {}

  /** Every step keeps the invariant. */
  lemma StepKeeps(w: World, c: nat, k: nat, w': World)
    requires Inv(w) && Deliver(w, c, k, w')
    ensures Inv(w')
  {
    hide Inv, ClientOk, Scanned, Fire, Drop;
    OneMessage(w, c, k);
    var cl := w.clients[c].(net := []);
    assert forall m: Msg :: cl.net + [m] == [m];
    match w.clients[c].net[0]
    case ReqCreate => CreateKeeps(w, c, cl.(net := [RepCreate(w.next)]));
    case ReqList =>
      var xs :| (forall s :: s in xs <==> s in w.nodes) && w' == Put(w, c, cl.(net := cl.net + [RepList(xs)]));
      ListKeeps(w, c, xs);
    case ReqExists(p) =>
      ExistsKeeps(w, c, p);
      assert cl.armed + [p] == [p];
    case ReqDelete(s) => if s in w.nodes { DeleteKeeps(w, c, s, w'); } else { GoneKeeps(w, c, s); }
    case RepCreate(s) => CreatedKeeps(w, c, s);
    case RepList(xs) =>
      var r :| Scanned(xs, cl.me, r) &&
        w' == if r.None? then Acquire(w, c, cl) else Put(w, c, cl.(watch := r, net := cl.net + [ReqExists(r.v)]));
      ListedKeeps(w, c, xs, r);
    case Event(p) => EventKeeps(w, c, p);
  }

  lemma GoneKeeps(w: World, c: nat, s: int)
    requires Inv(w) && c in w.clients && w.clients[c].net == [ReqDelete(s)]
    ensures s in w.nodes
  {
    TheClient(w, c);
  }

  lemma NoneBelow(w: World, s: int)
    requires Inv(w) && s <= 0
    ensures First(w.nodes, s)
  {}

  lemma SmallestListed(nodes: map<int, nat>, xs: seq<int>, me: int)
    requires Scanned(xs, me, None) && forall s :: s in nodes && s < me ==> s in xs
    ensures First(nodes, me)
  {}

  // ---------------------------------------------------------------------------------------------
  // What follows for every run
  // ---------------------------------------------------------------------------------------------

  ghost predicate Run(ws: seq<World>, picks: seq<(nat, nat)>) {
    && |ws| == |picks| + 1 && Initial(ws[0])
    && forall i :: 0 <= i < |picks| ==> Deliver(ws[i], picks[i].0, picks[i].1, ws[i + 1])
  }

  lemma {:induction false} RunKeeps(ws: seq<World>, picks: seq<(nat, nat)>, n: nat)
    requires Run(ws, picks) && n < |ws|
    ensures Inv(ws[n])
    decreases n
  {
    if n == 0 { InitialKeeps(ws[0]); }
    else {
      RunKeeps(ws, picks, n - 1);
      assert Deliver(ws[n - 1], picks[n - 1].0, picks[n - 1].1, ws[n - 1 + 1]);
      StepKeeps(ws[n - 1], picks[n - 1].0, picks[n - 1].1, ws[n]);
    }
  }

  /** A client past its acquire point whose node is not deleted yet. */
  ghost predicate Holds(w: World, c: nat) { c in w.clients && w.clients[c].acquired && Mine(w.nodes, c, w.clients[c]) }

  /** Two clients never hold the lock at once, and grants follow the sequence numbers. */
  lemma MutualExclusion(ws: seq<World>, picks: seq<(nat, nat)>, n: nat, c: nat, d: nat)
    requires Run(ws, picks) && n < |ws|
    ensures Holds(ws[n], c) && Holds(ws[n], d) ==> c == d
    ensures Increasing(ws[n].grants)
  {
    RunKeeps(ws, picks, n);
    var w := ws[n];
    if Holds(w, c) && Holds(w, d) {
      assert ClientOk(w.nodes, c, w.clients[c]) && ClientOk(w.nodes, d, w.clients[d]);
      assert w.clients[c].net[0] == ReqDelete(w.clients[c].me) && w.clients[d].net[0] == ReqDelete(w.clients[d].me);
    }
  }

  /** A client never has two requests, replies, events or watches outstanding. */
  lemma OneOutstanding(ws: seq<World>, picks: seq<(nat, nat)>, n: nat, c: nat)
    requires Run(ws, picks) && n < |ws| && c in ws[n].clients
    ensures |ws[n].clients[c].net| + |ws[n].clients[c].armed| <= 1
  {
    RunKeeps(ws, picks, n);
  }

  /** Step i told client c that the node it wanted to watch was gone, and c has received nothing since. */
  ghost predicate ToldGone(ws: seq<World>, picks: seq<(nat, nat)>, i: nat, n: nat, c: nat)
    requires |ws| == |picks| + 1 && n < |ws|
  {
    && i < n && picks[i].0 == c && c in ws[i].clients && picks[i].1 < |ws[i].clients[c].net|
    && ws[i].clients[c].net[picks[i].1].ReqExists? && ws[i].clients[c].net[picks[i].1].w !in ws[i].nodes
    && forall j :: i < j < n ==> picks[j].0 != c
  }

  predicate Silent(w: World, c: nat) {
    c in w.clients && !w.clients[c].acquired && w.clients[c].net == [] && w.clients[c].armed == []
  }

  /** A client falls silent only by asking to watch a node that is gone. */
  lemma FallsSilent(w: World, d: nat, k: nat, w': World, c: nat)
    requires Inv(w) && Deliver(w, d, k, w') && Silent(w', c)
    ensures if d == c then k < |w.clients[c].net| && w.clients[c].net[k].ReqExists? && w.clients[c].net[k].w !in w.nodes
      else Silent(w, c)
  {
    hide Inv, Scanned, Fire, Drop;
    OneMessage(w, d, k);
    var m := w.clients[d].net[0];
    if m.ReqDelete? && m.s in w.nodes {
      var all := w.clients[d := w.clients[d].(net := [])];
      if c in all {
        TheClient(w, c);
        FireOne(all[c], m.s);
      }
    }
    if d == c { TheClient(w, c); }
  }

  /**
   * A client that waits for the lock has exactly one message or watch outstanding, unless the node before
   * its own was gone already when it asked for the watch.
   */
  lemma {:induction false} OneAwaited(ws: seq<World>, picks: seq<(nat, nat)>, n: nat, c: nat)
    requires Run(ws, picks) && n < |ws| && c in ws[n].clients && !ws[n].clients[c].acquired
    ensures |ws[n].clients[c].net| + |ws[n].clients[c].armed| == 1 || exists i :: ToldGone(ws, picks, i, n, c)
    decreases n
  {
    hide Inv, Deliver;
    OneOutstanding(ws, picks, n, c);
    if n > 0 && Silent(ws[n], c) {
      var d, k := picks[n - 1].0, picks[n - 1].1;
      RunKeeps(ws, picks, n - 1);
      assert Deliver(ws[n - 1], d, k, ws[n - 1 + 1]);
      FallsSilent(ws[n - 1], d, k, ws[n], c);
      if d == c {
        Delivered(ws[n - 1], d, k, ws[n]);
        assert ToldGone(ws, picks, n - 1, n, c);
      } else {
        OneAwaited(ws, picks, n - 1, c);
        var i :| ToldGone(ws, picks, i, n - 1, c);
        assert ToldGone(ws, picks, i, n, c);
      }
    }
  }

  lemma Delivered(w: World, c: nat, k: nat, w': World)
    requires Deliver(w, c, k, w')
    ensures c in w.clients && k < |w.clients[c].net|
  {}
}
