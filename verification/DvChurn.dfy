/**
 The network while links come and go: links fail and are restored, routers
 restart, notice new neighbours and declare old ones dead, and any advertisement
 ever made by a neighbour may arrive. When the changes are over, the network
 settles although no two routers act in step. The routers as programs do to
 their tables what the events say.
 */
module DvChurn {
  import opened DvTable
  import opened DvNetwork
  import DvRib

  /** A router: its table, the neighbours it takes to be alive, the tables it has advertised so far, in order, and
      for each neighbour how many of the neighbour's advertisements were made up to the one received last. */
  datatype Node = Node(table: Table, known: set<Name>, sent: seq<Table>, heard: map<Name, nat>)

  datatype World = World(links: set<(Name, Name)>, nodes: map<Name, Node>)

  datatype Event =
    | LinkUp(a: Name, b: Name)
    | LinkDown(a: Name, b: Name)
    | Meet(r: Name, n: Name)            // r notices a neighbour
    | Forget(r: Name, n: Name)          // r declares a neighbour dead
    | Restart(r: Name)
    | Advertise(r: Name)                // r advertises its current table
    | Arrive(r: Name, n: Name, i: nat)  // the i-th advertisement of n reaches r

  ghost function Current(w: World): Topology {
    Topology(w.nodes.Keys, w.links)
  }

  ghost function TablesOf(w: World): Tables {
    map r | r in w.nodes :: w.nodes[r].table
  }

  function Started(r: Name): Node {
    Node(InitialTable(r), {}, [], map[])
  }

  ghost predicate CanHappen(w: World, e: Event) {
    match e
    case LinkUp(a, b) => a in w.nodes && b in w.nodes && a != b
    case LinkDown(a, b) => true
    case Meet(r, n) => (r, n) in w.links
    case Forget(r, n) => r in w.nodes && n in w.nodes[r].known
    case Restart(r) => r in w.nodes
    case Advertise(r) => r in w.nodes
    case Arrive(r, n, i) => r in w.nodes && n in w.nodes && n in w.nodes[r].known && i < |w.nodes[n].sent|
  }

  /** The advertisements a router has made. */
  ghost function Sent(w: World, n: Name): seq<Table> {
    if n in w.nodes then w.nodes[n].sent else []
  }

  ghost function Lost(node: Node, n: Name): Node {
    node.(table := Receive(node.table, n, map[]), known := node.known - {n}, heard := node.heard - {n})
  }

  ghost function Received(r: Name, node: Node, n: Name, i: nat, tn: Table): Node {
    node.(table := Hear(r, node.table, n, tn), heard := node.heard[n := i + 1])
  }

  ghost function Apply(w: World, e: Event): World
    requires Current(w).Valid() && CanHappen(w, e)
  {
    match e
    case LinkUp(a, b) => w.(links := w.links + {(a, b), (b, a)})
    case LinkDown(a, b) => w.(links := w.links - {(a, b), (b, a)})
    case Meet(r, n) => Put(w, r, w.nodes[r].(known := w.nodes[r].known + {n}))
    case Forget(r, n) => Put(w, r, Lost(w.nodes[r], n))
    case Restart(r) => Put(w, r, Started(r).(sent := w.nodes[r].sent))
    case Advertise(r) => Put(w, r, w.nodes[r].(sent := w.nodes[r].sent + [w.nodes[r].table]))
    case Arrive(r, n, i) => Put(w, r, Received(r, w.nodes[r], n, i, w.nodes[n].sent[i]))
  }

  ghost function Put(w: World, r: Name, node: Node): World {
    w.(nodes := w.nodes[r := node])
  }

  ghost predicate Happens(w: World, e: Event, w': World) {
    Current(w).Valid() && CanHappen(w, e) && w' == Apply(w, e)
  }

  /** A history: any routers, freshly started, any links, and then any events. */
  ghost predicate IsHistory(worlds: seq<World>, events: seq<Event>) {
    && |worlds| == |events| + 1 && Current(worlds[0]).Valid()
    && (forall r :: r in worlds[0].nodes ==> worlds[0].nodes[r] == Started(r))
    && forall i: nat {:trigger StepAt(worlds, events, i)} :: i < |events| ==> StepAt(worlds, events, i)
  }

  ghost predicate StepAt(worlds: seq<World>, events: seq<Event>, i: nat)
    requires i < |events| && |worlds| == |events| + 1
  {
    Happens(worlds[i], events[i], worlds[i + 1])
  }

  // ------------------------------------------------------- what every event keeps

  /** The table of r holds r itself at cost 0, and otherwise positive costs through known neighbours only. */
  ghost predicate Keeps(r: Name, t: Table, known: set<Name>) {
    && Normal(t) && Cost(t, r, r) == 0 && r !in known
    && forall d, n {:trigger Cost(t, d, n)} :: Cost(t, d, n) < COST_INFINITY ==>
         if n == r then d == r else n in known && Cost(t, d, n) > 0
  }

  /** The column of n is what r hears from the table tn. */
  ghost predicate ColumnFrom(r: Name, t: Table, n: Name, tn: Table) {
    forall d {:trigger Cost(t, d, n)} :: Cost(t, d, n) == Heard(r, tn, d)
  }

  /** r has received an advertisement that n did make, and its column is still what follows from it. */
  ghost predicate HeardFrom(r: Name, node: Node, n: Name, sent: seq<Table>) {
    match node
    case Node(table, known, _, heard) =>
      n in known && n in heard && 0 < heard[n] <= |sent| && ColumnFrom(r, table, n, sent[heard[n] - 1])
  }

  ghost predicate AllNormal(sent: seq<Table>) {
    forall i :: 0 <= i < |sent| ==> Normal(sent[i])
  }

  ghost predicate NodeOk(w: World, r: Name, node: Node) {
    match node
    case Node(table, known, sent, heard) =>
      && Keeps(r, table, known) && AllNormal(sent)
      && forall n {:trigger HeardFrom(r, node, n, Sent(w, n))} :: n in heard ==> HeardFrom(r, node, n, Sent(w, n))
  }

  ghost predicate WorldOk(w: World) {
    Current(w).Valid() && forall r {:trigger NodeOk(w, r, w.nodes[r])} :: r in w.nodes ==> NodeOk(w, r, w.nodes[r])
  }

  lemma HearKeeps(r: Name, t: Table, known: set<Name>, n: Name, tn: Table)
    requires Keeps(r, t, known) && n in known
    ensures Keeps(r, Hear(r, t, n, tn), known) && ColumnFrom(r, Hear(r, t, n, tn), n, tn)
    ensures forall d, m {:trigger Cost(Hear(r, t, n, tn), d, m)} :: m != n ==>
              Cost(Hear(r, t, n, tn), d, m) == Cost(t, d, m)
  {
    var t' := Hear(r, t, n, tn);
    HearCost(r, t, n, tn, r, r);
    forall d, m {:trigger Cost(t', d, m)}
      ensures Cost(t', d, m) == if m == n then Heard(r, tn, d) else Cost(t, d, m)
    {
      HearCost(r, t, n, tn, d, m);
    }
  }

  lemma ForgetKeeps(r: Name, t: Table, known: set<Name>, n: Name)
    requires Keeps(r, t, known) && n in known
    ensures Keeps(r, Receive(t, n, map[]), known - {n})
    ensures forall d, m {:trigger Cost(Receive(t, n, map[]), d, m)} :: m != n ==>
              Cost(Receive(t, n, map[]), d, m) == Cost(t, d, m)
  {
    ReceiveCost(t, n, map[]);
    forall d, m {:trigger Cost(Receive(t, n, map[]), d, m)}
      ensures Cost(Receive(t, n, map[]), d, m) == if m == n then COST_INFINITY else Cost(t, d, m)
    {
    }
  }

  lemma MeetOk(w: World, r: Name, node: Node, n: Name)
    requires NodeOk(w, r, node) && n != r
    ensures NodeOk(w, r, node.(known := node.known + {n}))
  {
    forall m | m in node.heard
      ensures HeardFrom(r, node.(known := node.known + {n}), m, Sent(w, m))
    {
      assert HeardFrom(r, node, m, Sent(w, m));
    }
  }

  lemma ForgetOk(w: World, r: Name, node: Node, n: Name)
    requires NodeOk(w, r, node) && n in node.known
    ensures NodeOk(w, r, Lost(node, n))
  {
    ForgetKeeps(r, node.table, node.known, n);
    forall m | m in Lost(node, n).heard
      ensures HeardFrom(r, Lost(node, n), m, Sent(w, m))
    {
      assert HeardFrom(r, node, m, Sent(w, m));
    }
  }

  lemma ArriveOk(w: World, r: Name, node: Node, n: Name, i: nat)
    requires NodeOk(w, r, node) && n in node.known && i < |Sent(w, n)|
    ensures NodeOk(w, r, Received(r, node, n, i, Sent(w, n)[i]))
  {
    HearKeeps(r, node.table, node.known, n, Sent(w, n)[i]);
    ColumnReplacedOk(w, r, node, n, i, Hear(r, node.table, n, Sent(w, n)[i]));
  }

  lemma ColumnReplacedOk(w: World, r: Name, node: Node, n: Name, i: nat, t: Table)
    requires NodeOk(w, r, node) && n in node.known && i < |Sent(w, n)|
    requires Keeps(r, t, node.known) && ColumnFrom(r, t, n, Sent(w, n)[i])
    requires forall d, m {:trigger Cost(t, d, m)} :: m != n ==> Cost(t, d, m) == Cost(node.table, d, m)
    ensures NodeOk(w, r, node.(table := t, heard := node.heard[n := i + 1]))
  {
    var node' := node.(table := t, heard := node.heard[n := i + 1]);
    forall m | m in node'.heard
      ensures HeardFrom(r, node', m, Sent(w, m))
    {
      if m != n {
        assert HeardFrom(r, node, m, Sent(w, m));
        HeardKept(r, node, node', m, Sent(w, m));
      }
    }
  }

  lemma HeardKept(r: Name, node: Node, node': Node, n: Name, sent: seq<Table>)
    requires HeardFrom(r, node, n, sent) && n in node'.known && n in node'.heard && node'.heard[n] == node.heard[n]
    requires forall d {:trigger Cost(node'.table, d, n)} :: Cost(node'.table, d, n) == Cost(node.table, d, n)
    ensures HeardFrom(r, node', n, sent)
  {
  }

  lemma RestartOk(w: World, r: Name, node: Node)
    requires NodeOk(w, r, node)
    ensures NodeOk(w, r, Started(r).(sent := node.sent))
  {
    assert Keeps(r, InitialTable(r), {});
  }

  lemma AdvertiseOk(w: World, r: Name, node: Node)
    requires NodeOk(w, r, node)
    ensures NodeOk(w, r, node.(sent := node.sent + [node.table]))
  {
    forall m | m in node.heard
      ensures HeardFrom(r, node.(sent := node.sent + [node.table]), m, Sent(w, m))
    {
      assert HeardFrom(r, node, m, Sent(w, m));
    }
  }

  /** Advertisements once made stay, so a router is not disturbed by what another does. */
  lemma PutOk(w: World, r: Name, node: Node)
    requires WorldOk(w) && r in w.nodes && NodeOk(w, r, node) && w.nodes[r].sent <= node.sent
    ensures WorldOk(Put(w, r, node)) && Put(w, r, node).nodes.Keys == w.nodes.Keys
  {
    var w' := Put(w, r, node);
    forall x | x in w'.nodes
      ensures NodeOk(w', x, w'.nodes[x])
    {
      assert NodeOk(w, x, w'.nodes[x]);
      GrownOk(w, w', x, w'.nodes[x]);
    }
    assert w'.nodes.Keys == w.nodes.Keys;
    assert Current(w') == Current(w);
  }

  lemma GrownOk(w: World, w': World, r: Name, node: Node)
    requires NodeOk(w, r, node) && forall n :: Sent(w, n) <= Sent(w', n)
    ensures NodeOk(w', r, node)
  {
    forall n | n in node.heard
      ensures HeardFrom(r, node, n, Sent(w', n))
    {
      assert HeardFrom(r, node, n, Sent(w, n)) && Sent(w, n) <= Sent(w', n);
    }
  }

  lemma LinksOk(w: World, links: set<(Name, Name)>)
    requires WorldOk(w) && Topology(w.nodes.Keys, links).Valid()
    ensures WorldOk(w.(links := links))
  {
    var w' := w.(links := links);
    forall r | r in w'.nodes
      ensures NodeOk(w', r, w'.nodes[r])
    {
      assert NodeOk(w, r, w.nodes[r]);
      GrownOk(w, w', r, w.nodes[r]);
    }
  }

  lemma StepOk(w: World, e: Event, w': World)
    requires WorldOk(w) && Happens(w, e, w')
    ensures WorldOk(w') && w'.nodes.Keys == w.nodes.Keys
  {
    match e
    case LinkUp(a, b) => LinksOk(w, w.links + {(a, b), (b, a)});
    case LinkDown(a, b) => LinksOk(w, w.links - {(a, b), (b, a)});
    case Meet(r, n) =>
      assert r in Current(w).routers && NodeOk(w, r, w.nodes[r]);
      MeetOk(w, r, w.nodes[r], n);
      PutOk(w, r, w.nodes[r].(known := w.nodes[r].known + {n}));
    case Forget(r, n) =>
      assert NodeOk(w, r, w.nodes[r]);
      ForgetOk(w, r, w.nodes[r], n);
      PutOk(w, r, Lost(w.nodes[r], n));
    case Restart(r) =>
      assert NodeOk(w, r, w.nodes[r]);
      RestartOk(w, r, w.nodes[r]);
      PutOk(w, r, Started(r).(sent := w.nodes[r].sent));
    case Advertise(r) =>
      assert NodeOk(w, r, w.nodes[r]);
      AdvertiseOk(w, r, w.nodes[r]);
      PutOk(w, r, w.nodes[r].(sent := w.nodes[r].sent + [w.nodes[r].table]));
    case Arrive(r, n, i) =>
      assert NodeOk(w, r, w.nodes[r]);
      ArriveOk(w, r, w.nodes[r], n, i);
      PutOk(w, r, Received(r, w.nodes[r], n, i, Sent(w, n)[i]));
  }

  lemma {:induction false} HistoryOk(worlds: seq<World>, events: seq<Event>, k: nat)
    requires IsHistory(worlds, events) && k < |worlds|
    ensures WorldOk(worlds[k]) && worlds[k].nodes.Keys == worlds[0].nodes.Keys
  {
    if k == 0 {
    } else {
      HistoryOk(worlds, events, k - 1);
      assert StepAt(worlds, events, k - 1);
      StepOk(worlds[k - 1], events[k - 1], worlds[k]);
    }
  }

  // ------------------------------------------------------------ after the changes

  /** Every neighbour that was lost has been declared dead. */
  ghost predicate CaughtUp(w: World) {
    forall r, n :: r in w.nodes && n in w.nodes[r].known ==> (r, n) in w.links
  }

  lemma CaughtUpIsLocal(w: World)
    requires WorldOk(w) && CaughtUp(w)
    ensures LocalNet(Current(w), TablesOf(w))
  {
    forall r | r in w.nodes
      ensures Local(Current(w), r, w.nodes[r].table)
    {
      assert NodeOk(w, r, w.nodes[r]);
    }
  }

  /** After any history of failures, once every lost neighbour has been declared dead, the state is local to the
      current links. */
  lemma HistoryIsLocal(worlds: seq<World>, events: seq<Event>, k: nat)
    requires IsHistory(worlds, events) && k < |worlds| && CaughtUp(worlds[k])
    ensures LocalNet(Current(worlds[k]), TablesOf(worlds[k]))
  {
    HistoryOk(worlds, events, k);
    CaughtUpIsLocal(worlds[k]);
  }

  /** No neighbour's current advertisement would change any table. */
  ghost predicate AtRest(w: World) {
    forall r, n :: (r, n) in w.links && r in w.nodes && n in w.nodes ==>
          Hear(r, w.nodes[r].table, n, w.nodes[n].table) == w.nodes[r].table
  }

  /** After any history of failures, a state in which lost neighbours are declared dead and no current advertisement
      would change a table has real costs and exact distances for the links there are. */
  lemma HistoryAtRest(worlds: seq<World>, events: seq<Event>, k: nat, m: nat)
    requires IsHistory(worlds, events) && k < |worlds| && CaughtUp(worlds[k]) && AtRest(worlds[k])
    ensures SettledNet(Current(worlds[k]), TablesOf(worlds[k]), m)
  {
    HistoryIsLocal(worlds, events, k);
    assert Quiescent(Current(worlds[k]), TablesOf(worlds[k]));
    QuiescentIsSettled(Current(worlds[k]), TablesOf(worlds[k]), m);
  }

  // ------------------------------------------------------------------- phases

  /** Routers only advertise and receive, and no advertisement is received after a later one of the same sender. */
  ghost predicate CalmEvent(w: World, e: Event) {
    match e
    case Advertise(_) => true
    case Arrive(r, n, i) => r in w.nodes && (n in w.nodes[r].heard ==> w.nodes[r].heard[n] <= i + 1)
    case _ => false
  }

  ghost predicate CalmFrom(worlds: seq<World>, events: seq<Event>, a: nat) {
    forall i: nat {:trigger CalmAt(worlds, events, i)} :: a <= i < |events| && i < |worlds| ==>
          CalmAt(worlds, events, i)
  }

  ghost predicate CalmAt(worlds: seq<World>, events: seq<Event>, i: nat)
    requires i < |events| && i < |worlds|
  {
    CalmEvent(worlds[i], events[i])
  }

  /** Between the two worlds every router has received, from each neighbour, an advertisement made after the first. */
  ghost predicate PhaseDone(w: World, w': World) {
    forall r, n :: (r, n) in w.links && r in w'.nodes && n in w.nodes ==>
          n in w'.nodes[r].heard && w'.nodes[r].heard[n] > |w.nodes[n].sent|
  }

  /** Phases, one after the other; marks[k] is where the k-th ends and the next begins. */
  ghost predicate Phases(worlds: seq<World>, a: nat, marks: seq<nat>) {
    && marks != [] && marks[0] >= a && (forall k :: 0 <= k < |marks| ==> marks[k] < |worlds|)
    && forall k: nat {:trigger PhaseAt(worlds, marks, k)} :: k + 1 < |marks| ==> PhaseAt(worlds, marks, k)
  }

  ghost predicate PhaseAt(worlds: seq<World>, marks: seq<nat>, k: nat)
    requires k + 1 < |marks| && forall k :: 0 <= k < |marks| ==> marks[k] < |worlds|
  {
    marks[k] <= marks[k + 1] && PhaseDone(worlds[marks[k]], worlds[marks[k + 1]])
  }

  /** What does not change in calm, and what only grows. */
  ghost predicate Later(w: World, w': World) {
    match w
    case World(links, nodes) =>
      && w'.links == links && w'.nodes.Keys == nodes.Keys
      && forall r {:trigger NodeLater(nodes[r], w'.nodes[r])} :: r in nodes ==> NodeLater(nodes[r], w'.nodes[r])
  }

  ghost predicate NodeLater(node: Node, node': Node) {
    && node'.known == node.known && node.sent <= node'.sent
    && forall n :: n in node.heard ==> n in node'.heard && node.heard[n] <= node'.heard[n]
  }

  lemma CalmStep(w: World, e: Event, w': World)
    requires Happens(w, e, w') && CalmEvent(w, e)
    ensures Later(w, w')
  {
  }

  lemma CalmNext(worlds: seq<World>, events: seq<Event>, a: nat, i: nat)
    requires IsHistory(worlds, events) && CalmFrom(worlds, events, a) && a <= i < |events|
    ensures Later(worlds[i], worlds[i + 1])
  {
    assert StepAt(worlds, events, i) && CalmAt(worlds, events, i);
    CalmStep(worlds[i], events[i], worlds[i + 1]);
  }

  /** A router that advertises adds its current table to what it has sent; nothing else does. */
  lemma SentNext(worlds: seq<World>, events: seq<Event>, a: nat, i: nat, n: Name)
    requires IsHistory(worlds, events) && CalmFrom(worlds, events, a) && a <= i < |events|
    ensures || Sent(worlds[i + 1], n) == Sent(worlds[i], n)
            || (n in worlds[i].nodes && Sent(worlds[i + 1], n) == Sent(worlds[i], n) + [worlds[i].nodes[n].table])
  {
    assert StepAt(worlds, events, i) && CalmAt(worlds, events, i);
    CalmSent(worlds[i], events[i], worlds[i + 1], n);
  }

  lemma {:induction false} CalmLater(worlds: seq<World>, events: seq<Event>, a: nat, i: nat, j: nat)
    requires IsHistory(worlds, events) && CalmFrom(worlds, events, a) && a <= i <= j < |worlds|
    ensures Later(worlds[i], worlds[j])
    decreases j
  {
    if i == j {
    } else {
      CalmLater(worlds, events, a, i, j - 1);
      CalmNext(worlds, events, a, j - 1);
      LaterLater(worlds[i], worlds[j - 1], worlds[j]);
    }
  }

  lemma LaterLater(w: World, w1: World, w2: World)
    requires Later(w, w1) && Later(w1, w2)
    ensures Later(w, w2)
  {
    forall r | r in w.nodes
      ensures NodeLater(w.nodes[r], w2.nodes[r])
    {
      assert NodeLater(w.nodes[r], w1.nodes[r]) && NodeLater(w1.nodes[r], w2.nodes[r]);
    }
  }

  /** An advertisement that is there at j but was not at i was made from a table held in between. */
  lemma {:induction false} MadeBetween(worlds: seq<World>, events: seq<Event>, a: nat, i: nat, j: nat, n: Name, x: nat)
    returns (m: nat)
    requires IsHistory(worlds, events) && CalmFrom(worlds, events, a) && a <= i <= j < |worlds|
    requires |Sent(worlds[i], n)| <= x < |Sent(worlds[j], n)|
    ensures i <= m < j && n in worlds[m].nodes && Sent(worlds[j], n)[x] == worlds[m].nodes[n].table
    decreases j
  {
    SentNext(worlds, events, a, j - 1, n);
    if x < |Sent(worlds[j - 1], n)| {
      m := MadeBetween(worlds, events, a, i, j - 1, n, x);
    } else {
      m := j - 1;
    }
  }

  lemma CalmSent(w: World, e: Event, w': World, n: Name)
    requires Happens(w, e, w') && CalmEvent(w, e)
    ensures Sent(w', n) == if e == Advertise(n) then Sent(w, n) + [w.nodes[n].table] else Sent(w, n)
  {
  }

  /** The table that the column of a neighbour comes from; for other routers, their own. */
  ghost function Source(w: World, r: Name, n: Name): Table
    requires r in w.nodes && n in w.nodes
  {
    var node := w.nodes[r];
    if (r, n) in w.links && n in node.heard && 0 < node.heard[n] <= |Sent(w, n)| then Sent(w, n)[node.heard[n] - 1]
    else w.nodes[n].table
  }

  ghost function Sources(w: World, r: Name): Tables
    requires r in w.nodes
  {
    map n | n in w.nodes :: Source(w, r, n)
  }

  /** r has heard from all its neighbours. */
  ghost predicate HeardAll(w: World, r: Name)
    requires r in w.nodes
  {
    forall n :: (r, n) in w.links ==> n in w.nodes[r].heard
  }

  lemma ColumnsAreRound(w: World, r: Name)
    requires WorldOk(w) && CaughtUp(w) && r in w.nodes && HeardAll(w, r)
    ensures IsRoundTable(Current(w), Sources(w, r), r, w.nodes[r].table)
  {
    var t := w.nodes[r].table;
    assert NodeOk(w, r, w.nodes[r]);
    forall d: Name, n: Name {:trigger Cost(t, d, n)}
      ensures Cost(t, d, n) == RoundCell(Current(w), Sources(w, r), r, d, n)
    {
      CostBounded(t, d, n);
      if (r, n) in w.links {
        assert HeardFrom(r, w.nodes[r], n, Sent(w, n));
      }
    }
  }

  /** Convergence without rounds: after k phases, every cost up to k is real and every distance up to k exact, and it
      stays so. In a phase, every router receives from each neighbour one advertisement or more made in that phase,
      in any interleaving and while tables change. */
  lemma {:induction false} PhasesSettle(worlds: seq<World>, events: seq<Event>, a: nat, marks: seq<nat>, k: nat, j: nat)
    requires IsHistory(worlds, events) && a < |worlds| && CaughtUp(worlds[a]) && CalmFrom(worlds, events, a)
    requires Phases(worlds, a, marks) && k < |marks| && marks[k] <= j < |worlds|
    ensures SettledNet(Current(worlds[a]), TablesOf(worlds[j]), k)
    decreases k, 2
  {
    MarksRise(worlds, a, marks, k);
    CalmCaughtUp(worlds, events, a, j);
    var w := worlds[j];
    if k == 0 {
      LocalNetIsSettled(Current(w), TablesOf(w));
    } else {
      forall r | r in w.nodes
        ensures Settled(Current(w), r, w.nodes[r].table, k)
      {
        RouterSettles(worlds, events, a, marks, k, j, r);
      }
    }
  }

  lemma {:induction false} MarksRise(worlds: seq<World>, a: nat, marks: seq<nat>, k: nat)
    requires Phases(worlds, a, marks) && k < |marks|
    ensures a <= marks[k]
  {
    if k == 0 {
    } else {
      MarksRise(worlds, a, marks, k - 1);
      assert PhaseAt(worlds, marks, k - 1);
    }
  }

  lemma CalmCaughtUp(worlds: seq<World>, events: seq<Event>, a: nat, j: nat)
    requires IsHistory(worlds, events) && a <= j < |worlds| && CaughtUp(worlds[a]) && CalmFrom(worlds, events, a)
    ensures Current(worlds[j]) == Current(worlds[a]) && WorldOk(worlds[j]) && CaughtUp(worlds[j])
    ensures LocalNet(Current(worlds[j]), TablesOf(worlds[j]))
  {
    CalmLater(worlds, events, a, a, j);
    HistoryOk(worlds, events, j);
    forall r, n | r in worlds[j].nodes && n in worlds[j].nodes[r].known
      ensures (r, n) in worlds[j].links
    {
      assert NodeLater(worlds[a].nodes[r], worlds[j].nodes[r]);
    }
    CaughtUpIsLocal(worlds[j]);
  }

  /** After a phase, every column that r has comes from an advertisement made in that phase or later. */
  lemma HeardInPhase(worlds: seq<World>, events: seq<Event>, a: nat, marks: seq<nat>, k: nat, j: nat, r: Name, n: Name)
    requires IsHistory(worlds, events) && CalmFrom(worlds, events, a)
    requires Phases(worlds, a, marks) && 0 < k < |marks| && marks[k] <= j < |worlds| && a <= marks[k - 1]
    requires r in worlds[j].nodes && n in worlds[j].nodes && (r, n) in worlds[j].links
    ensures n in worlds[j].nodes[r].heard && worlds[j].nodes[r].heard[n] > |Sent(worlds[marks[k - 1]], n)|
  {
    var start, end := marks[k - 1], marks[k];
    assert PhaseAt(worlds, marks, k - 1);
    CalmLater(worlds, events, a, start, end);
    CalmLater(worlds, events, a, end, j);
    assert NodeLater(worlds[end].nodes[r], worlds[j].nodes[r]);
  }

  lemma SourceFound(worlds: seq<World>, events: seq<Event>, a: nat, marks: seq<nat>, k: nat, j: nat, r: Name, n: Name)
    returns (m: nat)
    requires IsHistory(worlds, events) && CalmFrom(worlds, events, a)
    requires Phases(worlds, a, marks) && 0 < k < |marks| && marks[k] <= j < |worlds| && a <= marks[k - 1]
    requires r in worlds[j].nodes && n in worlds[j].nodes && (r, n) in worlds[j].links
    ensures n in worlds[j].nodes[r].heard
    ensures marks[k - 1] <= m < j && n in worlds[m].nodes && Source(worlds[j], r, n) == worlds[m].nodes[n].table
  {
    assert PhaseAt(worlds, marks, k - 1);
    HeardInPhase(worlds, events, a, marks, k, j, r, n);
    HistoryOk(worlds, events, j);
    assert NodeOk(worlds[j], r, worlds[j].nodes[r]) && HeardFrom(r, worlds[j].nodes[r], n, Sent(worlds[j], n));
    m := MadeBetween(worlds, events, a, marks[k - 1], j, n, worlds[j].nodes[r].heard[n] - 1);
  }

  /** The column of a neighbour comes from a table that the neighbour held after the phase before. */
  lemma SourceSettled(worlds: seq<World>, events: seq<Event>, a: nat, marks: seq<nat>, k: nat, j: nat, r: Name, n: Name)
    requires IsHistory(worlds, events) && a < |worlds| && CaughtUp(worlds[a]) && CalmFrom(worlds, events, a)
    requires Phases(worlds, a, marks) && 0 < k < |marks| && marks[k] <= j < |worlds| && a <= marks[k - 1]
    requires r in worlds[j].nodes && n in worlds[j].nodes && (r, n) in worlds[j].links
    ensures n in worlds[j].nodes[r].heard && Settled(Current(worlds[a]), n, Source(worlds[j], r, n), k - 1)
    decreases k, 0
  {
    var m := SourceFound(worlds, events, a, marks, k, j, r, n);
    PhasesSettle(worlds, events, a, marks, k - 1, m);
    SettledAt(Current(worlds[a]), worlds[m], n, k - 1);
  }

  lemma SettledAt(g: Topology, w: World, n: Name, k: nat)
    requires SettledNet(g, TablesOf(w), k) && n in w.nodes
    ensures Settled(g, n, w.nodes[n].table, k)
  {
    assert Settled(g, n, TablesOf(w)[n], k);
  }

  lemma RouterSettles(worlds: seq<World>, events: seq<Event>, a: nat, marks: seq<nat>, k: nat, j: nat, r: Name)
    requires IsHistory(worlds, events) && a < |worlds| && CaughtUp(worlds[a]) && CalmFrom(worlds, events, a)
    requires Phases(worlds, a, marks) && 0 < k < |marks| && marks[k] <= j < |worlds| && r in worlds[j].nodes
    ensures Settled(Current(worlds[a]), r, worlds[j].nodes[r].table, k)
    decreases k, 1
  {
    var g, w := Current(worlds[a]), worlds[j];
    MarksRise(worlds, a, marks, k - 1);
    assert PhaseAt(worlds, marks, k - 1);
    CalmCaughtUp(worlds, events, a, j);
    PhasesSettle(worlds, events, a, marks, k - 1, j);
    forall n | n in w.nodes
      ensures Settled(g, n, Source(w, r, n), k - 1) && ((r, n) in w.links ==> n in w.nodes[r].heard)
    {
      if (r, n) in w.links {
        SourceSettled(worlds, events, a, marks, k, j, r, n);
      } else {
        assert Settled(g, n, TablesOf(w)[n], k - 1);
      }
    }
    SettlesFrom(w, r, k - 1);
  }

  lemma SettlesFrom(w: World, r: Name, k: nat)
    requires WorldOk(w) && CaughtUp(w) && r in w.nodes && HeardAll(w, r)
    requires forall n {:trigger Source(w, r, n)} :: n in w.nodes ==> Settled(Current(w), n, Source(w, r, n), k)
    ensures Settled(Current(w), r, w.nodes[r].table, k + 1)
  {
    var g, s := Current(w), Sources(w, r);
    forall n | n in s
      ensures Settled(g, n, s[n], k)
    {
      assert s[n] == Source(w, r, n);
    }
    ColumnsAreRound(w, r);
    RoundTableSettles(g, s, k, r, w.nodes[r].table);
  }

  // --------------------------------------------------- the state it settles in

  /** A history with phases: from the world numbered `start` on it is calm, with the routers and links of g. */
  datatype Course = Course(worlds: seq<World>, events: seq<Event>, start: nat, marks: seq<nat>) {
    ghost predicate Ok(g: Topology) {
      match this
      case Course(worlds, events, start, marks) =>
        && IsHistory(worlds, events) && start < |worlds| && CaughtUp(worlds[start]) && Current(worlds[start]) == g
        && CalmFrom(worlds, events, start) && Phases(worlds, start, marks)
    }

    /** The world numbered j comes after k phases. */
    ghost predicate Reaches(k: nat, j: nat) {
      k < |marks| && marks[k] <= j < |worlds|
    }
  }

  lemma CourseLocal(g: Topology, c: Course, k: nat, j: nat)
    requires c.Ok(g) && c.Reaches(k, j)
    ensures Current(c.worlds[j]) == g && WorldOk(c.worlds[j]) && CaughtUp(c.worlds[j])
    ensures LocalNet(g, TablesOf(c.worlds[j]))
  {
    MarksRise(c.worlds, c.start, c.marks, k);
    CalmCaughtUp(c.worlds, c.events, c.start, j);
  }

  /** After a phase, the table that a column comes from was held after the phase before. */
  lemma SourceHeld(g: Topology, c: Course, k: nat, j: nat, r: Name, n: Name) returns (m: nat)
    requires c.Ok(g) && c.Reaches(k + 1, j) && r in c.worlds[j].nodes && n in c.worlds[j].nodes
    ensures c.Reaches(k, m) && n in c.worlds[m].nodes && Source(c.worlds[j], r, n) == c.worlds[m].nodes[n].table
    ensures (r, n) in c.worlds[j].links ==> n in c.worlds[j].nodes[r].heard
  {
    assert PhaseAt(c.worlds, c.marks, k);
    MarksRise(c.worlds, c.start, c.marks, k);
    if (r, n) in c.worlds[j].links {
      m := SourceFound(c.worlds, c.events, c.start, c.marks, k + 1, j, r, n);
    } else {
      m := j;
    }
  }

  lemma SourcesLocal(g: Topology, c: Course, k: nat, j: nat, r: Name)
    requires c.Ok(g) && c.Reaches(k + 1, j) && r in c.worlds[j].nodes
    ensures LocalNet(g, Sources(c.worlds[j], r))
    ensures IsRoundTable(g, Sources(c.worlds[j], r), r, c.worlds[j].nodes[r].table)
  {
    CourseLocal(g, c, k + 1, j);
    var w := c.worlds[j];
    forall n | n in w.nodes
      ensures Local(g, n, Sources(w, r)[n]) && ((r, n) in w.links ==> n in w.nodes[r].heard)
    {
      var m := SourceHeld(g, c, k, j, r, n);
      CourseLocal(g, c, k, m);
      assert Local(g, n, TablesOf(c.worlds[m])[n]);
    }
    ColumnsAreRound(w, r);
  }

  /** Two histories that end with the same routers and links: after k phases in each, whatever happened before and
      however the advertisements were interleaved, the tables hold the same costs up to k. */
  lemma {:induction false} PhasesAgree(g: Topology, c: Course, c': Course, k: nat, j: nat, j': nat)
    requires c.Ok(g) && c'.Ok(g) && c.Reaches(k, j) && c'.Reaches(k, j')
    requires k < COST_INFINITY
    ensures NetsAgree(g, TablesOf(c.worlds[j]), TablesOf(c'.worlds[j']), k)
    decreases k, 1
  {
    if k == 0 {
      StartAgrees(g, c, c', j, j');
    } else {
      RoutersAgree(g, c, c', k, j, j');
    }
  }

  lemma StartAgrees(g: Topology, c: Course, c': Course, j: nat, j': nat)
    requires c.Ok(g) && c'.Ok(g) && c.Reaches(0, j) && c'.Reaches(0, j')
    ensures NetsAgree(g, TablesOf(c.worlds[j]), TablesOf(c'.worlds[j']), 0)
  {
    CourseLocal(g, c, 0, j);
    CourseLocal(g, c', 0, j');
    LocalNetsAgree(g, TablesOf(c.worlds[j]), TablesOf(c'.worlds[j']));
  }

  lemma {:induction false} RoutersAgree(g: Topology, c: Course, c': Course, k: nat, j: nat, j': nat)
    requires c.Ok(g) && c'.Ok(g) && c.Reaches(k, j) && c'.Reaches(k, j') && 0 < k < COST_INFINITY
    ensures NetsAgree(g, TablesOf(c.worlds[j]), TablesOf(c'.worlds[j']), k)
    decreases k, 0
  {
    var s, s' := TablesOf(c.worlds[j]), TablesOf(c'.worlds[j']);
    CourseLocal(g, c, k, j);
    CourseLocal(g, c', k, j');
    forall r | r in g.routers
      ensures TablesAgree(s[r], s'[r], k)
    {
      RouterAgrees(g, c, c', k - 1, j, j', r);
    }
  }

  lemma {:induction false} RouterAgrees(g: Topology, c: Course, c': Course, k: nat, j: nat, j': nat, r: Name)
    requires c.Ok(g) && c'.Ok(g) && c.Reaches(k + 1, j) && c'.Reaches(k + 1, j') && k + 1 < COST_INFINITY
    requires r in c.worlds[j].nodes && r in c'.worlds[j'].nodes && r in g.routers
    ensures TablesAgree(c.worlds[j].nodes[r].table, c'.worlds[j'].nodes[r].table, k + 1)
    decreases k, 3
  {
    var t, t' := c.worlds[j].nodes[r].table, c'.worlds[j'].nodes[r].table;
    SourcesAgree(g, c, c', k, j, j', r);
    SourcesLocal(g, c, k, j, r);
    SourcesLocal(g, c', k, j', r);
    RoundAgreesAt(g, Sources(c.worlds[j], r), Sources(c'.worlds[j'], r), k, r, t, t');
  }

  lemma {:induction false} SourcesAgree(g: Topology, c: Course, c': Course, k: nat, j: nat, j': nat, r: Name)
    requires c.Ok(g) && c'.Ok(g) && c.Reaches(k + 1, j) && c'.Reaches(k + 1, j')
    requires k < COST_INFINITY && r in c.worlds[j].nodes && r in c'.worlds[j'].nodes
    ensures NetsAgree(g, Sources(c.worlds[j], r), Sources(c'.worlds[j'], r), k)
    decreases k, 2
  {
    var s, s' := Sources(c.worlds[j], r), Sources(c'.worlds[j'], r);
    CourseLocal(g, c, k + 1, j);
    CourseLocal(g, c', k + 1, j');
    SourcesLocal(g, c, k, j, r);
    SourcesLocal(g, c', k, j', r);
    forall n | n in g.routers
      ensures TablesAgree(s[n], s'[n], k)
    {
      var m := SourceHeld(g, c, k, j, r, n);
      var m' := SourceHeld(g, c', k, j', r, n);
      PhasesAgree(g, c, c', k, m, m');
      assert TablesAgree(TablesOf(c.worlds[m])[n], TablesOf(c'.worlds[m'])[n], k);
    }
  }

  /** Convergence to one state: after fifteen phases the tables are the same in every history that ends with the same
      routers and links. */
  lemma PhasesConverge(g: Topology, c: Course, c': Course, j: nat, j': nat)
    requires c.Ok(g) && c'.Ok(g)
    requires c.Reaches(COST_INFINITY - 1, j) && c'.Reaches(COST_INFINITY - 1, j')
    ensures TablesOf(c.worlds[j]) == TablesOf(c'.worlds[j'])
  {
    PhasesAgree(g, c, c', COST_INFINITY - 1, j, j');
    AgreeingNetsAreEqual(g, TablesOf(c.worlds[j]), TablesOf(c'.worlds[j']));
  }

  /** From then on no advertisement that arrives changes a table, so no router has anything new to advertise. */
  lemma PhasesStop(g: Topology, c: Course, j: nat, r: Name, n: Name, i: nat)
    requires c.Ok(g) && c.Reaches(COST_INFINITY - 1, j) && j < |c.events| && c.events[j] == Arrive(r, n, i)
    ensures CanHappen(c.worlds[j], c.events[j])
    ensures Hear(r, c.worlds[j].nodes[r].table, n, c.worlds[j].nodes[n].sent[i]) == c.worlds[j].nodes[r].table
  {
    assert StepAt(c.worlds, c.events, j);
    PhasesConverge(g, c, c, j, j + 1);
    assert TablesOf(c.worlds[j])[r] == TablesOf(c.worlds[j + 1])[r];
  }

  /** One phase more and the state is at rest. */
  lemma PhasesRest(g: Topology, c: Course, j: nat)
    requires c.Ok(g) && c.Reaches(COST_INFINITY, j)
    ensures AtRest(c.worlds[j])
  {
    var w := c.worlds[j];
    CourseLocal(g, c, COST_INFINITY, j);
    forall r, n | (r, n) in w.links && r in w.nodes && n in w.nodes
      ensures Hear(r, w.nodes[r].table, n, w.nodes[n].table) == w.nodes[r].table
    {
      SourcesLocal(g, c, COST_INFINITY - 1, j, r);
      SourcesCurrent(g, c, j, r);
      assert Local(g, r, TablesOf(w)[r]);
      ReceiveSame(g, TablesOf(w), r, n);
    }
  }

  lemma SourcesCurrent(g: Topology, c: Course, j: nat, r: Name)
    requires c.Ok(g) && c.Reaches(COST_INFINITY, j) && r in c.worlds[j].nodes
    ensures Sources(c.worlds[j], r) == TablesOf(c.worlds[j])
  {
    assert PhaseAt(c.worlds, c.marks, COST_INFINITY - 1);
    forall n | n in c.worlds[j].nodes
      ensures Sources(c.worlds[j], r)[n] == TablesOf(c.worlds[j])[n]
    {
      var m := SourceHeld(g, c, COST_INFINITY - 1, j, r, n);
      PhasesConverge(g, c, c, m, j);
      assert TablesOf(c.worlds[m])[n] == TablesOf(c.worlds[j])[n];
    }
  }

  // ------------------------------------------------------ routers as programs

  /** The entries may be listed in any order. */
  lemma ListedIsHeard(self: Name, t: Table, n: Name, list: seq<AdvEntry>, tn: Table)
    requires Lists(list, AdvertOf(tn))
    ensures Receive(t, n, Column(self, list)) == Hear(self, t, n, tn)
  {
    ColumnIgnoresOrder(self, list, AdvertOf(tn));
  }

  /** What a router with a clean table advertises. */
  method MakeAdvert(sender: DvRib.Router) returns (advert: seq<AdvEntry>)
    requires sender.Clean()
    ensures Lists(advert, AdvertOf(sender.Table()))
  {
    advert := sender.rib.Advert();
    DvRib.SettledAdvert(sender.rib.Vals());
  }

  /** What handling that advertisement does to the table of the receiver, whatever the sender's table is by then. The
      receiver advertises in its turn exactly if the two best hops of some destination changed, hence not if the
      advertisement tells it nothing new. */
  method HandleAdvert(receiver: DvRib.Router, n: Name, advert: seq<AdvEntry>, ghost tn: Table) returns (dirty: bool)
    requires receiver.Clean() && Lists(advert, AdvertOf(tn))
    modifies receiver.rib, receiver.rib.entries.Values
    ensures receiver.Clean() && receiver.Table() == Hear(receiver.name, old(receiver.Table()), n, tn)
    ensures dirty <==> BestHops(old(receiver.Table())) != BestHops(receiver.Table())
    ensures Hear(receiver.name, old(receiver.Table()), n, tn) == old(receiver.Table()) ==> !dirty
  {
    ListedIsHeard(receiver.name, receiver.Table(), n, advert, tn);
    dirty := receiver.UpdateRib(n, advert);
  }
}
