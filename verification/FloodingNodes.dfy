/** Gossipsub nodes with standing meshes, whose receipts enqueue what `broadcast` promises, flood. */
module FloodingNodes {
  import opened Common
  import opened GossipState
  import opened GossipSteps
  import opened GossipInvariants
  import opened GossipTopicOps
  import opened Flooding

  /** Ids behind a set of peer objects. */
  function Ids(s: Node, rs: set<PeerRef>): set<PeerId> {
    set r | r in rs && r in s.objects :: s.objects[r].id
  }

  /** Peer ids a node relays to in topic `h`: its mesh and its floodsub subscribers. */
  function Links(c: Config, s: Node, h: TopicHash): set<PeerId>
    requires h in s.topics
  {
    Ids(s, Targets(c, s.objects, s.topics[h], false, {}))
  }

  /** Peer ids a node publishes to, its own choice of extra peers included. */
  function PublishLinks(c: Config, s: Node, h: TopicHash, chosen: set<PeerRef>): set<PeerId>
    requires h in s.topics
  {
    Ids(s, Targets(c, s.objects, s.topics[h], true, chosen))
  }

  // ---- What a broadcast queues, by id ------------------------------------------

  function Known(from: Option<PeerId>): set<PeerId> { if from == None then {} else {from.value} }

  lemma WillingIds(s: Node, ts: set<PeerRef>, from: Option<PeerId>, author: PeerId, good: set<PeerRef>)
    requires ts <= good && ts <= s.objects.Keys
    ensures Ids(s, Willing(s.objects, from, Some(author), good, ts)) == Ids(s, ts) - Known(from) - {author}
  {
    var few := Willing(s.objects, from, Some(author), good, ts);
    forall id | id in Ids(s, ts) && id !in Known(from) && id != author ensures id in Ids(s, few) {
      var r :| r in ts && s.objects[r].id == id;
      assert r in few;
    }
  }

  /** Registered objects have different ids, so counting ids counts objects. */
  lemma {:induction false} IdsInjective(s: Node, rs: set<PeerRef>)
    requires forall r :: r in rs ==> Registered(s, r)
    ensures |Ids(s, rs)| == |rs|
  {
    if rs != {} {
      var r :| r in rs;
      IdsInjective(s, rs - {r});
      assert Ids(s, rs) == Ids(s, rs - {r}) + {s.objects[r].id};
      assert s.objects[r].id !in Ids(s, rs - {r});
    }
  }

  lemma TargetsRegistered(c: Config, s: Node, h: TopicHash, publish: bool, chosen: set<PeerRef>)
    requires Linked(s) && h in s.topics && chosen <= s.topics[h].peers
    ensures Targets(c, s.objects, s.topics[h], publish, chosen) <= s.topics[h].peers
    ensures forall r :: r in s.topics[h].peers ==> Registered(s, r)
  {
    assert TopicOk(s, h);
  }

  /**
   When scores do not stand in the way, what a broadcast queues is exactly one copy for each
   link except the sender and the author.
   */
  lemma RelayFollowsLinks(c: Config, s: Node, h: TopicHash, from: Option<PeerId>, author: PeerId,
                          good: set<PeerRef>, chosen: set<PeerRef>, queued: seq<PeerRef>)
    requires Linked(s) && h in s.topics && chosen <= s.topics[h].peers
    requires Targets(c, s.objects, s.topics[h], from == None, chosen) <= good
    requires Queues(c, s, h, from, Some(author), good, chosen, queued)
    ensures forall r :: r in queued ==> r in s.objects && Registered(s, r)
    ensures Ids(s, Elements(queued)) ==
            Ids(s, Targets(c, s.objects, s.topics[h], from == None, chosen)) - Known(from) - {author}
    ensures |Ids(s, Elements(queued))| == |queued|
  {
    var ts := Targets(c, s.objects, s.topics[h], from == None, chosen);
    TargetsRegistered(c, s, h, from == None, chosen);
    assert forall r :: r in queued ==> r in Elements(queued);
    assert forall r :: r in Elements(queued) ==> r in ts;
    hide Targets, Linked, Distinct, Elements;
    DistinctSize(queued);
    IdsInjective(s, Elements(queued));
    WillingIds(s, ts, from, author, good);
  }

  // ---- The network ----------------------------------------------------------------

  /** Nodes, the ids of those that have seen the message, and the copies on their way. */
  datatype Net = Net(
    nodes: map<PeerId, Node>,
    author: PeerId,
    seen: set<PeerId>,
    flight: multiset<Copy>,
    sent: nat,
    delivered: multiset<PeerId>)

  /** The answers a broadcast gets from scores and choice, and the peers it queues. */
  datatype Fan = Fan(good: set<PeerRef>, chosen: set<PeerRef>, queued: seq<PeerRef>)

  function CopiesTo(s: Node, v: PeerId, queued: seq<PeerRef>): multiset<Copy>
    requires forall r :: r in queued ==> r in s.objects
  {
    if queued == [] then multiset{}
    else
      var init, r := queued[..|queued| - 1], queued[|queued| - 1];
      CopiesTo(s, v, init) + multiset{Copy(v, s.objects[r].id)}
  }

  /** A node's broadcast, with scores above the threshold for everyone it considers. */
  ghost predicate Broadcasts(c: Config, s: Node, h: TopicHash, from: Option<PeerId>, author: PeerId, f: Fan)
    requires c.Usable() && h in s.topics
  {
    && Admissible(c, s, Broadcast(h, from == None, f.chosen))
    && Targets(c, s.objects, s.topics[h], from == None, f.chosen) <= f.good
    && Queues(c, s, h, from, Some(author), f.good, f.chosen, f.queued)
    && (forall r :: r in f.queued ==> r in s.objects)
  }

  ghost predicate Publishes(c: Config, h: TopicHash, nodes: map<PeerId, Node>, author: PeerId, f: Fan, net: Net)
    requires c.Usable()
  {
    && author in nodes && h in nodes[author].topics && Broadcasts(c, nodes[author], h, None, author, f)
    && net == Net(nodes[author := Apply(c, nodes[author], Broadcast(h, true, f.chosen))],
                  author, {author}, CopiesTo(nodes[author], author, f.queued), |f.queued|, multiset{})
  }

  /** Receipt of a copy: dropped if the id is known, else delivered and broadcast on. */
  ghost predicate Receives(c: Config, h: TopicHash, net: Net, m: Copy, f: Fan, net': Net)
    requires c.Usable()
  {
    && m in net.flight && m.dst in net.nodes && h in net.nodes[m.dst].topics
    && if m.dst in net.seen then net' == net.(flight := net.flight - multiset{m})
       else
         && f.chosen == {} && Broadcasts(c, net.nodes[m.dst], h, Some(m.src), net.author, f)
         && net' == Relayed(c, h, net, m, f)
  }

  ghost function Relayed(c: Config, h: TopicHash, net: Net, m: Copy, f: Fan): Net
    requires c.Usable() && m.dst in net.nodes && h in net.nodes[m.dst].topics
    requires f.chosen == {} && Broadcasts(c, net.nodes[m.dst], h, Some(m.src), net.author, f)
  {
    var s := net.nodes[m.dst];
    net.(
      nodes := net.nodes[m.dst := Apply(c, s, Broadcast(h, false, {}))],
      seen := net.seen + {m.dst},
      flight := net.flight - multiset{m} + CopiesTo(s, m.dst, f.queued),
      sent := net.sent + |f.queued|,
      delivered := net.delivered + multiset{m.dst})
  }

  ghost predicate IsNetRun(c: Config, h: TopicHash, nodes: map<PeerId, Node>, author: PeerId, first: Fan,
                           nets: seq<Net>, copies: seq<Copy>, fans: seq<Fan>)
    requires c.Usable()
  {
    && |nets| == |copies| + 1 == |fans| + 1 && Publishes(c, h, nodes, author, first, nets[0])
    && forall i :: 0 <= i < |copies| ==> Receives(c, h, nets[i], copies[i], fans[i], nets[i + 1])
  }

  /** Each node is in a reachable kind of state, has the topic, and knows only others of the network in it. */
  ghost predicate Standing(h: TopicHash, nodes: map<PeerId, Node>) {
    forall v :: v in nodes ==>
      && Linked(nodes[v]) && h in nodes[v].topics
      && Ids(nodes[v], nodes[v].topics[h].peers) <= nodes.Keys - {v}
  }

  // ---- A run of the network is a flood ------------------------------------------------

  lemma {:induction false} CopiesToIds(s: Node, v: PeerId, queued: seq<PeerRef>)
    requires Distinct(queued) && forall r :: r in queued ==> r in s.objects && Registered(s, r)
    ensures CopiesTo(s, v, queued) == Copies(v, Ids(s, Elements(queued)))
  {
    if queued == [] {
      assert Ids(s, Elements(queued)) == {};
    } else {
      var init, r := queued[..|queued| - 1], queued[|queued| - 1];
      CopiesToIds(s, v, init);
      var id := s.objects[r].id;
      assert queued == init + [r];
      assert r !in init;
      assert Elements(queued) == Elements(init) + {r};
      hide Elements, Distinct;
      assert Ids(s, Elements(queued)) == Ids(s, Elements(init)) + {id};
      assert id !in Ids(s, Elements(init));
      OneMoreCopy(v, Ids(s, Elements(init)), id);
    }
  }

  lemma OneMoreCopy(v: PeerId, ws: set<PeerId>, w: PeerId)
    requires w !in ws
    ensures Copies(v, ws + {w}) == Copies(v, ws) + multiset{Copy(v, w)}
  {
    assert (set x | x in ws + {w} :: Copy(v, x)) == (set x | x in ws :: Copy(v, x)) + {Copy(v, w)};
  }

  function GraphOf(c: Config, h: TopicHash, nodes: map<PeerId, Node>): Graph {
    map v | v in nodes && h in nodes[v].topics :: Links(c, nodes[v], h)
  }

  /** What a network shows of the message. */
  function View(net: Net): Flood { Flood(net.author, net.seen, net.flight, net.sent, net.delivered) }

  /** Relaying leaves a node's own structures as they were. */
  lemma RelayKeepsNode(c: Config, s: Node, h: TopicHash)
    requires c.Usable() && h in s.topics && Admissible(c, s, Broadcast(h, false, {}))
    ensures Apply(c, s, Broadcast(h, false, {})) == s
  {
    assert s.topics[h := s.topics[h]] == s.topics;
  }

  /** What a relaying node queues, as copies of the flood. */
  lemma RelaysFan(c: Config, s: Node, h: TopicHash, m: Copy, author: PeerId, f: Fan)
    requires c.Usable() && Linked(s) && h in s.topics && f.chosen == {} && Broadcasts(c, s, h, Some(m.src), author, f)
    ensures var ws := Links(c, s, h) - {m.src, author};
            CopiesTo(s, m.dst, f.queued) == Copies(m.dst, ws) && |f.queued| == |ws|
  {
    RelayFollowsLinks(c, s, h, Some(m.src), author, f.good, {}, f.queued);
    assert Distinct(f.queued);
    hide Linked, Targets, Ids, Broadcasts, Registered, Copies, CopiesTo, Distinct;
    CopiesToIds(s, m.dst, f.queued);
    assert Links(c, s, h) - {m.src} - {author} == Links(c, s, h) - {m.src, author};
  }

  /** A new message at a node. */
  lemma RelayedView(c: Config, h: TopicHash, net: Net, m: Copy, f: Fan)
    requires c.Usable() && m.dst in net.nodes && h in net.nodes[m.dst].topics && Linked(net.nodes[m.dst])
    requires f.chosen == {} && Broadcasts(c, net.nodes[m.dst], h, Some(m.src), net.author, f)
    ensures var net' := Relayed(c, h, net, m, f);
            var ws := Links(c, net.nodes[m.dst], h) - {m.src, net.author};
            && net'.nodes == net.nodes && net'.author == net.author
            && net'.seen == net.seen + {m.dst} && net'.flight == net.flight - multiset{m} + Copies(m.dst, ws)
            && net'.sent == net.sent + |ws| && net'.delivered == net.delivered + multiset{m.dst}
  {
    var s := net.nodes[m.dst];
    assert Admissible(c, s, Broadcast(h, false, {}));
    hide Linked, Targets, Ids, Copies, CopiesTo, Queues, Links, Broadcasts, Admissible, Apply;
    RelayKeepsNode(c, s, h);
    RelaysFan(c, s, h, m, net.author, f);
    assert net.nodes[m.dst := s] == net.nodes;
  }

  /** One receipt by a node is one receipt of the flood over the relay graph. */
  lemma HopIsReceipt(c: Config, h: TopicHash, net: Net, m: Copy, f: Fan, net': Net)
    requires c.Usable() && Standing(h, net.nodes) && Receives(c, h, net, m, f, net')
    ensures net'.nodes == net.nodes
    ensures View(net') == Receive(GraphOf(c, h, net.nodes), View(net), m)
  {
    hide Linked, Targets, Ids, Copies, CopiesTo, Queues, Links, Relayed, Broadcasts, Admissible, Apply;
    if m.dst !in net.seen {
      RelayedView(c, h, net, m, f);
      assert GraphOf(c, h, net.nodes)[m.dst] == Links(c, net.nodes[m.dst], h);
      hide Standing, GraphOf;
    }
  }

  /** Publishing reaches at least everyone the node would relay to, also with the mesh it then has. */
  lemma PublishCoversLinks(c: Config, s: Node, h: TopicHash, chosen: set<PeerRef>)
    requires c.Usable() && Linked(s) && Admissible(c, s, Broadcast(h, true, chosen))
    ensures var s' := Apply(c, s, Broadcast(h, true, chosen));
            && Linked(s') && h in s'.topics && s'.topics[h].peers == s.topics[h].peers && s'.objects == s.objects
            && Links(c, s', h) <= PublishLinks(c, s, h, chosen)
  {
    QuietKeeps(c, s, Broadcast(h, true, chosen));
    assert TopicOk(s, h);
    var s' := Apply(c, s, Broadcast(h, true, chosen));
    var few, many := Targets(c, s'.objects, s'.topics[h], false, {}), Targets(c, s.objects, s.topics[h], true, chosen);
    assert few <= many;
    hide Targets;
    assert Ids(s', few) <= Ids(s, many);
  }

  /** What an author that does not count itself among its peers publishes. */
  lemma AuthorsFan(c: Config, s: Node, h: TopicHash, author: PeerId, f: Fan)
    requires c.Usable() && Linked(s) && h in s.topics && Broadcasts(c, s, h, None, author, f)
    requires author !in Ids(s, s.topics[h].peers)
    ensures var fan := PublishLinks(c, s, h, f.chosen);
            && fan <= Ids(s, s.topics[h].peers)
            && CopiesTo(s, author, f.queued) == Copies(author, fan) && |f.queued| == |fan|
  {
    ChosenArePeers(c, s, h, author, f);
    hide Linked, Targets, Ids, Admissible, Copies, CopiesTo, Registered;
    RelayFollowsLinks(c, s, h, None, author, f.good, f.chosen, f.queued);
    assert Distinct(f.queued);
    hide Broadcasts, Distinct;
    TargetsRegistered(c, s, h, true, f.chosen);
    var fan := PublishLinks(c, s, h, f.chosen);
    SmallerIds(s, Targets(c, s.objects, s.topics[h], true, f.chosen), s.topics[h].peers);
    assert fan - {} - {author} == fan;
    CopiesToIds(s, author, f.queued);
  }

  lemma ChosenArePeers(c: Config, s: Node, h: TopicHash, author: PeerId, f: Fan)
    requires c.Usable() && h in s.topics && Broadcasts(c, s, h, None, author, f)
    ensures f.chosen <= s.topics[h].peers
  {
    hide Targets, Queues;
  }

  lemma PublicationIsPublish(c: Config, h: TopicHash, nodes: map<PeerId, Node>, author: PeerId, f: Fan, net: Net)
    requires c.Usable() && Standing(h, nodes) && Publishes(c, h, nodes, author, f, net)
    ensures Standing(h, net.nodes) && net.nodes.Keys == nodes.Keys
    ensures var fan := PublishLinks(c, nodes[author], h, f.chosen);
            View(net) == Publish(author, fan) && Starts(GraphOf(c, h, net.nodes), author, fan)
  {
    var s := nodes[author];
    var fan := PublishLinks(c, s, h, f.chosen);
    PublishedNet(c, h, nodes, author, f, net);
    assert Linked(s) && Ids(s, s.topics[h].peers) <= nodes.Keys - {author};
    hide Publishes, Standing, Linked, Links, PublishLinks, Ids, Apply, Admissible, Copies, CopiesTo, Broadcasts;
    AuthorsFan(c, s, h, author, f);
    PublishCoversLinks(c, s, h, f.chosen);
    StandsOn(c, h, nodes, author, net.nodes);
    assert GraphOf(c, h, net.nodes)[author] == Links(c, net.nodes[author], h) by { StandingAt(h, net.nodes, author); }
    GraphKeys(c, h, net.nodes);
    hide GraphOf;
  }

  lemma StandingAt(h: TopicHash, nodes: map<PeerId, Node>, v: PeerId)
    requires Standing(h, nodes) && v in nodes
    ensures Linked(nodes[v]) && h in nodes[v].topics
  {
    hide Linked;
  }

  lemma PublishedNet(c: Config, h: TopicHash, nodes: map<PeerId, Node>, author: PeerId, f: Fan, net: Net)
    requires c.Usable() && Publishes(c, h, nodes, author, f, net)
    ensures author in nodes && h in nodes[author].topics && Broadcasts(c, nodes[author], h, None, author, f)
    ensures var s := nodes[author];
            && Admissible(c, s, Broadcast(h, true, f.chosen))
            && net.nodes == nodes[author := Apply(c, s, Broadcast(h, true, f.chosen))]
            && View(net) == Flood(author, {author}, CopiesTo(s, author, f.queued), |f.queued|, multiset{})
  {
    hide Admissible, Apply, Queues, CopiesTo;
  }

  lemma SmallerIds(s: Node, a: set<PeerRef>, b: set<PeerRef>)
    requires a <= b
    ensures Ids(s, a) <= Ids(s, b)
  {
  }

  /** The network stands after one node has changed only its mesh, and its graph is well formed. */
  lemma StandsOn(c: Config, h: TopicHash, nodes: map<PeerId, Node>, author: PeerId, nodes': map<PeerId, Node>)
    requires Standing(h, nodes) && author in nodes && author in nodes' && nodes' == nodes[author := nodes'[author]]
    requires Linked(nodes'[author]) && h in nodes'[author].topics
    requires nodes'[author].topics[h].peers == nodes[author].topics[h].peers && nodes'[author].objects == nodes[author].objects
    ensures Standing(h, nodes') && nodes'.Keys == nodes.Keys && WellFormed(GraphOf(c, h, nodes'))
  {
    hide Linked;
    forall v | v in nodes' ensures Links(c, nodes'[v], h) <= nodes'.Keys - {v} {
      var s := nodes'[v];
      TargetsRegistered(c, s, h, false, {});
      SmallerIds(s, Targets(c, s.objects, s.topics[h], false, {}), s.topics[h].peers);
    }
  }

  lemma {:induction false} NodesStay(c: Config, h: TopicHash, nodes: map<PeerId, Node>, author: PeerId, first: Fan,
                                     nets: seq<Net>, copies: seq<Copy>, fans: seq<Fan>, i: nat)
    requires c.Usable() && Standing(h, nodes) && IsNetRun(c, h, nodes, author, first, nets, copies, fans) && i < |nets|
    ensures Standing(h, nets[0].nodes) && nets[i].nodes == nets[0].nodes
  {
    hide Standing, Receives, Publishes, Starts, GraphOf, PublishLinks;
    if i == 0 {
      PublicationIsPublish(c, h, nodes, author, first, nets[0]);
    } else {
      NodesStay(c, h, nodes, author, first, nets, copies, fans, i - 1);
      HopIsReceipt(c, h, nets[i - 1], copies[i - 1], fans[i - 1], nets[i]);
    }
  }

  /** Its receipts, one by one. */
  lemma FloodStep(c: Config, h: TopicHash, nodes: map<PeerId, Node>, author: PeerId, first: Fan,
                  nets: seq<Net>, copies: seq<Copy>, fans: seq<Fan>, i: nat)
    requires c.Usable() && Standing(h, nodes) && IsNetRun(c, h, nodes, author, first, nets, copies, fans) && i < |copies|
    ensures Standing(h, nets[0].nodes)
    ensures var g := GraphOf(c, h, nets[0].nodes);
            && copies[i] in nets[i].flight && copies[i].dst in g
            && View(nets[i + 1]) == Receive(g, View(nets[i]), copies[i])
  {
    NodesStay(c, h, nodes, author, first, nets, copies, fans, i);
    assert Receives(c, h, nets[i], copies[i], fans[i], nets[i + 1]);
    assert copies[i] in nets[i].flight && copies[i].dst in nets[i].nodes;
    hide Receives, Publishes, Links, IsNetRun;
    HopIsReceipt(c, h, nets[i], copies[i], fans[i], nets[i + 1]);
  }

  function Views(nets: seq<Net>): (fs: seq<Flood>)
    ensures |fs| == |nets| && forall i :: 0 <= i < |nets| ==> fs[i] == View(nets[i])
  {
    seq(|nets|, i requires 0 <= i < |nets| => View(nets[i]))
  }

  lemma FirstView(c: Config, h: TopicHash, nodes: map<PeerId, Node>, author: PeerId, first: Fan,
                  nets: seq<Net>, copies: seq<Copy>, fans: seq<Fan>)
    requires c.Usable() && Standing(h, nodes) && IsNetRun(c, h, nodes, author, first, nets, copies, fans)
    ensures |nets| == |copies| + 1 && author in nodes && h in nodes[author].topics
    ensures Standing(h, nets[0].nodes) && nets[0].nodes.Keys == nodes.Keys
    ensures var fan := PublishLinks(c, nodes[author], h, first.chosen);
            View(nets[0]) == Publish(author, fan) && Starts(GraphOf(c, h, nets[0].nodes), author, fan)
  {
    hide Broadcasts, Standing, Starts, Receives;
    PublicationIsPublish(c, h, nodes, author, first, nets[0]);
  }

  /** Every run of such a network is a flood of its relay graph. */
  lemma NetRunIsFlood(c: Config, h: TopicHash, nodes: map<PeerId, Node>, author: PeerId, first: Fan,
                      nets: seq<Net>, copies: seq<Copy>, fans: seq<Fan>)
    requires c.Usable() && Standing(h, nodes) && IsNetRun(c, h, nodes, author, first, nets, copies, fans)
    ensures author in nodes && h in nodes[author].topics
    ensures var fan := PublishLinks(c, nodes[author], h, first.chosen);
            IsFlood(GraphOf(c, h, nets[0].nodes), author, fan, Views(nets), copies)
  {
    FirstView(c, h, nodes, author, first, nets, copies, fans);
    hide *;
    var g, states := GraphOf(c, h, nets[0].nodes), Views(nets);
    forall i | 0 <= i < |copies|
      ensures copies[i] in states[i].flight && copies[i].dst in g && states[i + 1] == Receive(g, states[i], copies[i])
    {
      FloodStep(c, h, nodes, author, first, nets, copies, fans, i);
      SeenFlight(nets[i]);
    }
    AsFlood(g, author, PublishLinks(c, nodes[author], h, first.chosen), states, copies);
  }

  lemma SeenFlight(net: Net)
    ensures View(net).flight == net.flight && View(net).author == net.author
  {
  }

  lemma AsFlood(g: Graph, author: PeerId, fan: set<PeerId>, states: seq<Flood>, copies: seq<Copy>)
    requires |states| == |copies| + 1 && states[0] == Publish(author, fan)
    requires forall i :: 0 <= i < |copies| ==>
               copies[i] in states[i].flight && copies[i].dst in g && states[i + 1] == Receive(g, states[i], copies[i])
    ensures IsFlood(g, author, fan, states, copies)
  {
    hide Receive, Publish;
  }

  lemma GraphKeys(c: Config, h: TopicHash, nodes: map<PeerId, Node>)
    requires Standing(h, nodes)
    ensures GraphOf(c, h, nodes).Keys == nodes.Keys && |GraphOf(c, h, nodes)| == |nodes|
    ensures forall v :: v in nodes ==> h in nodes[v].topics && GraphOf(c, h, nodes)[v] == Links(c, nodes[v], h)
  {
    hide Linked, Links, Ids;
    var g := GraphOf(c, h, nodes);
    assert |g.Keys| == |g| && |nodes.Keys| == |nodes|;
  }

  /**
   Main result for nodes: every schedule of one message ends within n(n-1) receipts and copies
   and delivers it once at each other node it reaches; with nothing in flight, whoever the
   author publishes to has it, and with any node everyone that node relays to.
   */
  lemma NodesFlood(c: Config, h: TopicHash, nodes: map<PeerId, Node>, author: PeerId, first: Fan,
                   nets: seq<Net>, copies: seq<Copy>, fans: seq<Fan>)
    requires c.Usable() && Standing(h, nodes) && IsNetRun(c, h, nodes, author, first, nets, copies, fans)
    ensures var n, last := |nodes|, nets[|copies|];
            && |copies| <= last.sent <= n * (n - 1)
            && (forall v :: last.delivered[v] == if v in last.seen && v != author then 1 else 0)
            && author in nodes && h in nodes[author].topics && (forall v :: v in last.nodes ==> h in last.nodes[v].topics)
            && (last.flight == multiset{} ==>
                  && PublishLinks(c, nodes[author], h, first.chosen) <= last.seen
                  && forall v :: v in last.seen && v in last.nodes ==> Links(c, last.nodes[v], h) <= last.seen)
  {
    FirstView(c, h, nodes, author, first, nets, copies, fans);
    hide IsNetRun, Standing, Publishes, Links, PublishLinks, GraphOf, IsFlood, Starts;
    NetRunIsFlood(c, h, nodes, author, first, nets, copies, fans);
    NodesStay(c, h, nodes, author, first, nets, copies, fans, |copies|);
    GraphKeys(c, h, nets[0].nodes);
    assert |nets[0].nodes| == |nodes| by { assert |nets[0].nodes.Keys| == |nodes.Keys|; }
    var g, fan := GraphOf(c, h, nets[0].nodes), PublishLinks(c, nodes[author], h, first.chosen);
    FloodTerminates(g, author, fan, Views(nets), copies);
    if nets[|copies|].flight == multiset{} {
      FloodReach(g, author, fan, Views(nets), copies);
    }
  }

  // ---- No run stops early ----------------------------------------------------------------

  lemma {:induction false} Listed(s: set<PeerRef>) returns (q: seq<PeerRef>)
    ensures Distinct(q) && Elements(q) == s
    decreases |s|
  {
    q := [];
    if s != {} {
      var r :| r in s;
      var rest := Listed(s - {r});
      q := rest + [r];
      assert r !in Elements(rest);
      assert Elements(q) == Elements(rest) + {r};
    }
  }

  /** A node can always relay: the answers exist that its broadcast asks for. */
  lemma CanBroadcast(c: Config, s: Node, h: TopicHash, from: PeerId, author: PeerId) returns (f: Fan)
    requires c.Usable() && h in s.topics
    ensures f.chosen == {} && Broadcasts(c, s, h, Some(from), author, f)
  {
    var ts := Targets(c, s.objects, s.topics[h], false, {});
    var willing := Willing(s.objects, Some(from), Some(author), ts, ts);
    var q := Listed(willing);
    f := Fan(ts, {}, q);
    hide Targets, Candidates;
    forall r | r in q ensures r in s.objects {
      assert r in Elements(q);
    }
    hide Willing, Elements, Distinct;
  }

  /** Any copy in flight can be the next one received. */
  lemma CanReceive(c: Config, h: TopicHash, net: Net, m: Copy) returns (f: Fan, net': Net)
    requires c.Usable() && m in net.flight && m.dst in net.nodes && h in net.nodes[m.dst].topics
    ensures Receives(c, h, net, m, f, net')
  {
    hide Broadcasts, Relayed;
    f := CanBroadcast(c, net.nodes[m.dst], h, m.src, net.author);
    net' := if m.dst in net.seen then net.(flight := net.flight - multiset{m}) else Relayed(c, h, net, m, f);
  }

  /** A copy in flight is addressed to a node of the network. */
  lemma CopyHasNode(c: Config, h: TopicHash, nodes: map<PeerId, Node>, author: PeerId, first: Fan,
                    nets: seq<Net>, copies: seq<Copy>, fans: seq<Fan>, m: Copy)
    requires c.Usable() && Standing(h, nodes) && IsNetRun(c, h, nodes, author, first, nets, copies, fans)
    requires |nets| == |copies| + 1 && m in nets[|copies|].flight
    ensures m.dst in nets[|copies|].nodes && h in nets[|copies|].nodes[m.dst].topics
  {
    hide *;
    FloodState(c, h, nodes, author, first, nets, copies, fans);
    NodesStay(c, h, nodes, author, first, nets, copies, fans, |copies|);
    GraphKeys(c, h, nets[0].nodes);
    SpreadingInside(GraphOf(c, h, nets[0].nodes), nets[|copies|], PublishLinks(c, nodes[author], h, first.chosen));
  }

  /** The invariant of the flood, of a network. */
  lemma FloodState(c: Config, h: TopicHash, nodes: map<PeerId, Node>, author: PeerId, first: Fan,
                   nets: seq<Net>, copies: seq<Copy>, fans: seq<Fan>)
    requires c.Usable() && Standing(h, nodes) && IsNetRun(c, h, nodes, author, first, nets, copies, fans)
    ensures |nets| == |copies| + 1 && author in nodes && h in nodes[author].topics && Standing(h, nets[0].nodes)
    ensures nets[|copies|].author == author
    ensures Spreading(GraphOf(c, h, nets[0].nodes), View(nets[|copies|]), PublishLinks(c, nodes[author], h, first.chosen))
  {
    hide *;
    FirstView(c, h, nodes, author, first, nets, copies, fans);
    NetRunIsFlood(c, h, nodes, author, first, nets, copies, fans);
    ViewsLength(nets);
    FloodInvariant(GraphOf(c, h, nets[0].nodes), author, PublishLinks(c, nodes[author], h, first.chosen),
                   Views(nets), copies, |copies|);
    SeenFlight(nets[|copies|]);
  }

  lemma ViewsLength(nets: seq<Net>)
    ensures |Views(nets)| == |nets| && forall i :: 0 <= i < |nets| ==> Views(nets)[i] == View(nets[i])
  {
    hide View;
  }

  lemma OneLonger(c: Config, h: TopicHash, nodes: map<PeerId, Node>, author: PeerId, first: Fan,
                  nets: seq<Net>, copies: seq<Copy>, fans: seq<Fan>, m: Copy, f: Fan, net': Net)
    requires c.Usable() && IsNetRun(c, h, nodes, author, first, nets, copies, fans)
    ensures |nets| == |copies| + 1 == |fans| + 1
    ensures IsNetRun(c, h, nodes, author, first, nets + [net'], copies + [m], fans + [f]) <==>
            Receives(c, h, nets[|copies|], m, f, net')
  {
    hide Receives, Publishes;
    var nets', copies', fans' := nets + [net'], copies + [m], fans + [f];
    var n := |copies|;
    assert forall i :: 0 <= i <= n ==> nets'[i] == nets[i];
    assert forall i :: 0 <= i < n ==> copies'[i] == copies[i] && fans'[i] == fans[i];
    assert nets'[n + 1] == net' && copies'[n] == m && fans'[n] == f;
  }

  /** One more receipt. */
  ghost predicate Follows(c: Config, h: TopicHash, nodes: map<PeerId, Node>, author: PeerId, first: Fan,
                          nets: seq<Net>, copies: seq<Copy>, fans: seq<Fan>, m: Copy, f: Fan, net': Net)
    requires c.Usable()
  {
    IsNetRun(c, h, nodes, author, first, nets + [net'], copies + [m], fans + [f])
  }

  /** No receipt can follow. */
  ghost predicate Over(c: Config, h: TopicHash, nodes: map<PeerId, Node>, author: PeerId, first: Fan,
                       nets: seq<Net>, copies: seq<Copy>, fans: seq<Fan>)
    requires c.Usable()
  {
    forall m, f, net' :: !Follows(c, h, nodes, author, first, nets, copies, fans, m, f, net')
  }

  /** A run is over exactly when nothing is in flight; until then any copy can be received next. */
  lemma OverIff(c: Config, h: TopicHash, nodes: map<PeerId, Node>, author: PeerId, first: Fan,
                nets: seq<Net>, copies: seq<Copy>, fans: seq<Fan>)
    requires c.Usable() && Standing(h, nodes) && IsNetRun(c, h, nodes, author, first, nets, copies, fans)
    ensures |nets| == |copies| + 1
    ensures Over(c, h, nodes, author, first, nets, copies, fans) <==> nets[|copies|].flight == multiset{}
  {
    FirstView(c, h, nodes, author, first, nets, copies, fans);
    if nets[|copies|].flight != multiset{} {
      var m :| m in nets[|copies|].flight;
      var f, net' := GoesOn(c, h, nodes, author, first, nets, copies, fans, m);
      assert Follows(c, h, nodes, author, first, nets, copies, fans, m, f, net');
      hide IsNetRun;
    } else {
      hide Standing, IsNetRun, Publishes;
      forall m, f, net' ensures !Follows(c, h, nodes, author, first, nets, copies, fans, m, f, net') {
        OneLonger(c, h, nodes, author, first, nets, copies, fans, m, f, net');
        hide Broadcasts, Relayed;
      }
    }
  }

  lemma GoesOn(c: Config, h: TopicHash, nodes: map<PeerId, Node>, author: PeerId, first: Fan,
               nets: seq<Net>, copies: seq<Copy>, fans: seq<Fan>, m: Copy) returns (f: Fan, net': Net)
    requires c.Usable() && Standing(h, nodes) && IsNetRun(c, h, nodes, author, first, nets, copies, fans)
    requires |nets| == |copies| + 1 && m in nets[|copies|].flight
    ensures IsNetRun(c, h, nodes, author, first, nets + [net'], copies + [m], fans + [f])
  {
    hide *;
    CopyHasNode(c, h, nodes, author, first, nets, copies, fans, m);
    f, net' := CanReceive(c, h, nets[|copies|], m);
    OneLonger(c, h, nodes, author, first, nets, copies, fans, m, f, net');
  }

  /** Every run can be carried to an end. */
  lemma EveryRunEnds(c: Config, h: TopicHash, nodes: map<PeerId, Node>, author: PeerId, first: Fan,
                     nets: seq<Net>, copies: seq<Copy>, fans: seq<Fan>)
    returns (nets': seq<Net>, copies': seq<Copy>, fans': seq<Fan>)
    requires c.Usable() && Standing(h, nodes) && IsNetRun(c, h, nodes, author, first, nets, copies, fans)
    ensures nets <= nets' && copies <= copies' && fans <= fans'
    ensures IsNetRun(c, h, nodes, author, first, nets', copies', fans')
    ensures Over(c, h, nodes, author, first, nets', copies', fans')
    decreases |nodes| * (|nodes| - 1) - |copies|
  {
    hide *;
    FirstView(c, h, nodes, author, first, nets, copies, fans);
    NodesFlood(c, h, nodes, author, first, nets, copies, fans);
    nets', copies', fans' := nets, copies, fans;
    OverIff(c, h, nodes, author, first, nets, copies, fans);
    if nets[|copies|].flight != multiset{} {
      var m :| m in nets[|copies|].flight;
      var f, net' := GoesOn(c, h, nodes, author, first, nets, copies, fans, m);
      nets', copies', fans' := EveryRunEnds(c, h, nodes, author, first, nets + [net'], copies + [m], fans + [f]);
    }
  }

  /**
   Wherever a run ends, the message has come to everyone the author publishes to and, from
   every node it has reached, to everyone that node relays to.
   */
  lemma EndReaches(c: Config, h: TopicHash, nodes: map<PeerId, Node>, author: PeerId, first: Fan,
                   nets: seq<Net>, copies: seq<Copy>, fans: seq<Fan>)
    requires c.Usable() && Standing(h, nodes) && IsNetRun(c, h, nodes, author, first, nets, copies, fans)
    requires Over(c, h, nodes, author, first, nets, copies, fans)
    ensures var last := nets[|copies|];
            && author in last.seen && author in nodes && h in nodes[author].topics
            && PublishLinks(c, nodes[author], h, first.chosen) <= last.seen <= last.nodes.Keys
            && forall v :: v in last.seen ==> h in last.nodes[v].topics && Links(c, last.nodes[v], h) <= last.seen
  {
    hide *;
    OverIff(c, h, nodes, author, first, nets, copies, fans);
    NodesFlood(c, h, nodes, author, first, nets, copies, fans);
    SeenAreNodes(c, h, nodes, author, first, nets, copies, fans);
  }

  lemma SeenAreNodes(c: Config, h: TopicHash, nodes: map<PeerId, Node>, author: PeerId, first: Fan,
                     nets: seq<Net>, copies: seq<Copy>, fans: seq<Fan>)
    requires c.Usable() && Standing(h, nodes) && IsNetRun(c, h, nodes, author, first, nets, copies, fans)
    requires |nets| == |copies| + 1
    ensures author in nets[|copies|].seen && nets[|copies|].seen <= nets[|copies|].nodes.Keys
  {
    hide *;
    FloodState(c, h, nodes, author, first, nets, copies, fans);
    NodesStay(c, h, nodes, author, first, nets, copies, fans, |copies|);
    GraphKeys(c, h, nets[0].nodes);
    SpreadingInside(GraphOf(c, h, nets[0].nodes), nets[|copies|], PublishLinks(c, nodes[author], h, first.chosen));
  }

  lemma SpreadingInside(g: Graph, net: Net, fan: set<PeerId>)
    requires Spreading(g, View(net), fan)
    ensures net.author in net.seen && net.seen <= g.Keys && forall m :: m in net.flight ==> m.dst in g
  {
    hide Served, AllServed;
  }
}
