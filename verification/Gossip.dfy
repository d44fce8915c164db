/**
 Gossip between peers: every node keeps a list of peers and issues one connect request for each
 entry it learns; a connection exchanges the two lists and tells the peers already connected;
 a peer that receives a list learns its new entries. A handshake with its broadcasts is one
 step, as is the delivery of one broadcast list.
 */
module Gossip {

  datatype PeerInfo = PeerInfo(ip: nat, port: nat, host: string)

  /** An entry of one node's peer list, or one end of a connection. */
  datatype Link = Link(at: PeerInfo, peer: PeerInfo)

  datatype Message = Message(to: PeerInfo, peers: set<PeerInfo>)

  /** All peer lists, the connect requests not yet carried out, the connections, the lists in
      flight, and every connect request ever issued. */
  datatype State = State(knows: set<Link>, pending: multiset<Link>, conns: set<Link>,
                         inFlight: multiset<Message>, issued: multiset<Link>)

  datatype Action = Connect(client: PeerInfo, server: PeerInfo) | Deliver(message: Message)

  function PeersOf(links: set<Link>, node: PeerInfo): set<PeerInfo> {
    set l | l in links && l.at == node :: l.peer
  }

  // ----- one node: learning a received list

  /** The received entries that a node with this list and address learns. */
  function Unknown(list: set<PeerInfo>, ip: nat, received: set<PeerInfo>): set<PeerInfo> {
    set p | p in received && p.ip != ip && p !in list
  }

  class PeerNode {
    const local: PeerInfo
    var peerList: set<PeerInfo>
    /** Everything sent to the loop that opens connections. */
    var sent: seq<PeerInfo>
    /** The peers written to the configuration file. */
    var configured: set<PeerInfo>

    constructor (local: PeerInfo, peers: set<PeerInfo>)
      ensures this.local == local && peerList == configured == peers && sent == []
    {
      this.local, peerList, configured, sent := local, peers, peers, [];
    }

    method UpdateToNewPeerList(received: set<PeerInfo>)
      modifies this
      ensures forall p :: p in peerList <==> p in old(peerList) || (p in received && p.ip != local.ip)
      ensures var learned := peerList - old(peerList);
              && old(sent) <= sent && multiset(sent[|old(sent)|..]) == multiset(learned)
              && configured == if learned == {} then old(configured) else peerList
    {
      var isChange := false;
      var rest := received;
      ghost var (list, before) := (peerList, sent);
      ghost var learned: set<PeerInfo> := {};
      ghost var queue: seq<PeerInfo> := [];
      assert received - rest == {};
      while rest != {}
        invariant Learned(list, local.ip, received, rest, learned, queue)
        invariant peerList == list + learned && sent == before + queue
        invariant isChange <==> learned != {}
        invariant configured == old(configured)
      {
        var peer :| peer in rest;
        LearnOneMore(list, local.ip, received, rest, learned, queue, peer);
        Regroup(list, learned, before, queue, peer);
        rest := rest - {peer};
        if local.ip != peer.ip && peer !in peerList {
          isChange := true;
          peerList := peerList + {peer};
          sent := sent + [peer];
          learned, queue := learned + {peer}, queue + [peer];
        }
      }
      assert received - rest == received;
      assert sent[|before|..] == queue;
      assert peerList - list == learned;
      if isChange {
        configured := peerList;
      }
    }
  }

  lemma Regroup(list: set<PeerInfo>, learned: set<PeerInfo>, before: seq<PeerInfo>, queue: seq<PeerInfo>,
                peer: PeerInfo)
    ensures list + learned + {peer} == list + (learned + {peer}) && learned + {peer} != {}
    ensures before + queue + [peer] == before + (queue + [peer])
  {
  }

  ghost predicate Learned(list: set<PeerInfo>, ip: nat, received: set<PeerInfo>, rest: set<PeerInfo>,
                          learned: set<PeerInfo>, queue: seq<PeerInfo>)
  {
    rest <= received && learned == Unknown(list, ip, received - rest) && multiset(queue) == multiset(learned)
  }

  lemma LearnOneMore(list: set<PeerInfo>, ip: nat, received: set<PeerInfo>, rest: set<PeerInfo>,
                     learned: set<PeerInfo>, queue: seq<PeerInfo>, peer: PeerInfo)
    requires Learned(list, ip, received, rest, learned, queue) && peer in rest
    ensures if ip != peer.ip && peer !in list + learned
            then Learned(list, ip, received, rest - {peer}, learned + {peer}, queue + [peer])
            else Learned(list, ip, received, rest - {peer}, learned, queue)
  {
    assert received - (rest - {peer}) == (received - rest) + {peer};
    if ip != peer.ip && peer !in list + learned {
      assert Unknown(list, ip, received - (rest - {peer})) == learned + {peer};
      assert multiset(learned + {peer}) == multiset(learned) + multiset{peer};
    } else {
      assert Unknown(list, ip, received - (rest - {peer})) == learned;
    }
  }

  // ----- the network

  /** `update_to_new_peer_list` at one node: each entry it learns becomes a connect request. */
  function Learn(s: State, node: PeerInfo, received: set<PeerInfo>): State {
    var learned := set p | p in Unknown(PeersOf(s.knows, node), node.ip, received) :: Link(node, p);
    s.(knows := s.knows + learned, pending := s.pending + multiset(learned), issued := s.issued + multiset(learned))
  }

  /** Sends a node's list to every peer it is connected to. */
  function Broadcast(s: State, node: PeerInfo): State {
    var list := PeersOf(s.knows, node);
    s.(inFlight := s.inFlight + multiset(set p | p in PeersOf(s.conns, node) :: Message(p, list)))
  }

  /** Connections are kept by host name. */
  predicate HasConnection(s: State, node: PeerInfo, host: string) {
    exists l :: l in s.conns && l.at == node && l.peer.host == host
  }

  /** The server answers with its list as it was before it learns the client's. */
  function Handshake(s: State, client: PeerInfo, server: PeerInfo): State {
    var offered := PeersOf(s.knows, client) + {client};
    var reply := PeersOf(s.knows, server);
    var learned := Learn(Learn(s, client, reply), server, offered);
    var told := Broadcast(Broadcast(learned, client), server);
    told.(conns := told.conns + {Link(client, server), Link(server, client)})
  }

  predicate Enabled(s: State, a: Action) {
    match a
    case Connect(client, server) => Link(client, server) in s.pending
    case Deliver(message) => message in s.inFlight
  }

  function Step(s: State, a: Action): State
    requires Enabled(s, a)
  {
    match a
    case Connect(client, server) =>
      var taken := s.(pending := s.pending - multiset{Link(client, server)});
      if HasConnection(s, client, server.host) || HasConnection(s, server, client.host) then taken
      else Handshake(taken, client, server)
    case Deliver(message) =>
      Learn(s.(inFlight := s.inFlight - multiset{message}), message.to, message.peers)
  }

  /** Nodes are told apart by address and by host name. */
  ghost predicate Network(nodes: set<PeerInfo>) {
    forall a, b :: a in nodes && b in nodes && a != b ==> a.ip != b.ip && a.host != b.host
  }

  /** Configured lists name other nodes of the network; each entry is a connect request. */
  ghost predicate Configured(nodes: set<PeerInfo>, lists: set<Link>) {
    Network(nodes) && forall l :: l in lists ==> l.at in nodes && l.peer in nodes && l.at != l.peer
  }

  function Start(lists: set<Link>): State {
    State(lists, multiset(lists), {}, multiset{}, multiset(lists))
  }

  ghost predicate Runs(s: State, actions: seq<Action>)
    decreases |actions|
  {
    actions != [] ==> Enabled(s, actions[0]) && Runs(Step(s, actions[0]), actions[1..])
  }

  function Run(s: State, actions: seq<Action>): State
    requires Runs(s, actions)
    decreases |actions|
  {
    if actions == [] then s else Run(Step(s, actions[0]), actions[1..])
  }

  // ----- what every step keeps

  /** Lists hold other nodes only, never the own address; every entry ever learned yields
      exactly one connect request; connections are mutual and between known peers. */
  ghost predicate Typed(nodes: set<PeerInfo>, s: State) {
    && (forall l :: l in s.knows ==> l.at in nodes && l.peer in nodes && l.peer.ip != l.at.ip)
    && s.issued == multiset(s.knows)
    && s.pending <= s.issued
    && s.conns <= s.knows
    && (forall l :: l in s.conns ==> Link(l.peer, l.at) in s.conns)
    && (forall m :: m in s.inFlight ==> m.to in nodes && m.peers <= nodes)
  }

  /** Every entry still has its connect request, or is connected. */
  ghost predicate Served(s: State) {
    forall l :: l in s.knows ==> l in s.pending || l in s.conns
  }

  /** What a node knows, a connected peer knows too, or is about to be told: by a list in
      flight, or once the node connects to the entry. */
  ghost predicate Spread(s: State) {
    forall c, p :: c in s.conns && Link(c.at, p) in s.knows && p != c.peer ==>
                     Told(s, c.at, c.peer, p)
  }

  ghost predicate Told(s: State, node: PeerInfo, other: PeerInfo, p: PeerInfo) {
    || Link(other, p) in s.knows
    || Link(node, p) !in s.conns
    || exists m :: m in s.inFlight && m.to == other && p in m.peers
  }

  ghost predicate Valid(nodes: set<PeerInfo>, s: State) {
    Network(nodes) && Typed(nodes, s) && Served(s) && Spread(s)
  }

  lemma StartValid(nodes: set<PeerInfo>, lists: set<Link>)
    requires Configured(nodes, lists)
    ensures Valid(nodes, Start(lists))
  {
  }

  /** What a node knows after learning. */
  lemma LearnKnows(s: State, node: PeerInfo, received: set<PeerInfo>, l: Link)
    ensures l in Learn(s, node, received).knows <==>
              l in s.knows || (l.at == node && l.peer in received && l.peer.ip != node.ip)
  {
    var learned := Unknown(PeersOf(s.knows, node), node.ip, received);
    if l.at == node && l.peer in received && l.peer.ip != node.ip && l !in s.knows {
      assert l.peer in learned;
      assert Link(node, l.peer) == l;
    }
  }

  lemma LearnTyped(nodes: set<PeerInfo>, s: State, node: PeerInfo, received: set<PeerInfo>)
    requires Typed(nodes, s) && node in nodes && received <= nodes
    ensures Typed(nodes, Learn(s, node, received))
  {
    var learned := set p | p in Unknown(PeersOf(s.knows, node), node.ip, received) :: Link(node, p);
    assert learned !! s.knows by {
      forall l | l in learned
        ensures l !in s.knows
      {
        assert l in s.knows ==> l.peer in PeersOf(s.knows, node);
      }
    }
    assert multiset(s.knows + learned) == multiset(s.knows) + multiset(learned);
  }

  lemma LearnServed(s: State, node: PeerInfo, received: set<PeerInfo>)
    requires Served(s)
    ensures Served(Learn(s, node, received))
  {
  }

  lemma BroadcastTyped(nodes: set<PeerInfo>, s: State, node: PeerInfo)
    requires Typed(nodes, s)
    ensures Typed(nodes, Broadcast(s, node))
  {
  }

  lemma BroadcastSends(s: State, node: PeerInfo, m: Message)
    ensures m in Broadcast(s, node).inFlight <==>
              m in s.inFlight || (Link(node, m.to) in s.conns && m.peers == PeersOf(s.knows, node))
  {
    var list := PeersOf(s.knows, node);
    if Link(node, m.to) in s.conns && m.peers == list {
      assert m.to in PeersOf(s.conns, node);
      assert m == Message(m.to, list);
    }
  }

  lemma HandshakeKnows(s: State, client: PeerInfo, server: PeerInfo, l: Link)
    ensures l in Handshake(s, client, server).knows <==>
              || l in s.knows
              || (l.at == client && l.peer.ip != client.ip && Link(server, l.peer) in s.knows)
              || (l.at == server && l.peer.ip != server.ip && (Link(client, l.peer) in s.knows || l.peer == client))
  {
    var (offered, reply) := (PeersOf(s.knows, client) + {client}, PeersOf(s.knows, server));
    LearnKnows(s, client, reply, l);
    LearnKnows(Learn(s, client, reply), server, offered, l);
    PeersOfMember(s.knows, server, l.peer);
    PeersOfMember(s.knows, client, l.peer);
  }

  lemma PeersOfMember(links: set<Link>, node: PeerInfo, p: PeerInfo)
    ensures p in PeersOf(links, node) <==> Link(node, p) in links
  {
    if Link(node, p) in links {
      assert Link(node, p).peer in PeersOf(links, node);
    }
  }

  lemma ExchangeTyped(nodes: set<PeerInfo>, s: State, client: PeerInfo, server: PeerInfo)
    requires Network(nodes) && Typed(nodes, s) && client in nodes && server in nodes && client != server
    ensures var learned := Learn(Learn(s, client, PeersOf(s.knows, server)), server,
                                 PeersOf(s.knows, client) + {client});
            Typed(nodes, learned) && Link(server, client) in learned.knows && s.knows <= learned.knows
  {
    var (offered, reply) := (PeersOf(s.knows, client) + {client}, PeersOf(s.knows, server));
    var once := Learn(s, client, reply);
    LearnTyped(nodes, s, client, reply);
    LearnTyped(nodes, once, server, offered);
    LearnKnows(once, server, offered, Link(server, client));
  }

  lemma ConnectedTyped(nodes: set<PeerInfo>, s: State, a: PeerInfo, b: PeerInfo)
    requires Typed(nodes, s) && Link(a, b) in s.knows && Link(b, a) in s.knows
    ensures Typed(nodes, s.(conns := s.conns + {Link(a, b), Link(b, a)}))
  {
  }

  lemma HandshakeTyped(nodes: set<PeerInfo>, s: State, client: PeerInfo, server: PeerInfo)
    requires Network(nodes) && Typed(nodes, s) && client in nodes && server in nodes && client != server
    requires Link(client, server) in s.knows
    ensures Typed(nodes, Handshake(s, client, server))
  {
    ExchangeTyped(nodes, s, client, server);
    var learned := Learn(Learn(s, client, PeersOf(s.knows, server)), server, PeersOf(s.knows, client) + {client});
    var once := Broadcast(learned, client);
    BroadcastTyped(nodes, learned, client);
    BroadcastTyped(nodes, once, server);
    ConnectedTyped(nodes, Broadcast(once, server), client, server);
  }

  /** The handshake tells every peer connected before the whole list of the node. */
  lemma HandshakeTells(s: State, client: PeerInfo, server: PeerInfo, node: PeerInfo, other: PeerInfo, p: PeerInfo)
    requires node == client || node == server
    requires Link(node, other) in s.conns && Link(node, p) in Handshake(s, client, server).knows
    ensures exists m :: m in Handshake(s, client, server).inFlight && m.to == other && p in m.peers
  {
    var (offered, reply) := (PeersOf(s.knows, client) + {client}, PeersOf(s.knows, server));
    var learned := Learn(Learn(s, client, reply), server, offered);
    var once := Broadcast(learned, client);
    var m := Message(other, PeersOf(learned.knows, node));
    PeersOfMember(learned.knows, node, p);
    BroadcastSends(learned, client, m);
    BroadcastSends(once, server, m);
    assert m in Handshake(s, client, server).inFlight;
  }

  lemma HandshakeKeepsMessages(s: State, client: PeerInfo, server: PeerInfo, m: Message)
    requires m in s.inFlight
    ensures m in Handshake(s, client, server).inFlight
  {
  }

  /** Between two other nodes nothing changes. */
  lemma BystandersTold(s: State, client: PeerInfo, server: PeerInfo, a: PeerInfo, b: PeerInfo, p: PeerInfo)
    requires a != client && a != server && Told(s, a, b, p)
    ensures Told(Handshake(s, client, server), a, b, p)
  {
    var r := Handshake(s, client, server);
    HandshakeKnows(s, client, server, Link(b, p));
    if m :| m in s.inFlight && m.to == b && p in m.peers {
      HandshakeKeepsMessages(s, client, server, m);
    }
  }

  /** The two nodes of a handshake end up with the same list, apart from themselves. */
  lemma PartnersTold(nodes: set<PeerInfo>, s: State, client: PeerInfo, server: PeerInfo, c: Link, p: PeerInfo)
    requires Network(nodes) && Typed(nodes, s) && client in nodes && server in nodes && client != server
    requires c == Link(client, server) || c == Link(server, client)
    requires Link(c.at, p) in Handshake(s, client, server).knows && p != c.peer
    ensures Link(c.peer, p) in Handshake(s, client, server).knows
  {
    HandshakeKnows(s, client, server, Link(c.at, p));
    HandshakeKnows(s, client, server, Link(c.peer, p));
    assert p in nodes by {
      assert Link(client, p) in s.knows ==> Link(client, p).peer in nodes;
      assert Link(server, p) in s.knows ==> Link(server, p).peer in nodes;
    }
  }

  lemma HandshakeSpread(nodes: set<PeerInfo>, s: State, client: PeerInfo, server: PeerInfo)
    requires Network(nodes) && Typed(nodes, s) && client in nodes && server in nodes && client != server
    requires Spread(s)
    ensures Spread(Handshake(s, client, server))
  {
    var r := Handshake(s, client, server);
    forall c, p | c in r.conns && Link(c.at, p) in r.knows && p != c.peer
      ensures Told(r, c.at, c.peer, p)
    {
      if c !in s.conns {
        HandshakeConnections(s, client, server, c);
        PartnersTold(nodes, s, client, server, c, p);
      } else if c.at == client || c.at == server {
        assert c == Link(c.at, c.peer);
        HandshakeTells(s, client, server, c.at, c.peer, p);
      } else {
        HandshakeKnows(s, client, server, Link(c.at, p));
        BystandersTold(s, client, server, c.at, c.peer, p);
      }
    }
  }

  lemma HandshakeConnections(s: State, client: PeerInfo, server: PeerInfo, c: Link)
    ensures c in Handshake(s, client, server).conns <==>
              c in s.conns || c == Link(client, server) || c == Link(server, client)
  {
  }

  lemma DeliverSpread(nodes: set<PeerInfo>, s: State, m: Message)
    requires Network(nodes) && Typed(nodes, s) && Spread(s) && m in s.inFlight
    ensures Spread(Step(s, Deliver(m)))
  {
    var taken := s.(inFlight := s.inFlight - multiset{m});
    var r := Learn(taken, m.to, m.peers);
    forall c, p | c in r.conns && Link(c.at, p) in r.knows && p != c.peer
      ensures Told(r, c.at, c.peer, p)
    {
      LearnKnows(taken, m.to, m.peers, Link(c.at, p));
      LearnKnows(taken, m.to, m.peers, Link(c.peer, p));
      if Link(c.at, p) in s.knows {
        assert Told(s, c.at, c.peer, p);
        if other :| other in s.inFlight && other.to == c.peer && p in other.peers {
          assert other == m || other in r.inFlight;
        }
      }
    }
  }

  /** A connection under the host name of another node is the connection to that node. */
  lemma HostNamesTell(nodes: set<PeerInfo>, s: State, a: PeerInfo, b: PeerInfo)
    requires Network(nodes) && Typed(nodes, s) && b in nodes
    ensures HasConnection(s, a, b.host) <==> Link(a, b) in s.conns
  {
    if l :| l in s.conns && l.at == a && l.peer.host == b.host {
      assert l.peer == b;
      assert l == Link(a, b);
    }
    if Link(a, b) in s.conns {
      assert Link(a, b).peer.host == b.host;
    }
  }

  lemma StepValid(nodes: set<PeerInfo>, s: State, a: Action)
    requires Valid(nodes, s) && Enabled(s, a)
    ensures Valid(nodes, Step(s, a))
  {
    match a
    case Connect(client, server) =>
      ConnectValid(nodes, s, client, server);
    case Deliver(m) =>
      var taken := s.(inFlight := s.inFlight - multiset{m});
      assert forall other :: other in taken.inFlight ==> other in s.inFlight;
      LearnTyped(nodes, taken, m.to, m.peers);
      LearnServed(taken, m.to, m.peers);
      DeliverSpread(nodes, s, m);
  }

  lemma ConnectValid(nodes: set<PeerInfo>, s: State, client: PeerInfo, server: PeerInfo)
    requires Valid(nodes, s) && Link(client, server) in s.pending
    ensures Valid(nodes, Step(s, Connect(client, server)))
  {
    var link := Link(client, server);
    var taken := s.(pending := s.pending - multiset{link});
    assert link in s.issued;
    assert taken.pending <= taken.issued;
    assert Typed(nodes, taken);
    HostNamesTell(nodes, s, client, server);
    HostNamesTell(nodes, s, server, client);
    TakenSpread(s, link);
    if link !in s.conns {
      HandshakeTyped(nodes, taken, client, server);
      HandshakeSpread(nodes, taken, client, server);
      HandshakeServed(s, client, server);
    }
  }

  lemma TakenSpread(s: State, link: Link)
    requires Spread(s)
    ensures Spread(s.(pending := s.pending - multiset{link}))
  {
    var taken := s.(pending := s.pending - multiset{link});
    forall c, p | c in taken.conns && Link(c.at, p) in taken.knows && p != c.peer
      ensures Told(taken, c.at, c.peer, p)
    {
      assert Told(s, c.at, c.peer, p);
    }
  }

  lemma HandshakeServed(s: State, client: PeerInfo, server: PeerInfo)
    requires Served(s)
    ensures Served(Handshake(s.(pending := s.pending - multiset{Link(client, server)}), client, server))
  {
    var taken := s.(pending := s.pending - multiset{Link(client, server)});
    var withLink := taken.(conns := taken.conns + {Link(client, server)});
    assert Served(withLink);
    var (offered, reply) := (PeersOf(s.knows, client) + {client}, PeersOf(s.knows, server));
    LearnServed(withLink, client, reply);
    LearnServed(Learn(withLink, client, reply), server, offered);
  }

  // ----- what each step does

  lemma LearnCounts(s: State, node: PeerInfo, received: set<PeerInfo>, l: Link)
    ensures var r := Learn(s, node, received);
            && r.pending[l] == s.pending[l] + (if l in r.knows && l !in s.knows then 1 else 0)
            && r.conns == s.conns && r.inFlight == s.inFlight && s.knows <= r.knows
  {
    var learned := set p | p in Unknown(PeersOf(s.knows, node), node.ip, received) :: Link(node, p);
    if l in learned {
      PeersOfMember(s.knows, node, l.peer);
    }
  }

  /** The node tells the peer of this message, connected before, its whole new list. */
  ghost predicate Tells(s: State, r: State, node: PeerInfo, m: Message) {
    Link(node, m.to) in s.conns && forall p :: p in m.peers <==> Link(node, p) in r.knows
  }

  lemma BroadcastCounts(s: State, node: PeerInfo, m: Message)
    ensures var r := Broadcast(s, node);
            && r.inFlight[m] == s.inFlight[m] + (if Tells(s, s, node, m) then 1 else 0)
            && r.knows == s.knows && r.conns == s.conns && r.pending == s.pending
  {
    var list := PeersOf(s.knows, node);
    var told := set p | p in PeersOf(s.conns, node) :: Message(p, list);
    forall p
      ensures p in list <==> Link(node, p) in s.knows
    {
      PeersOfMember(s.knows, node, p);
    }
    PeersOfMember(s.conns, node, m.to);
    if Tells(s, s, node, m) {
      assert m.peers == list;
      assert Message(m.to, list) in told;
    }
  }

  /** A request for a peer already connected is dropped, and nothing else changes. */
  lemma DuplicateIsDropped(nodes: set<PeerInfo>, s: State, client: PeerInfo, server: PeerInfo)
    requires Valid(nodes, s) && Link(client, server) in s.pending && Link(client, server) in s.conns
    ensures Step(s, Connect(client, server)) == s.(pending := s.pending - multiset{Link(client, server)})
  {
    HostNamesTell(nodes, s, client, server);
  }

  /** What a new connection between the two adds. */
  ghost predicate Exchanges(s: State, r: State, client: PeerInfo, server: PeerInfo, l: Link, m: Message) {
    && r.conns == s.conns + {Link(client, server), Link(server, client)}
    && (l in r.knows <==>
          || l in s.knows
          || (l.at == client && l.peer != client && Link(server, l.peer) in s.knows)
          || (l.at == server && l.peer != server && (l.peer == client || Link(client, l.peer) in s.knows)))
    && r.pending[l] + (if l == Link(client, server) then 1 else 0)
       == s.pending[l] + (if l in r.knows && l !in s.knows then 1 else 0)
    && r.inFlight[m] == s.inFlight[m] + (if Tells(s, r, client, m) then 1 else 0)
                        + (if Tells(s, r, server, m) then 1 else 0)
  }

  /** A request for a peer not yet connected connects the two both ways, gives each the other's
      list, issues one request for every new entry, and has each tell its whole new list to every
      peer connected before, once; nothing else changes. */
  lemma NewConnectionExchanges(nodes: set<PeerInfo>, s: State, client: PeerInfo, server: PeerInfo, l: Link, m: Message)
    requires Valid(nodes, s) && Link(client, server) in s.pending && Link(client, server) !in s.conns
    ensures Exchanges(s, Step(s, Connect(client, server)), client, server, l, m)
  {
    var taken := s.(pending := s.pending - multiset{Link(client, server)});
    HostNamesTell(nodes, s, client, server);
    HostNamesTell(nodes, s, server, client);
    assert Link(client, server) in s.issued;
    HandshakeExchanges(nodes, s, taken, client, server, l, m);
  }

  lemma HandshakeExchanges(nodes: set<PeerInfo>, s: State, taken: State, client: PeerInfo, server: PeerInfo, l: Link,
                           m: Message)
    requires Network(nodes) && Typed(nodes, s) && client in nodes && server in nodes && client != server
    requires Link(client, server) in s.pending
    requires taken == s.(pending := s.pending - multiset{Link(client, server)})
    ensures Exchanges(s, Handshake(taken, client, server), client, server, l, m)
  {
    var r := Handshake(taken, client, server);
    HandshakeKnows(taken, client, server, l);
    HandshakePending(taken, client, server, l);
    HandshakeMessages(taken, client, server, m);
    assert r.conns == s.conns + {Link(client, server), Link(server, client)};
    assert Tells(s, r, client, m) == Tells(taken, r, client, m) && Tells(s, r, server, m) == Tells(taken, r, server, m);
    KnownNode(nodes, s, client, l.peer);
    KnownNode(nodes, s, server, l.peer);
  }

  lemma KnownNode(nodes: set<PeerInfo>, s: State, node: PeerInfo, p: PeerInfo)
    requires Typed(nodes, s)
    ensures Link(node, p) in s.knows ==> p in nodes
  {
    assert Link(node, p) in s.knows ==> Link(node, p).peer in nodes;
  }

  lemma HandshakePending(s: State, client: PeerInfo, server: PeerInfo, l: Link)
    ensures var r := Handshake(s, client, server);
            r.pending[l] == s.pending[l] + if l in r.knows && l !in s.knows then 1 else 0
  {
    var once := Learn(s, client, PeersOf(s.knows, server));
    LearnCounts(s, client, PeersOf(s.knows, server), l);
    LearnCounts(once, server, PeersOf(s.knows, client) + {client}, l);
  }

  lemma HandshakeMessages(s: State, client: PeerInfo, server: PeerInfo, m: Message)
    ensures var r := Handshake(s, client, server);
            r.inFlight[m] == s.inFlight[m] + (if Tells(s, r, client, m) then 1 else 0)
                             + (if Tells(s, r, server, m) then 1 else 0)
  {
    var learned := Learn(Learn(s, client, PeersOf(s.knows, server)), server, PeersOf(s.knows, client) + {client});
    BroadcastTwice(learned, client, server, m);
    var r := Handshake(s, client, server);
    assert learned.conns == s.conns && learned.inFlight == s.inFlight && r.knows == learned.knows;
    SameTold(s, learned, r, client, m);
    SameTold(s, learned, r, server, m);
  }

  lemma SameTold(s: State, learned: State, r: State, node: PeerInfo, m: Message)
    requires learned.conns == s.conns && r.knows == learned.knows
    ensures Tells(learned, learned, node, m) <==> Tells(s, r, node, m)
  {
  }

  lemma BroadcastTwice(s: State, a: PeerInfo, b: PeerInfo, m: Message)
    ensures Broadcast(Broadcast(s, a), b).inFlight[m]
         == s.inFlight[m] + (if Tells(s, s, a, m) then 1 else 0) + (if Tells(s, s, b, m) then 1 else 0)
  {
    var once := Broadcast(s, a);
    BroadcastCounts(s, a, m);
    BroadcastCounts(once, b, m);
    SameTold(s, once, s, b, m);
  }

  /** A delivered list is taken out of flight and its unknown entries are learned, each with one
      connect request; nothing else changes. */
  lemma DeliveryTeaches(nodes: set<PeerInfo>, s: State, m: Message, l: Link)
    requires Valid(nodes, s) && m in s.inFlight
    ensures var r := Step(s, Deliver(m));
            && r.inFlight == s.inFlight - multiset{m} && r.conns == s.conns
            && (l in r.knows <==> l in s.knows || (l.at == m.to && l.peer in m.peers && l.peer != m.to))
            && r.pending[l] == s.pending[l] + (if l in r.knows && l !in s.knows then 1 else 0)
  {
    var taken := s.(inFlight := s.inFlight - multiset{m});
    LearnKnows(taken, m.to, m.peers, l);
    LearnCounts(taken, m.to, m.peers, l);
  }

  lemma {:induction false} RunValid(nodes: set<PeerInfo>, s: State, actions: seq<Action>)
    requires Valid(nodes, s) && Runs(s, actions)
    ensures Valid(nodes, Run(s, actions))
    decreases |actions|
  {
    if actions != [] {
      StepValid(nodes, s, actions[0]);
      RunValid(nodes, Step(s, actions[0]), actions[1..]);
    }
  }

  // ----- convergence

  /** No list in flight and no connect request waiting. */
  ghost predicate Quiescent(s: State) {
    s.pending == multiset{} && s.inFlight == multiset{}
  }

  lemma QuiescentConnects(s: State, l: Link)
    requires Served(s) && Quiescent(s) && l in s.knows
    ensures l in s.conns
  {
    assert l !in s.pending;
  }

  /** Connected peers hold the same list, apart from themselves. */
  lemma ConnectedPeersAgree(nodes: set<PeerInfo>, s: State, c: Link)
    requires Valid(nodes, s) && Quiescent(s) && c in s.conns
    ensures PeersOf(s.knows, c.at) + {c.at} == PeersOf(s.knows, c.peer) + {c.peer}
  {
    assert Link(c.peer, c.at) in s.conns && c == Link(c.at, c.peer);
    AgreeOneWay(s, c);
    AgreeOneWay(s, Link(c.peer, c.at));
    PeersOfMember(s.knows, c.at, c.peer);
    PeersOfMember(s.knows, c.peer, c.at);
  }

  lemma AgreeOneWay(s: State, c: Link)
    requires Served(s) && Spread(s) && Quiescent(s) && c in s.conns
    ensures PeersOf(s.knows, c.at) <= PeersOf(s.knows, c.peer) + {c.peer}
  {
    forall p | p in PeersOf(s.knows, c.at) && p != c.peer
      ensures p in PeersOf(s.knows, c.peer)
    {
      PeersOfMember(s.knows, c.at, p);
      assert Told(s, c.at, c.peer, p);
      QuiescentConnects(s, Link(c.at, p));
      PeersOfMember(s.knows, c.peer, p);
    }
  }

  /** A connected component is a clique. */
  lemma ConnectionIsTransitive(nodes: set<PeerInfo>, s: State, a: PeerInfo, b: PeerInfo, c: PeerInfo)
    requires Valid(nodes, s) && Quiescent(s) && Link(a, b) in s.conns && Link(b, c) in s.conns && a != c
    ensures Link(a, c) in s.conns
  {
    ConnectedPeersAgree(nodes, s, Link(a, b));
    PeersOfMember(s.knows, b, c);
    PeersOfMember(s.knows, a, c);
    QuiescentConnects(s, Link(a, c));
  }

  /** A set of nodes that no configured entry leaves or enters. */
  ghost predicate Closed(lists: set<Link>, group: set<PeerInfo>) {
    forall l :: l in lists ==> (l.at in group <==> l.peer in group)
  }

  /** In one component of the configured lists, read as undirected edges. */
  ghost predicate Joined(lists: set<Link>, a: PeerInfo, b: PeerInfo) {
    forall group {:trigger Closed(lists, group)} :: Closed(lists, group) && a in group ==> b in group
  }

  /** What is known, connected or in flight stays within a closed set. */
  ghost predicate Confined(s: State, group: set<PeerInfo>) {
    && Closed(s.knows, group)
    && forall m, p :: m in s.inFlight && p in m.peers ==> (m.to in group <==> p in group)
  }

  lemma LearnConfined(s: State, node: PeerInfo, received: set<PeerInfo>, group: set<PeerInfo>)
    requires Confined(s, group) && forall p :: p in received ==> (node in group <==> p in group)
    ensures Confined(Learn(s, node, received), group)
  {
    var r := Learn(s, node, received);
    forall l | l in r.knows
      ensures l.at in group <==> l.peer in group
    {
      LearnKnows(s, node, received, l);
    }
  }

  lemma BroadcastConfined(s: State, node: PeerInfo, group: set<PeerInfo>)
    requires Confined(s, group) && s.conns <= s.knows
    ensures Confined(Broadcast(s, node), group)
  {
    var r := Broadcast(s, node);
    forall m, p | m in r.inFlight && p in m.peers
      ensures m.to in group <==> p in group
    {
      BroadcastSends(s, node, m);
      if m !in s.inFlight {
        PeersOfMember(s.knows, node, p);
        assert Link(node, m.to).peer in group <==> node in group;
        assert Link(node, p).peer in group <==> node in group;
      }
    }
  }

  lemma HandshakeConfined(nodes: set<PeerInfo>, s: State, client: PeerInfo, server: PeerInfo, group: set<PeerInfo>)
    requires Network(nodes) && Typed(nodes, s) && client in nodes && server in nodes && client != server
    requires Confined(s, group) && (client in group <==> server in group)
    ensures Confined(Handshake(s, client, server), group)
  {
    var (offered, reply) := (PeersOf(s.knows, client) + {client}, PeersOf(s.knows, server));
    var once := Learn(s, client, reply);
    var learned := Learn(once, server, offered);
    ExchangeTyped(nodes, s, client, server);
    ListConfined(s, client, group);
    ListConfined(s, server, group);
    LearnConfined(s, client, reply, group);
    LearnConfined(once, server, offered, group);
    BroadcastConfined(learned, client, group);
    BroadcastConfined(Broadcast(learned, client), server, group);
  }

  lemma ListConfined(s: State, node: PeerInfo, group: set<PeerInfo>)
    requires Confined(s, group)
    ensures forall p :: p in PeersOf(s.knows, node) ==> (node in group <==> p in group)
  {
    forall p | p in PeersOf(s.knows, node)
      ensures node in group <==> p in group
    {
      PeersOfMember(s.knows, node, p);
      assert Link(node, p).peer in group <==> node in group;
    }
  }

  lemma ConnectConfined(nodes: set<PeerInfo>, s: State, client: PeerInfo, server: PeerInfo, group: set<PeerInfo>)
    requires Valid(nodes, s) && Confined(s, group) && Link(client, server) in s.pending
    ensures Confined(Step(s, Connect(client, server)), group)
  {
    var link := Link(client, server);
    var taken := s.(pending := s.pending - multiset{link});
    assert link in s.issued;
    assert link in s.knows && (link.at in group <==> link.peer in group);
    assert taken.pending <= taken.issued;
    assert Typed(nodes, taken);
    HandshakeConfined(nodes, taken, client, server, group);
  }

  lemma {:induction false} RunConfined(nodes: set<PeerInfo>, s: State, actions: seq<Action>, group: set<PeerInfo>)
    requires Valid(nodes, s) && Runs(s, actions) && Confined(s, group)
    ensures Confined(Run(s, actions), group)
    decreases |actions|
  {
    if actions != [] {
      var next := Step(s, actions[0]);
      match actions[0] {
        case Connect(client, server) => ConnectConfined(nodes, s, client, server, group);
        case Deliver(m) =>
          var taken := s.(inFlight := s.inFlight - multiset{m});
          assert forall other :: other in taken.inFlight ==> other in s.inFlight;
          LearnConfined(taken, m.to, m.peers, group);
      }
      StepValid(nodes, s, actions[0]);
      RunConfined(nodes, next, actions[1..], group);
    }
  }

  lemma {:induction false} ListsOnlyGrow(s: State, actions: seq<Action>)
    requires Runs(s, actions)
    ensures s.knows <= Run(s, actions).knows
    decreases |actions|
  {
    if actions != [] {
      ListsOnlyGrow(Step(s, actions[0]), actions[1..]);
    }
  }

  /** Every run that comes to rest connects exactly the nodes that the configured lists join,
      whatever the order of handshakes and deliveries. */
  lemma QuiescentNetworkIsJoined(nodes: set<PeerInfo>, lists: set<Link>, actions: seq<Action>, a: PeerInfo, b: PeerInfo)
    requires Configured(nodes, lists) && Runs(Start(lists), actions) && Quiescent(Run(Start(lists), actions)) && a != b
    ensures Link(a, b) in Run(Start(lists), actions).conns <==> Joined(lists, a, b)
  {
    var s := Run(Start(lists), actions);
    StartValid(nodes, lists);
    RunValid(nodes, Start(lists), actions);
    if Link(a, b) in s.conns {
      forall group {:trigger Closed(lists, group)} | Closed(lists, group) && a in group
        ensures b in group
      {
        RunConfined(nodes, Start(lists), actions, group);
        assert Link(a, b).peer in group;
      }
    }
    if Joined(lists, a, b) {
      ListsOnlyGrow(Start(lists), actions);
      CliqueIsClosed(nodes, s, lists, a);
      PeersOfMember(s.conns, a, b);
    }
  }

  lemma CliqueIsClosed(nodes: set<PeerInfo>, s: State, lists: set<Link>, a: PeerInfo)
    requires Valid(nodes, s) && Quiescent(s) && lists <= s.knows
    ensures Closed(lists, PeersOf(s.conns, a) + {a})
  {
    var clique := PeersOf(s.conns, a) + {a};
    forall l | l in lists
      ensures l.at in clique <==> l.peer in clique
    {
      QuiescentConnects(s, l);
      var back := Link(l.peer, l.at);
      assert back in s.conns && l == Link(l.at, l.peer);
      PeersOfMember(s.conns, a, l.at);
      PeersOfMember(s.conns, a, l.peer);
      if l.at in clique && l.at != a && l.peer != a {
        ConnectionIsTransitive(nodes, s, a, l.at, l.peer);
      }
      if l.peer in clique && l.peer != a && l.at != a {
        ConnectionIsTransitive(nodes, s, a, l.peer, l.at);
      }
    }
  }

  // ----- requests and termination

  function AllLinks(nodes: set<PeerInfo>): set<Link> {
    set a, b | a in nodes && b in nodes && a != b :: Link(a, b)
  }

  /** In every run a list never names its own node's address, and each entry of each list was
      requested exactly once, so the requests are bounded by the pairs of nodes. */
  lemma OneRequestPerEntry(nodes: set<PeerInfo>, lists: set<Link>, actions: seq<Action>)
    requires Configured(nodes, lists) && Runs(Start(lists), actions)
    ensures var s := Run(Start(lists), actions);
            && s.issued == multiset(s.knows) && s.pending <= s.issued
            && |s.issued| <= |AllLinks(nodes)|
            && forall l :: l in s.knows ==> l.peer in nodes && l.peer.ip != l.at.ip
  {
    var s := Run(Start(lists), actions);
    StartValid(nodes, lists);
    RunValid(nodes, Start(lists), actions);
    KnownAreLinks(nodes, s);
    SubsetSize(s.knows, AllLinks(nodes));
  }

  lemma KnownAreLinks(nodes: set<PeerInfo>, s: State)
    requires Typed(nodes, s)
    ensures s.knows <= AllLinks(nodes)
  {
    forall l | l in s.knows
      ensures l in AllLinks(nodes)
    {
      assert l == Link(l.at, l.peer);
    }
  }

  lemma {:induction false} SubsetSize<T>(a: set<T>, b: set<T>)
    requires a <= b
    ensures |a| <= |b|
  {
    if x :| x in a {
      SubsetSize(a - {x}, b - {x});
    }
  }

  lemma {:induction false} MessagesSize(to: set<PeerInfo>, list: set<PeerInfo>)
    ensures |set p | p in to :: Message(p, list)| <= |to|
  {
    if p :| p in to {
      MessagesSize(to - {p}, list);
      var (all, fewer) := (set q | q in to :: Message(q, list), set q | q in to - {p} :: Message(q, list));
      assert all == fewer + {Message(p, list)};
    }
  }

  /** Entries not yet learned and requests waiting. */
  ghost function Open(nodes: set<PeerInfo>, s: State): int {
    |AllLinks(nodes)| - |s.knows| + |s.pending|
  }

  /** A request carried out costs at most two broadcasts; a delivery costs nothing. */
  ghost predicate Progress(nodes: set<PeerInfo>, s: State, r: State) {
    || (Open(nodes, r) == Open(nodes, s) - 1 && |r.inFlight| <= |s.inFlight| + 2 * |nodes|)
    || (Open(nodes, r) == Open(nodes, s) && |r.inFlight| == |s.inFlight| - 1)
  }

  lemma LearnWork(s: State, node: PeerInfo, received: set<PeerInfo>)
    ensures var r := Learn(s, node, received);
            |r.pending| - |r.knows| == |s.pending| - |s.knows| && r.inFlight == s.inFlight && r.conns == s.conns
  {
    var learned := set p | p in Unknown(PeersOf(s.knows, node), node.ip, received) :: Link(node, p);
    forall l | l in learned
      ensures l !in s.knows
    {
      PeersOfMember(s.knows, node, l.peer);
    }
  }

  lemma BroadcastWork(nodes: set<PeerInfo>, s: State, node: PeerInfo)
    requires Typed(nodes, s)
    ensures var r := Broadcast(s, node);
            r.knows == s.knows && r.pending == s.pending && |r.inFlight| <= |s.inFlight| + |nodes|
  {
    var to := PeersOf(s.conns, node);
    MessagesSize(to, PeersOf(s.knows, node));
    SubsetSize(to, nodes);
  }

  lemma HandshakeWork(nodes: set<PeerInfo>, s: State, client: PeerInfo, server: PeerInfo)
    requires Network(nodes) && Typed(nodes, s) && client in nodes && server in nodes && client != server
    ensures var r := Handshake(s, client, server);
            |r.pending| - |r.knows| == |s.pending| - |s.knows| && |r.inFlight| <= |s.inFlight| + 2 * |nodes|
  {
    var (offered, reply) := (PeersOf(s.knows, client) + {client}, PeersOf(s.knows, server));
    var once := Learn(s, client, reply);
    var learned := Learn(once, server, offered);
    LearnWork(s, client, reply);
    LearnWork(once, server, offered);
    ExchangeTyped(nodes, s, client, server);
    BroadcastWork(nodes, learned, client);
    BroadcastTyped(nodes, learned, client);
    BroadcastWork(nodes, Broadcast(learned, client), server);
  }

  lemma StepProgresses(nodes: set<PeerInfo>, s: State, a: Action)
    requires Valid(nodes, s) && Enabled(s, a)
    ensures Progress(nodes, s, Step(s, a))
  {
    match a
    case Connect(client, server) =>
      var link := Link(client, server);
      var taken := s.(pending := s.pending - multiset{link});
      assert |taken.pending| == |s.pending| - 1;
      assert link in s.issued;
      assert taken.pending <= taken.issued;
      assert Typed(nodes, taken);
      HandshakeWork(nodes, taken, client, server);
    case Deliver(m) =>
      LearnWork(s.(inFlight := s.inFlight - multiset{m}), m.to, m.peers);
  }

  lemma OpenIsNatural(nodes: set<PeerInfo>, s: State)
    requires Typed(nodes, s)
    ensures Open(nodes, s) >= 0
  {
    KnownAreLinks(nodes, s);
    SubsetSize(s.knows, AllLinks(nodes));
  }

  function Times(k: nat, n: int): nat
    decreases n
  {
    if n <= 0 then 0 else k + Times(k, n - 1)
  }

  lemma {:induction false} TimesIsProduct(k: nat, n: nat)
    ensures Times(k, n) == k * n
    decreases n
  {
    if n > 0 {
      TimesIsProduct(k, n - 1);
      assert k * n == k * (n - 1) + k;
    }
  }

  /** The state behind the first step of a run, without how it came about. */
  lemma FirstStep(nodes: set<PeerInfo>, s: State, actions: seq<Action>) returns (r: State)
    requires Valid(nodes, s) && Runs(s, actions) && actions != []
    ensures Valid(nodes, r) && Runs(r, actions[1..])
    ensures Progress(nodes, s, r) && Open(nodes, r) >= 0
  {
    r := Step(s, actions[0]);
    StepValid(nodes, s, actions[0]);
    StepProgresses(nodes, s, actions[0]);
    OpenIsNatural(nodes, r);
  }

  lemma {:induction false} StepsWithinBudget(nodes: set<PeerInfo>, s: State, actions: seq<Action>)
    requires Valid(nodes, s) && Runs(s, actions)
    ensures |actions| <= Times(2 * |nodes| + 1, Open(nodes, s)) + |s.inFlight|
    decreases |actions|
  {
    if actions != [] {
      var r := FirstStep(nodes, s, actions);
      StepsWithinBudget(nodes, r, actions[1..]);
      OneStepDearer(2 * |nodes| + 1, Open(nodes, s), |s.inFlight|, Open(nodes, r), |r.inFlight|);
    }
  }

  lemma OneStepDearer(k: nat, open: int, inFlight: nat, open': int, inFlight': nat)
    requires open' >= 0 && k > 0
    requires (open' == open - 1 && inFlight' <= inFlight + k - 1) || (open' == open && inFlight' == inFlight - 1)
    ensures 1 + Times(k, open') + inFlight' <= Times(k, open) + inFlight
  {
  }

  /** Every run is finite: each open entry stands for one step and the lists it may send. */
  lemma RunsAreBounded(nodes: set<PeerInfo>, lists: set<Link>, actions: seq<Action>)
    requires Configured(nodes, lists) && Runs(Start(lists), actions)
    ensures |actions| <= (2 * |nodes| + 1) * |AllLinks(nodes)|
  {
    StartValid(nodes, lists);
    StepsWithinBudget(nodes, Start(lists), actions);
    OpenAtStart(nodes, lists);
    TimesIsProduct(2 * |nodes| + 1, |AllLinks(nodes)|);
  }

  lemma OpenAtStart(nodes: set<PeerInfo>, lists: set<Link>)
    ensures Open(nodes, Start(lists)) == |AllLinks(nodes)| && |Start(lists).inFlight| == 0
  {
  }

  /** So every run can be continued until the network is quiescent. */
  lemma {:induction false} ReachesQuiescence(nodes: set<PeerInfo>, s: State) returns (actions: seq<Action>)
    requires Valid(nodes, s)
    ensures Runs(s, actions) && Quiescent(Run(s, actions))
    decreases Open(nodes, s), |s.inFlight|
  {
    OpenIsNatural(nodes, s);
    if Quiescent(s) {
      actions := [];
    } else {
      var a := SomeAction(s);
      StepValid(nodes, s, a);
      StepProgresses(nodes, s, a);
      var more := ReachesQuiescence(nodes, Step(s, a));
      actions := [a] + more;
      assert actions[1..] == more;
    }
  }

  lemma SomeAction(s: State) returns (a: Action)
    requires !Quiescent(s)
    ensures Enabled(s, a)
  {
    if s.pending != multiset{} {
      var l :| l in s.pending;
      assert l == Link(l.at, l.peer);
      a := Connect(l.at, l.peer);
    } else {
      var m :| m in s.inFlight;
      a := Deliver(m);
    }
  }
}
