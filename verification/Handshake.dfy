/** The handshake of two honest endpoints over a network that may drop, repeat and reorder packets. A
    initiates, B answers. Diffie-Hellman is ideal and commutative; a box opens only with the key, direction
    and header it was sealed with. */
module Handshake {
  import opened Common
  import opened Messages

  // ---------- Keys and boxes ----------

  type PrivKey = nat

  datatype PubKey = Pub(of: PrivKey)

  datatype Secret = Shared(a: PrivKey, b: PrivKey)

  function DH(own: PrivKey, other: PubKey): Secret {
    if own <= other.of then Shared(own, other.of) else Shared(other.of, own)
  }

  lemma Commutes(x: PrivKey, y: PrivKey)
    ensures DH(x, Pub(y)) == DH(y, Pub(x))
  {
  }

  /** The plain part of a packet; the connection is named by the initiator's ephemeral key. */
  datatype Header = Header(t: MsgType, conn: PubKey, ep: Option<PubKey>, id: Option<PubKey>)

  datatype Box = Box(key: Secret, fromSender: bool, header: Header, payload: Bytes)

  datatype Packet = Packet(header: Header, box: Option<Box>)

  function OpenBox(key: Secret, isSender: bool, p: Packet): Option<Bytes> {
    if p.box.Some? && p.box.value.key == key && p.box.value.fromSender != isSender && p.box.value.header == p.header
    then Some(p.box.value.payload) else None
  }

  // ---------- One connection ----------

  datatype Conn = Conn(
    id: PrivKey,
    ep: PrivKey,
    name: PubKey,
    peerEp: Option<PubKey>,
    peerId: Option<PubKey>,
    secret: Option<Secret>,
    isSender: bool,
    withCrypto: bool,
    done: bool)

  function TypeOf(c: Conn): MsgType {
    if c.done then Data
    else if c.withCrypto && c.isSender then InitCryptoSnd
    else if c.withCrypto then InitCryptoRcv
    else if c.isSender then InitSnd
    else InitRcv
  }

  /** The packet a connection sends, or none where the source panics for want of a key. */
  function EncodeAs(c: Conn, payload: Bytes): Option<Packet> {
    match TypeOf(c)
    case InitSnd =>
      Some(Packet(Header(InitSnd, c.name, Some(Pub(c.ep)), Some(Pub(c.id))), None))
    case InitCryptoSnd =>
      var h := Header(InitCryptoSnd, c.name, Some(Pub(c.ep)), Some(Pub(c.id)));
      if c.peerId.None? then None else Some(Packet(h, Some(Box(DH(c.ep, c.peerId.value), true, h, payload))))
    case InitRcv =>
      var h := Header(InitRcv, c.name, Some(Pub(c.ep)), Some(Pub(c.id)));
      if c.peerEp.None? then None else Some(Packet(h, Some(Box(DH(c.ep, c.peerEp.value), false, h, payload))))
    case InitCryptoRcv =>
      var h := Header(InitCryptoRcv, c.name, Some(Pub(c.ep)), None);
      if c.peerEp.None? then None else Some(Packet(h, Some(Box(DH(c.ep, c.peerEp.value), false, h, payload))))
    case Data =>
      var h := Header(Data, c.name, None, None);
      if c.secret.None? then None else Some(Packet(h, Some(Box(c.secret.value, c.isSender, h, payload))))
  }

  datatype Endpoint = Endpoint(id: PrivKey, conns: map<PubKey, Conn>)

  function With(e: Endpoint, name: PubKey, c: Conn): Endpoint {
    e.(conns := e.conns[name := c])
  }

  /** Decoding a packet; `newKey` is the key generated should a connection be made. The result is the
      endpoint afterwards, and whether the packet was accepted. */
  function DecodeAt(e: Endpoint, p: Packet, newKey: PrivKey): (Endpoint, bool) {
    var name, known := p.header.conn, p.header.conn in e.conns;
    match p.header.t
    case InitSnd =>
      if p.header.ep.None? || p.header.id.None? then (e, false)
      else (With(e, name, Answer(e, p, newKey, false)), true)
    case InitCryptoSnd =>
      if p.header.ep.None? || p.header.id.None? || OpenBox(DH(e.id, p.header.ep.value), false, p).None? then (e, false)
      else (With(e, name, Answer(e, p, newKey, true)), true)
    case InitRcv =>
      if !known || p.header.ep.None? || p.header.id.None? then (e, false)
      else
        var secret := DH(e.conns[name].ep, p.header.ep.value);
        if OpenBox(secret, true, p).None? then (e, false)
        else (With(e, name, e.conns[name].(peerId := p.header.id, peerEp := p.header.ep, secret := Some(secret))), true)
    case InitCryptoRcv =>
      if !known || p.header.ep.None? then (e, false)
      else
        var secret := DH(e.conns[name].ep, p.header.ep.value);
        if OpenBox(secret, true, p).None? then (e, false)
        else (With(e, name, e.conns[name].(peerEp := p.header.ep, secret := Some(secret))), true)
    case Data =>
      if !known || e.conns[name].secret.None?
         || OpenBox(e.conns[name].secret.value, e.conns[name].isSender, p).None? then (e, false)
      else (e, true)
  }

  /** A connection that answers an initial packet: made with a new key, or kept with the key it has. The
      secret is computed anew in both cases. */
  function Answer(e: Endpoint, p: Packet, newKey: PrivKey, withCrypto: bool): Conn
    requires p.header.ep.Some?
  {
    var name := p.header.conn;
    var conn := if name in e.conns then e.conns[name]
                else Conn(e.id, newKey, name, p.header.ep, p.header.id, None, false, withCrypto, false);
    conn.(secret := Some(DH(conn.ep, p.header.ep.value)))
  }

  /** The handshake flag after an accepted packet whose payload was in order. */
  function Settle(c: Conn, t: MsgType): Conn {
    if c.done then c
    else if c.isSender && (t.InitRcv? || t.InitCryptoRcv?) then c.(done := true)
    else if !c.isSender && t.Data? then c.(done := true)
    else c
  }

  /** `Listen`: decode, then, unless the payload is malformed, settle the flag. */
  function Listen(e: Endpoint, p: Packet, newKey: PrivKey, payloadOk: bool): Endpoint {
    var (e', accepted) := DecodeAt(e, p, newKey);
    if accepted && payloadOk && p.header.conn in e'.conns
    then With(e', p.header.conn, Settle(e'.conns[p.header.conn], p.header.t)) else e'
  }

  // ---------- Two endpoints and a network ----------

  datatype World = World(a: Endpoint, b: Endpoint, toB: set<Packet>, toA: set<Packet>)

  /** A has dialled B, knowing B's identity when the flow starts with crypto. */
  function Start(aId: PrivKey, bId: PrivKey, ep: PrivKey, withCrypto: bool): World {
    var peer := if withCrypto then Some(Pub(bId)) else None;
    var dialled := Conn(aId, ep, Pub(ep), None, peer, None, true, withCrypto, false);
    World(Endpoint(aId, map[Pub(ep) := dialled]), Endpoint(bId, map[]), {}, {})
  }

  datatype Step =
    | ASends(name: PubKey, payload: Bytes)
    | BSends(name: PubKey, payload: Bytes)
    | AHears(p: Packet, newKey: PrivKey, payloadOk: bool)
    | BHears(p: Packet, newKey: PrivKey, payloadOk: bool)

  /** A packet is heard, any number of times and in any order, if the other side sent it. */
  predicate Enabled(w: World, step: Step) {
    match step
    case ASends(name, _) => name in w.a.conns
    case BSends(name, _) => name in w.b.conns
    case AHears(p, _, _) => p in w.toA
    case BHears(p, _, _) => p in w.toB
  }

  function Emit(net: set<Packet>, p: Option<Packet>): set<Packet> {
    if p.Some? then net + {p.value} else net
  }

  function Next(w: World, step: Step): World
    requires Enabled(w, step)
  {
    match step
    case ASends(name, payload) => w.(toB := Emit(w.toB, EncodeAs(w.a.conns[name], payload)))
    case BSends(name, payload) => w.(toA := Emit(w.toA, EncodeAs(w.b.conns[name], payload)))
    case AHears(p, newKey, ok) => w.(a := Listen(w.a, p, newKey, ok))
    case BHears(p, newKey, ok) => w.(b := Listen(w.b, p, newKey, ok))
  }

  /** Steps that cannot be taken are skipped. */
  ghost function Run(w: World, steps: seq<Step>): World {
    if steps == [] then w
    else
      var w' := Run(w, steps[..|steps| - 1]);
      var last := steps[|steps| - 1];
      if Enabled(w', last) then Next(w', last) else w'
  }

  // ---------- What every reachable world satisfies ----------

  /** A's side of the connection named by its key `ep`. */
  ghost predicate AInv(w: World, ep: PrivKey) {
    && w.a.conns.Keys == {Pub(ep)}
    && var c := w.a.conns[Pub(ep)];
       && c.isSender && c.ep == ep && c.name == Pub(ep) && (c.withCrypto ==> c.peerId.Some?)
       && (c.secret.Some? ==> Pub(ep) in w.b.conns && c.secret == Some(DH(ep, Pub(w.b.conns[Pub(ep)].ep))))
       && (c.done ==> c.secret.Some?)
  }

  /** B's side, once it is there. */
  ghost predicate BInv(w: World, ep: PrivKey)
    requires AInv(w, ep)
  {
    && w.b.conns.Keys <= {Pub(ep)}
    && (Pub(ep) in w.b.conns ==>
          var c := w.b.conns[Pub(ep)];
          && !c.isSender && c.name == Pub(ep) && c.peerEp == Some(Pub(ep)) && c.secret == Some(DH(ep, Pub(c.ep)))
          && (c.done ==> w.a.conns[Pub(ep)].done))
  }

  /** What A may have sent: its own ephemeral key, and data only once it is done. */
  ghost predicate FromA(w: World, ep: PrivKey, p: Packet)
    requires AInv(w, ep)
  {
    && p.header.conn == Pub(ep)
    && match p.header.t
       case InitSnd => p.header.ep == Some(Pub(ep))
       case InitCryptoSnd => p.header.ep == Some(Pub(ep))
       case Data => w.a.conns[Pub(ep)].done
       case _ => false
  }

  /** What B may have sent: its own ephemeral key. */
  ghost predicate FromB(w: World, ep: PrivKey, p: Packet) {
    && p.header.conn == Pub(ep) && Pub(ep) in w.b.conns
    && match p.header.t
       case InitRcv => p.header.ep == Some(Pub(w.b.conns[Pub(ep)].ep))
       case InitCryptoRcv => p.header.ep == Some(Pub(w.b.conns[Pub(ep)].ep))
       case Data => true
       case _ => false
  }

  ghost predicate Inv(w: World, ep: PrivKey) {
    && AInv(w, ep) && BInv(w, ep)
    && (forall p :: p in w.toB ==> FromA(w, ep, p))
    && (forall p :: p in w.toA ==> FromB(w, ep, p))
  }

  lemma {:induction false} ASendsInv(w: World, ep: PrivKey, name: PubKey, payload: Bytes)
    requires Inv(w, ep) && name in w.a.conns
    ensures Inv(Next(w, ASends(name, payload)), ep) && EncodeAs(w.a.conns[name], payload).Some?
  {
    assert name == Pub(ep);
  }

  lemma {:induction false} BSendsInv(w: World, ep: PrivKey, name: PubKey, payload: Bytes)
    requires Inv(w, ep) && name in w.b.conns
    ensures Inv(Next(w, BSends(name, payload)), ep) && EncodeAs(w.b.conns[name], payload).Some?
  {
    assert name == Pub(ep);
  }

  lemma {:induction false} AHearsInv(w: World, ep: PrivKey, p: Packet, newKey: PrivKey, ok: bool)
    requires Inv(w, ep) && p in w.toA
    ensures Inv(Next(w, AHears(p, newKey, ok)), ep)
  {
    assert FromB(w, ep, p);
    var w' := Next(w, AHears(p, newKey, ok));
    assert w'.a.conns.Keys == {Pub(ep)};
    assert w.a.conns[Pub(ep)].done ==> w'.a.conns[Pub(ep)].done;
    forall q | q in w.toB ensures FromA(w', ep, q) { assert FromA(w, ep, q); }
    forall q | q in w.toA ensures FromB(w', ep, q) { assert FromB(w, ep, q); }
  }

  lemma {:induction false} BHearsInv(w: World, ep: PrivKey, p: Packet, newKey: PrivKey, ok: bool)
    requires Inv(w, ep) && p in w.toB
    ensures Inv(Next(w, BHears(p, newKey, ok)), ep)
  {
    assert FromA(w, ep, p);
    var w' := Next(w, BHears(p, newKey, ok));
    if Pub(ep) in w'.b.conns {
      Commutes(ep, w'.b.conns[Pub(ep)].ep);
      assert Pub(ep) in w.b.conns ==> w'.b.conns[Pub(ep)].ep == w.b.conns[Pub(ep)].ep;
    }
    forall q | q in w.toB ensures FromA(w', ep, q) { assert FromA(w, ep, q); }
    forall q | q in w.toA ensures FromB(w', ep, q) { assert FromB(w, ep, q); }
  }

  lemma {:induction false} NextInv(w: World, ep: PrivKey, step: Step)
    requires Inv(w, ep) && Enabled(w, step)
    ensures Inv(Next(w, step), ep)
  {
    match step
    case ASends(name, payload) => ASendsInv(w, ep, name, payload);
    case BSends(name, payload) => BSendsInv(w, ep, name, payload);
    case AHears(p, newKey, ok) => AHearsInv(w, ep, p, newKey, ok);
    case BHears(p, newKey, ok) => BHearsInv(w, ep, p, newKey, ok);
  }

  lemma {:induction false} RunInv(aId: PrivKey, bId: PrivKey, ep: PrivKey, withCrypto: bool, steps: seq<Step>)
    ensures Inv(Run(Start(aId, bId, ep, withCrypto), steps), ep)
  {
    if steps == [] {
    } else {
      var before := steps[..|steps| - 1];
      RunInv(aId, bId, ep, withCrypto, before);
      var w := Run(Start(aId, bId, ep, withCrypto), before);
      if Enabled(w, steps[|steps| - 1]) { NextInv(w, ep, steps[|steps| - 1]); }
    }
  }

  // ---------- Main results ----------

  function ConnOf(e: Endpoint, ep: PrivKey): Option<Conn> {
    if Pub(ep) in e.conns then Some(e.conns[Pub(ep)]) else None
  }

  ghost predicate Done(c: Option<Conn>) {
    c.Some? && c.value.done
  }

  /** In every run: B done means A done; A done means both hold the same secret; and no connection ever
      lacks a key for the packet it has to send. */
  lemma {:induction false} Agreement(aId: PrivKey, bId: PrivKey, ep: PrivKey, withCrypto: bool, steps: seq<Step>,
                                     payload: Bytes)
    ensures var w := Run(Start(aId, bId, ep, withCrypto), steps); var a, b := ConnOf(w.a, ep), ConnOf(w.b, ep);
            && (Done(b) ==> Done(a))
            && (Done(a) ==> b.Some? && a.value.secret.Some? && a.value.secret == b.value.secret)
            && (forall name :: name in w.a.conns ==> EncodeAs(w.a.conns[name], payload).Some?)
            && (forall name :: name in w.b.conns ==> EncodeAs(w.b.conns[name], payload).Some?)
  {
    RunInv(aId, bId, ep, withCrypto, steps);
    var w := Run(Start(aId, bId, ep, withCrypto), steps);
    forall name | name in w.a.conns ensures EncodeAs(w.a.conns[name], payload).Some? {
      ASendsInv(w, ep, name, payload);
    }
    forall name | name in w.b.conns ensures EncodeAs(w.b.conns[name], payload).Some? {
      BSendsInv(w, ep, name, payload);
    }
  }

  // ---------- Who talks to whom ----------

  /** Both ends keep their own identity and the flow they are in; A knows B from the start or once it has a secret, B
      knows A; and packets carry the identity of who sent them. */
  ghost predicate KnownIds(w: World, aId: PrivKey, bId: PrivKey, ep: PrivKey, withCrypto: bool)
    requires AInv(w, ep)
  {
    var a := w.a.conns[Pub(ep)];
    && a.id == aId && a.withCrypto == withCrypto
    && (withCrypto || a.secret.Some? ==> a.peerId == Some(Pub(bId)))
    && w.b.id == bId
    && (Pub(ep) in w.b.conns ==>
          var b := w.b.conns[Pub(ep)];
          b.id == bId && b.withCrypto == withCrypto && b.peerId == Some(Pub(aId)))
    && (forall p :: p in w.toB && !p.header.t.Data? ==>
          p.header.id == Some(Pub(aId)) && (p.header.t.InitCryptoSnd? <==> withCrypto))
    && (forall p :: p in w.toA && !p.header.t.Data? ==>
          if withCrypto then p.header.t.InitCryptoRcv? else p.header.t.InitRcv? && p.header.id == Some(Pub(bId)))
  }

  lemma {:induction false} NextKnownIds(w: World, aId: PrivKey, bId: PrivKey, ep: PrivKey, withCrypto: bool, step: Step)
    requires Inv(w, ep) && KnownIds(w, aId, bId, ep, withCrypto) && Enabled(w, step)
    ensures Inv(Next(w, step), ep) && KnownIds(Next(w, step), aId, bId, ep, withCrypto)
  {
    NextInv(w, ep, step);
    match step
    case ASends(name, _) => assert name == Pub(ep);
    case BSends(name, _) => assert name == Pub(ep);
    case AHears(p, _, _) => assert FromB(w, ep, p);
    case BHears(p, _, _) => assert FromA(w, ep, p);
  }

  lemma {:induction false} RunKnownIds(aId: PrivKey, bId: PrivKey, ep: PrivKey, withCrypto: bool, steps: seq<Step>)
    ensures var w := Run(Start(aId, bId, ep, withCrypto), steps);
            Inv(w, ep) && KnownIds(w, aId, bId, ep, withCrypto)
  {
    RunInv(aId, bId, ep, withCrypto, steps);
    if steps == [] {
    } else {
      var before := steps[..|steps| - 1];
      RunKnownIds(aId, bId, ep, withCrypto, before);
      var w := Run(Start(aId, bId, ep, withCrypto), before);
      if Enabled(w, steps[|steps| - 1]) { NextKnownIds(w, aId, bId, ep, withCrypto, steps[|steps| - 1]); }
    }
  }

  /** In every run, plain or with crypto: once A is done it knows B's identity, and B, as soon as it has the
      connection, knows A's. */
  lemma {:induction false} Identities(aId: PrivKey, bId: PrivKey, ep: PrivKey, withCrypto: bool, steps: seq<Step>)
    ensures var w := Run(Start(aId, bId, ep, withCrypto), steps); var a, b := ConnOf(w.a, ep), ConnOf(w.b, ep);
            && (Done(a) ==> a.value.peerId == Some(Pub(bId)))
            && (b.Some? ==> b.value.peerId == Some(Pub(aId)))
  {
    RunKnownIds(aId, bId, ep, withCrypto, steps);
  }

  /** A has dialled with crypto, but takes the identity of the other end to be `known`. */
  function StartKnowing(aId: PrivKey, bId: PrivKey, ep: PrivKey, known: PrivKey): World {
    var w := Start(aId, bId, ep, true);
    w.(a := With(w.a, Pub(ep), w.a.conns[Pub(ep)].(peerId := Some(Pub(known)))))
  }

  /** Nobody has answered, and all that A sent is sealed for the identity it took. */
  ghost predicate Unanswered(w: World, aId: PrivKey, bId: PrivKey, ep: PrivKey, known: PrivKey) {
    && w.a == StartKnowing(aId, bId, ep, known).a && w.b == Endpoint(bId, map[]) && w.toA == {}
    && forall p :: p in w.toB ==>
         && p.header.t.InitCryptoSnd? && p.header.ep == Some(Pub(ep))
         && p.box.Some? && p.box.value.key == DH(ep, Pub(known))
  }

  lemma DifferentKeys(ep: PrivKey, x: PrivKey, y: PrivKey)
    requires x != y
    ensures DH(ep, Pub(x)) != DH(y, Pub(ep))
  {
  }

  lemma {:induction false} RunUnanswered(aId: PrivKey, bId: PrivKey, ep: PrivKey, known: PrivKey, steps: seq<Step>)
    requires known != bId
    ensures Unanswered(Run(StartKnowing(aId, bId, ep, known), steps), aId, bId, ep, known)
  {
    if steps == [] {
    } else {
      var before, last := steps[..|steps| - 1], steps[|steps| - 1];
      RunUnanswered(aId, bId, ep, known, before);
      DifferentKeys(ep, known, bId);
    }
  }

  /** Started with crypto for an identity that is not B's, the handshake gets nowhere in any run: B makes no connection
      and A is never done. */
  lemma {:induction false} WrongIdentityFails(aId: PrivKey, bId: PrivKey, ep: PrivKey, known: PrivKey, steps: seq<Step>)
    requires known != bId
    ensures var w := Run(StartKnowing(aId, bId, ep, known), steps); w.b.conns == map[] && !Done(ConnOf(w.a, ep))
  {
    RunUnanswered(aId, bId, ep, known, steps);
  }

  // ---------- What is not accepted ----------

  /** Every box was sealed for its own header, by the side that sent it. */
  ghost predicate OwnBoxes(net: set<Packet>, fromSender: bool) {
    forall p :: p in net && p.box.Some? ==> p.box.value.header == p.header && p.box.value.fromSender == fromSender
  }

  lemma {:induction false} RunOwnBoxes(aId: PrivKey, bId: PrivKey, ep: PrivKey, withCrypto: bool, steps: seq<Step>)
    ensures var w := Run(Start(aId, bId, ep, withCrypto), steps); OwnBoxes(w.toB, true) && OwnBoxes(w.toA, false)
  {
    if steps == [] {
    } else {
      var before, last := steps[..|steps| - 1], steps[|steps| - 1];
      RunOwnBoxes(aId, bId, ep, withCrypto, before);
      var w := Run(Start(aId, bId, ep, withCrypto), before);
      RunInv(aId, bId, ep, withCrypto, before);
      match last
      case ASends(name, _) => if Enabled(w, last) { assert name == Pub(ep); }
      case BSends(name, _) => if Enabled(w, last) { assert name == Pub(ep); }
      case _ =>
    }
  }

  /** The box of a packet under way, or none, behind a header that is not its own. */
  ghost predicate Tampered(net: set<Packet>, p: Packet) {
    && !p.header.t.InitSnd?
    && (p.box.Some? ==> exists q :: q in net && q.box == p.box && q.header != p.header)
  }

  lemma {:induction false} ForeignBoxIgnored(e: Endpoint, p: Packet, newKey: PrivKey, ok: bool)
    requires !p.header.t.InitSnd? && (p.box.Some? ==> p.box.value.header != p.header)
    ensures Listen(e, p, newKey, ok) == e
  {
  }

  /** In every run, a packet whose header was exchanged, or whose box was cut off, changes nothing at either end,
      except that an initial packet without crypto has no box to check. */
  lemma {:induction false} TamperedIgnored(aId: PrivKey, bId: PrivKey, ep: PrivKey, withCrypto: bool, steps: seq<Step>,
                                           p: Packet, newKey: PrivKey, ok: bool)
    ensures var w := Run(Start(aId, bId, ep, withCrypto), steps);
            && (Tampered(w.toA + w.toB, p) ==> Listen(w.a, p, newKey, ok) == w.a && Listen(w.b, p, newKey, ok) == w.b)
  {
    hide Listen;
    RunOwnBoxes(aId, bId, ep, withCrypto, steps);
    var w := Run(Start(aId, bId, ep, withCrypto), steps);
    if Tampered(w.toA + w.toB, p) {
      ForeignBoxIgnored(w.a, p, newKey, ok);
      ForeignBoxIgnored(w.b, p, newKey, ok);
    }
  }

  /** In every run, an end that gets its own data back ignores them. */
  lemma {:induction false} OwnDataIgnored(aId: PrivKey, bId: PrivKey, ep: PrivKey, withCrypto: bool, steps: seq<Step>,
                                          p: Packet, newKey: PrivKey, ok: bool)
    requires p.header.t.Data?
    ensures var w := Run(Start(aId, bId, ep, withCrypto), steps);
            && (p in w.toB ==> Listen(w.a, p, newKey, ok) == w.a)
            && (p in w.toA ==> Listen(w.b, p, newKey, ok) == w.b)
  {
    RunOwnBoxes(aId, bId, ep, withCrypto, steps);
    RunInv(aId, bId, ep, withCrypto, steps);
    var w := Run(Start(aId, bId, ep, withCrypto), steps);
    if p in w.toB { assert FromA(w, ep, p); }
    if p in w.toA { assert FromB(w, ep, p); }
  }

  /** Nothing is taken back: connection, secret, done flag and data message type. */
  ghost predicate Keeps(c: Option<Conn>, c': Option<Conn>) {
    c.Some? ==>
      && c'.Some? && (c.value.secret.Some? ==> c'.value.secret == c.value.secret)
      && (c.value.done ==> c'.value.done && TypeOf(c'.value) == Data)
  }

  ghost predicate Advances(w: World, w': World, ep: PrivKey) {
    Keeps(ConnOf(w.a, ep), ConnOf(w'.a, ep)) && Keeps(ConnOf(w.b, ep), ConnOf(w'.b, ep))
  }

  lemma {:induction false} NextAdvances(w: World, ep: PrivKey, step: Step)
    requires Inv(w, ep) && Enabled(w, step)
    ensures Advances(w, Next(w, step), ep)
  {
    NextInv(w, ep, step);
    match step
    case ASends(_, _) =>
    case BSends(_, _) =>
    case AHears(p, _, _) => assert FromB(w, ep, p);
    case BHears(p, _, _) => assert FromA(w, ep, p);
  }

  /** Whatever happens after any run, replays of initial packets included, both ends keep what they have. */
  lemma {:induction false} NothingReverts(aId: PrivKey, bId: PrivKey, ep: PrivKey, withCrypto: bool, steps: seq<Step>,
                                          more: seq<Step>)
    ensures var w := Start(aId, bId, ep, withCrypto); Advances(Run(w, steps), Run(w, steps + more), ep)
  {
    var w := Start(aId, bId, ep, withCrypto);
    if more == [] {
      assert steps + more == steps;
    } else {
      var all, last := steps + more, more[|more| - 1];
      var before := more[..|more| - 1];
      assert all[..|all| - 1] == steps + before && all[|all| - 1] == last;
      NothingReverts(aId, bId, ep, withCrypto, steps, before);
      RunInv(aId, bId, ep, withCrypto, steps + before);
      var w' := Run(w, steps + before);
      if Enabled(w', last) { NextAdvances(w', ep, last); }
    }
  }

  /** Either flow completes once three packets get through: the initial one, the reply and one with data. */
  lemma {:induction false} Completes(aId: PrivKey, bId: PrivKey, ep: PrivKey, withCrypto: bool, newKey: PrivKey,
                                     x: Bytes)
    returns (steps: seq<Step>)
    ensures var w := Run(Start(aId, bId, ep, withCrypto), steps); Done(ConnOf(w.a, ep)) && Done(ConnOf(w.b, ep))
  {
    var name := Pub(ep);
    var w0 := Start(aId, bId, ep, withCrypto);
    var first := EncodeAs(w0.a.conns[name], x).value;
    var s1, s2 := ASends(name, x), BHears(first, newKey, true);
    var w2 := Next(Next(w0, s1), s2);
    Commutes(bId, ep);
    assert name in w2.b.conns;
    var reply := EncodeAs(w2.b.conns[name], x).value;
    var s3, s4 := BSends(name, x), AHears(reply, newKey, true);
    var w4 := Next(Next(w2, s3), s4);
    Commutes(newKey, ep);
    var data := EncodeAs(w4.a.conns[name], x).value;
    var s5, s6 := ASends(name, x), BHears(data, newKey, true);
    steps := [s1, s2, s3, s4, s5, s6];
    RunSteps6(w0, s1, s2, s3, s4, s5, s6);
  }

  lemma {:induction false} RunSteps6(w: World, s1: Step, s2: Step, s3: Step, s4: Step, s5: Step, s6: Step)
    requires Enabled(w, s1) && Enabled(Next(w, s1), s2)
    requires var w2 := Next(Next(w, s1), s2); Enabled(w2, s3) && Enabled(Next(w2, s3), s4)
    requires var w4 := Next(Next(Next(Next(w, s1), s2), s3), s4); Enabled(w4, s5) && Enabled(Next(w4, s5), s6)
    ensures Run(w, [s1, s2, s3, s4, s5, s6]) == Next(Next(Next(Next(Next(Next(w, s1), s2), s3), s4), s5), s6)
  {
    hide Enabled, Next;
    assert [s1][..0] == [] && [s1, s2][..1] == [s1] && [s1, s2, s3][..2] == [s1, s2];
    assert [s1, s2, s3, s4][..3] == [s1, s2, s3] && [s1, s2, s3, s4, s5][..4] == [s1, s2, s3, s4];
    assert [s1, s2, s3, s4, s5, s6][..5] == [s1, s2, s3, s4, s5];
    assert Run(w, [s1]) == Next(w, s1);
    assert Run(w, [s1, s2]) == Next(Run(w, [s1]), s2);
    assert Run(w, [s1, s2, s3]) == Next(Run(w, [s1, s2]), s3);
    assert Run(w, [s1, s2, s3, s4]) == Next(Run(w, [s1, s2, s3]), s4);
    assert Run(w, [s1, s2, s3, s4, s5]) == Next(Run(w, [s1, s2, s3, s4]), s5);
  }
}
