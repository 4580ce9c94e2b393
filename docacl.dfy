/** The access control of `crdt/src/acl.rs`: policy statements signed by
    peers, the Datalog rules of `AclRules` over binary paths, and the rule
    table (`Acl`) that the derived permissions are installed into and that
    answers `can`. */
module DocAcl {
  import opened Wrappers
  import opened Bytes
  import Paths
  import R = AclRules

  type PeerId = seq<byte>
  type DocId = seq<byte>
  type Path = seq<Paths.Segment>
  type Dot = Paths.PathDot

  /** `Permission`, weakest first. */
  datatype Permission = Read | Write | Control | Own

  /** The position of a permission in the derived order. */
  function Rank(p: Permission): (r: nat)
    ensures r <= 3
    ensures p.Own? <==> r == 3
    ensures p.Control? <==> r == 2
    ensures p.Read? <==> r == 0
  {
    match p
    case Read => 0
    case Write => 1
    case Control => 2
    case Own => 3
  }

  /** The order is total and strict. */
  lemma RankInjective(p: Permission, q: Permission)
    ensures Rank(p) == Rank(q) <==> p == q
  {
  }

  /** `controllable`: what `Control` may delegate, Read and Write. */
  function Controllable(p: Permission): (b: bool)
    ensures b <==> Rank(p) < Rank(Control)
  {
    p.Read? || p.Write?
  }

  /** `Actor`. */
  datatype Actor = Peer(peer: PeerId) | Anonymous | Unbound

  /** `From<Option<PeerId>>`: no peer means anybody. */
  function ActorOf(peer: Option<PeerId>): (a: Actor)
    ensures a.Peer? <==> peer.Some?
    ensures a.Peer? ==> a.peer == peer.value
    ensures !a.Unbound?
  {
    match peer
    case Some(p) => Peer(p)
    case None => Anonymous
  }

  /** `is_local_authority`: a peer whose key is the document id. */
  predicate IsLocalAuthority(a: Actor, doc: DocId) {
    a.Peer? && a.peer == doc
  }

  /** The zero peer that stands for anybody in the rule table. */
  function ZeroPeer(): PeerId {
    seq(32, _ => 0)
  }

  /** `CanRef::root`: the document of the first segment. The source unwraps
      it; a path without one has no root here. */
  function RootOf(path: Path): (r: Option<DocId>)
    ensures r.Some? <==> |path| > 0 && path[0].Doc?
    ensures r.Some? ==> r.value == path[0].doc
  {
    if |path| > 0 && path[0].Doc? then Some(path[0].doc) else None
  }

  /** `Path::is_ancestor` on the encoded paths: a byte prefix. */
  predicate PathAncestor(a: Path, b: Path) {
    Paths.AllWf(a) && Paths.AllWf(b) && Paths.IsAncestor(Paths.Encode(a), Paths.Encode(b))
  }

  /** The local authority of a path is the peer whose key is its root. */
  predicate LocalAuthority(p: PeerId, l: Path) {
    RootOf(l) == Some(p)
  }

  /** The rules of the `crepe!` block: peers speak for themselves, a grant
      on a path binds its descendants, the local authority is the peer of
      the root document, and it may also revoke at the same path; Read and
      Write are controllable, Control is rank 2 and Own rank 3. */
  function Semantics(): (I: R.Interp<PeerId, Actor, Path>)
    ensures forall r: nat :: I.controllable(r) <==> r < I.control
    ensures I.control == Rank(Control) && I.own == Rank(Own)
  {
    R.Interp((p: PeerId) => Peer(p), Unbound, Anonymous,
             (a: Path, b: Path) => PathAncestor(a, b),
             (p: PeerId, l: Path) => LocalAuthority(p, l),
             (p: PeerId, l: Path) => LocalAuthority(p, l),
             (r: nat) => r < 2, 2, 3)
  }

  type Can = R.Can<Actor, Path>
  type Says = R.Says<Dot, PeerId, Actor, Path>
  type Fact = R.Fact<Dot, PeerId, Actor, Path>

  /** `Can::new`. */
  function Grant(actor: Actor, perm: Permission, path: Path): (c: Can)
    ensures c.actor == actor && c.perm == Rank(perm) && c.scope == path
  {
    R.Can(actor, Rank(perm), path)
  }

  /** `CanRef::implies` under these rules: the actors match (or the request
      is unbound, or the rule is for anybody), the permission is at most the
      rule's and the rule's path is a byte prefix of the request's. */
  lemma ImpliesIs(rule: Can, req: Can)
    ensures R.Implies(Semantics(), rule, req) <==>
      (req.actor == rule.actor || req.actor.Unbound? || rule.actor.Anonymous?) &&
      req.perm <= rule.perm && PathAncestor(rule.scope, req.scope)
  {
  }

  /** Ancestry of paths is reflexive and transitive. */
  lemma AncestorPreorder(a: Path, b: Path, c: Path)
    requires Paths.AllWf(a)
    ensures PathAncestor(a, a)
    ensures PathAncestor(a, b) && PathAncestor(b, c) ==> PathAncestor(a, c)
  {
  }

  /** Two sequences with heads of one length: one is a prefix of the other
      exactly when the heads agree and the tails are prefixes. */
  lemma PrefixWithHead(h1: seq<byte>, r1: seq<byte>, h2: seq<byte>, r2: seq<byte>)
    requires |h1| == |h2|
    ensures h1 + r1 <= h2 + r2 <==> h1 == h2 && r1 <= r2
  {
    var x, y := h1 + r1, h2 + r2;
    if x <= y {
      assert h1 == x[..|h1|] == y[..|h1|] == h2;
      assert r1 == x[|h1|..] == y[|h1|..|x|];
      assert r2[..|r1|] == y[|h1|..|x|];
    }
  }

  /** The encoding of a document segment: its 32 bytes, then tag 0. */
  lemma EncodeDoc(d: DocId)
    requires |d| == 32
    ensures Paths.WfSegment(Paths.Segment.Doc(d))
    ensures Paths.EncodeSegment(Paths.Segment.Doc(d)) == d + [0]
  {
  }

  /** Paths below the same document: ancestry of the whole paths is ancestry
      of what follows the document segment. */
  lemma AncestorBelowDoc(a: Path, b: Path)
    requires Paths.AllWf(a) && Paths.AllWf(b) && RootOf(a).Some? && RootOf(b).Some?
    ensures Paths.AllWf(a[1..]) && Paths.AllWf(b[1..])
    ensures PathAncestor(a, b) <==> RootOf(a) == RootOf(b) && PathAncestor(a[1..], b[1..])
  {
    assert Paths.WfSegment(a[0]) && Paths.WfSegment(b[0]);
    assert [a[0]] + a[1..] == a;
    assert [b[0]] + b[1..] == b;
    Paths.EncodeCons(a[0], a[1..]);
    Paths.EncodeCons(b[0], b[1..]);
    EncodeDoc(a[0].doc);
    EncodeDoc(b[0].doc);
    PrefixWithHead(a[0].doc + [0], Paths.Encode(a[1..]), b[0].doc + [0], Paths.Encode(b[1..]));
    if a[0].doc + [0] == b[0].doc + [0] {
      assert a[0].doc == (a[0].doc + [0])[..32];
    }
  }

  // ---- The rule table --------------------------------------------------------

  /** A key of the rule table: the root document, the peer (the zero peer
      for anybody) and the rest of the path. */
  datatype RuleKey = RuleKey(doc: DocId, peer: PeerId, rest: Path)

  /** `Rule`: the statement that installed the entry and its permission, by
      rank. */
  datatype Rule = Rule(id: Dot, perm: nat)

  /** The bytes of the key: the path of the document, the peer, then the
      rest of the path. */
  function KeyBytes(k: RuleKey): seq<byte>
    requires |k.doc| == 32 && |k.peer| == 32 && Paths.AllWf(k.rest)
  {
    Paths.Encode([Paths.Segment.Doc(k.doc), Paths.Segment.Peer(k.peer)] + k.rest)
  }

  /** Keys are told apart by their bytes, ... */
  lemma KeyBytesInjective(k: RuleKey, l: RuleKey)
    requires |k.doc| == 32 && |k.peer| == 32 && Paths.AllWf(k.rest)
    requires |l.doc| == 32 && |l.peer| == 32 && Paths.AllWf(l.rest)
    ensures KeyBytes(k) == KeyBytes(l) <==> k == l
  {
    if KeyBytes(k) == KeyBytes(l) {
      KeyHead(k);
      KeyHead(l);
      var hk, hl := k.doc + [0] + k.peer + [1], l.doc + [0] + l.peer + [1];
      HeadSplit(hk, Paths.Encode(k.rest), hl, Paths.Encode(l.rest));
      assert k.doc == hk[..32] && l.doc == hl[..32];
      assert k.peer == hk[33..65] && l.peer == hl[33..65];
      Paths.SegmentsOfEncode(k.rest);
      Paths.SegmentsOfEncode(l.rest);
    }
  }

  lemma HeadSplit(h1: seq<byte>, r1: seq<byte>, h2: seq<byte>, r2: seq<byte>)
    requires |h1| == |h2| && h1 + r1 == h2 + r2
    ensures h1 == h2 && r1 == r2
  {
    assert h1 == (h1 + r1)[..|h1|];
    assert h2 == (h2 + r2)[..|h1|];
    assert r1 == (h1 + r1)[|h1|..];
    assert r2 == (h2 + r2)[|h1|..];
  }

  /** ... and a key starts with the path of its document and peer, which is
      what `implies` scans for. */
  lemma KeyHead(k: RuleKey)
    requires |k.doc| == 32 && |k.peer| == 32 && Paths.AllWf(k.rest)
    ensures KeyBytes(k) == k.doc + [0] + k.peer + [1] + Paths.Encode(k.rest)
  {
    var d, p := Paths.Segment.Doc(k.doc), Paths.Segment.Peer(k.peer);
    assert Paths.AllWf([d, p]);
    Paths.EncodeAppend([d, p], k.rest);
    assert [d, p][..1] == [d];
    assert [d][..0] == [];
    assert Paths.Encode([d, p]) == Paths.Encode([d]) + Paths.EncodeSegment(p);
    assert Paths.Encode([d]) == Paths.EncodeSegment(d);
    EncodeDoc(k.doc);
    assert Paths.EncodeSegment(p) == k.peer + [1];
  }

  /** The key `add_rule` writes for a grant: its root, its peer, and the
      path after the document. */
  function KeyOf(actor: Actor, path: Path): (k: RuleKey)
    requires RootOf(path).Some?
    ensures k.doc == RootOf(path).value && k.rest == path[1..]
    ensures k.peer == (if actor.Peer? then actor.peer else ZeroPeer())
  {
    RuleKey(path[0].doc, if actor.Peer? then actor.peer else ZeroPeer(), path[1..])
  }

  /** Some entry for `peer` below `doc` grants at least `perm` on an
      ancestor of `rest`. */
  predicate Covers(rules: map<RuleKey, Rule>, peer: PeerId, doc: DocId, perm: nat, rest: Path) {
    exists k | k in rules :: k.doc == doc && k.peer == peer && PathAncestor(k.rest, rest) && perm <= rules[k].perm
  }

  /** What `can` answers: the document's own key may do anything; anybody
      else needs an entry for themselves or for the zero peer. */
  predicate Permits(rules: map<RuleKey, Rule>, peer: PeerId, perm: nat, path: Path)
    requires RootOf(path).Some?
  {
    var doc := RootOf(path).value;
    peer == doc || Covers(rules, peer, doc, perm, path[1..]) || Covers(rules, ZeroPeer(), doc, perm, path[1..])
  }

  /** The entries whose statement is not revoked. */
  function Unrevoked(rules: map<RuleKey, Rule>, revoked: set<Dot>): (r: map<RuleKey, Rule>)
    ensures forall k :: k in r <==> k in rules && rules[k].id !in revoked
    ensures forall k | k in r :: r[k] == rules[k]
  {
    map k | k in rules && rules[k].id !in revoked :: rules[k]
  }

  /** A granted permission covers the weaker ones, ... */
  lemma PermitsWeaker(rules: map<RuleKey, Rule>, peer: PeerId, perm: nat, weaker: nat, path: Path)
    requires RootOf(path).Some? && Permits(rules, peer, perm, path) && weaker <= perm
    ensures Permits(rules, peer, weaker, path)
  {
  }

  /** ... on every path below, ... */
  lemma PermitsBelow(rules: map<RuleKey, Rule>, peer: PeerId, perm: nat, path: Path, below: Path)
    requires RootOf(path).Some? && Permits(rules, peer, perm, path)
    requires PathAncestor(path, below) && RootOf(below).Some?
    ensures Permits(rules, peer, perm, below)
  {
    AncestorBelowDoc(path, below);
  }

  /** ... and more entries only permit more. */
  lemma PermitsMonotone(rules: map<RuleKey, Rule>, more: map<RuleKey, Rule>, peer: PeerId, perm: nat, path: Path)
    requires RootOf(path).Some? && Permits(rules, peer, perm, path)
    requires forall k | k in rules :: k in more && rules[k].perm <= more[k].perm
    ensures Permits(more, peer, perm, path)
  {
  }

  /** `Acl`: the rule table, a key-value tree (`BlobMap`) from rule keys to
      rules. */
  class Acl {
    var rules: map<RuleKey, Rule>

    /** `Acl::new`: over an existing tree. */
    constructor (rules: map<RuleKey, Rule>)
      ensures this.rules == rules
    {
      this.rules := rules;
    }

    /** `add_rule`: writes the rule under the key of the grant, replacing
        whatever was there. */
    method AddRule(id: Dot, actor: Actor, perm: nat, path: Path)
      requires RootOf(path).Some?
      modifies this
      ensures rules == old(rules)[KeyOf(actor, path) := Rule(id, perm)]
    {
      rules := rules[KeyOf(actor, path) := Rule(id, perm)];
    }

    /** `revoke_rules`: removes every entry whose statement is revoked. */
    method RevokeRules(revoked: set<Dot>)
      modifies this
      ensures rules == Unrevoked(old(rules), revoked)
    {
      var todo := rules.Keys;
      while todo != {}
        invariant todo <= old(rules).Keys
        invariant forall k :: k in rules <==> k in old(rules) && (k in todo || old(rules)[k].id !in revoked)
        invariant forall k | k in rules :: rules[k] == old(rules)[k]
        decreases todo
      {
        var k :| k in todo;
        if rules[k].id in revoked {
          rules := rules - {k};
        }
        todo := todo - {k};
      }
      assert rules == Unrevoked(old(rules), revoked);
    }

    /** `implies`: scans the entries of `peer` below `doc` for one on an
        ancestor of `rest` with at least `perm`. */
    method Implies(peer: PeerId, doc: DocId, perm: nat, rest: Path) returns (b: bool)
      ensures b <==> Covers(rules, peer, doc, perm, rest)
    {
      var todo := rules.Keys;
      while todo != {}
        invariant todo <= rules.Keys
        invariant forall k | k in rules && k !in todo ::
          !(k.doc == doc && k.peer == peer && PathAncestor(k.rest, rest) && perm <= rules[k].perm)
        decreases todo
      {
        var k :| k in todo;
        if k.doc == doc && k.peer == peer && PathAncestor(k.rest, rest) && perm <= rules[k].perm {
          return true;
        }
        todo := todo - {k};
      }
      return false;
    }

    /** `can`: the document's own key, then the peer's entries, then the
        entries for anybody. */
    method Can(peer: PeerId, perm: Permission, path: Path) returns (b: bool)
      requires RootOf(path).Some?
      ensures b <==> Permits(rules, peer, Rank(perm), path)
    {
      var doc, rest := path[0].doc, path[1..];
      if peer == doc {
        return true;
      }
      b := Implies(peer, doc, Rank(perm), rest);
      if b {
        return true;
      }
      b := Implies(ZeroPeer(), doc, Rank(perm), rest);
    }
  }

  // ---- Statements and the engine ------------------------------------------------

  /** `Policy`: the statement a policy segment carries. */
  datatype Policy =
    | CanPolicy(actor: Actor, perm: Permission)
    | CanIfPolicy(actor: Actor, perm: Permission, cond: Can)
    | RevokesPolicy(dot: Dot)

  /** `_add_policy`'s parse of a signed policy path `prefix.policy.peer.sig`:
      the statement, by the peer, about `prefix`, identified by the dot of
      the whole path. The archived policy is decoded by `decode`. */
  function StatementOf(path: Path, decode: seq<byte> -> Option<Policy>): (r: Option<Says>)
    requires Paths.AllWf(path)
    ensures r.Some? <==> (|path| >= 3 && path[|path| - 2].Peer? && path[|path| - 3].Policy? &&
      decode(path[|path| - 3].policy).Some?)
    ensures r.Some? && !r.value.SaysRevokes? ==> (r.value.id == Paths.DotOf(Paths.Encode(path)) &&
      r.value.author == path[|path| - 2].peer && r.value.can.scope == path[..|path| - 3])
    ensures r.Some? && r.value.SaysRevokes? ==> r.value.author == path[|path| - 2].peer
  {
    if |path| < 3 then None
    else
      var n := |path|;
      var peer, policy, prefix := path[n - 2], path[n - 3], path[..n - 3];
      if !peer.Peer? || !policy.Policy? then None
      else
        match decode(policy.policy)
        case None => None
        case Some(p) =>
          var dot := Paths.DotOf(Paths.Encode(path));
          match p
          case CanPolicy(actor, perm) => Some(R.SaysCan(dot, peer.peer, Grant(actor, perm, prefix)))
          case CanIfPolicy(actor, perm, cond) => Some(R.SaysCanIf(dot, peer.peer, Grant(actor, perm, prefix), cond))
          case RevokesPolicy(claim) => Some(R.SaysRevokes(peer.peer, claim))
  }

  /** A policy written below `prefix` and signed by `peer` is read back as
      that statement. */
  lemma StatementOfPolicyPath(prefix: Path, bytes: seq<byte>, peer: PeerId, sig: Paths.Segment,
                              decode: seq<byte> -> Option<Policy>, p: Policy)
    requires Paths.AllWf(prefix + [Paths.Segment.Policy(bytes), Paths.Segment.Peer(peer), sig])
    requires decode(bytes) == Some(p)
    ensures var path := prefix + [Paths.Segment.Policy(bytes), Paths.Segment.Peer(peer), sig];
      var dot := Paths.DotOf(Paths.Encode(path));
      StatementOf(path, decode) == Some(match p
        case CanPolicy(actor, perm) => R.SaysCan(dot, peer, Grant(actor, perm, prefix))
        case CanIfPolicy(actor, perm, cond) => R.SaysCanIf(dot, peer, Grant(actor, perm, prefix), cond)
        case RevokesPolicy(claim) => R.SaysRevokes(peer, claim))
  {
    var path := prefix + [Paths.Segment.Policy(bytes), Paths.Segment.Peer(peer), sig];
    assert path[..|path| - 3] == prefix;
  }

  /** The grants in force: authorized, not revoked, and on a path with a
      root document. */
  function InForce(claims: set<Says>): (r: set<Fact>)
    ensures forall f | f in r :: f.Authorized? && RootOf(f.can.scope).Some?
  {
    var F := R.Lfp(Semantics(), claims);
    set f | f in F && f.Authorized? && R.Revoked(f.id) !in F && RootOf(f.can.scope).Some?
  }

  /** The key a grant is installed under. */
  function KeyOfFact(f: Fact): RuleKey
    requires f.Authorized? && RootOf(f.can.scope).Some?
  {
    KeyOf(f.can.actor, f.can.scope)
  }

  /** `Engine`: the set of statements seen so far and the rule table. */
  class Engine {
    var policy: set<Says>
    var acl: Acl

    /** `Engine::new`. */
    constructor (acl: Acl)
      ensures policy == {} && this.acl == acl
    {
      policy := {};
      this.acl := acl;
    }

    /** `add_policy`: adds the statement of a signed policy path, if it
        parses. */
    method AddPolicy(path: Path, decode: seq<byte> -> Option<Policy>)
      requires Paths.AllWf(path)
      modifies this
      ensures acl == old(acl)
      ensures StatementOf(path, decode).Some? ==> policy == old(policy) + {StatementOf(path, decode).value}
      ensures StatementOf(path, decode).None? ==> policy == old(policy)
    {
      var says := StatementOf(path, decode);
      if says.Some? {
        policy := policy + {says.value};
      }
    }

    /** `update_acl`: removes the entries of revoked statements, then
        installs every grant in force, keeping the stronger entry where two
        grants share a key. The source installs first and overwrites; see
        `UpdateAsWritten`. */
    method UpdateAcl()
      modifies acl
      ensures forall k | k in acl.rules :: R.Revoked(acl.rules[k].id) !in R.Lfp(Semantics(), policy)
      ensures forall f | f in InForce(policy) :: KeyOfFact(f) in acl.rules && f.can.perm <= acl.rules[KeyOfFact(f)].perm
      ensures forall k | k in acl.rules ::
        (k in old(acl.rules) && acl.rules[k] == old(acl.rules)[k]) ||
        (exists f | f in InForce(policy) :: KeyOfFact(f) == k && acl.rules[k] == Rule(f.id, f.can.perm))
    {
      var F := R.Lfp(Semantics(), policy);
      var revoked := set f | f in F && f.Revoked? :: f.id;
      acl.RevokeRules(revoked);
      assert forall k | k in acl.rules :: R.Revoked(acl.rules[k].id) !in F;
      InstallStrongest(acl, InForce(policy));
    }
  }

  /** The loop of `update_acl`: installs each grant unless its key already
      holds at least its permission. */
  method InstallStrongest(acl: Acl, live: set<Fact>)
    requires forall f | f in live :: f.Authorized? && RootOf(f.can.scope).Some?
    modifies acl
    ensures forall f | f in live :: KeyOfFact(f) in acl.rules && f.can.perm <= acl.rules[KeyOfFact(f)].perm
    ensures forall k | k in acl.rules ::
      (k in old(acl.rules) && acl.rules[k] == old(acl.rules)[k]) ||
      (exists f | f in live :: KeyOfFact(f) == k && acl.rules[k] == Rule(f.id, f.can.perm))
  {
    var todo := live;
    while todo != {}
      invariant todo <= live
      invariant forall f | f in live && f !in todo :: KeyOfFact(f) in acl.rules && f.can.perm <= acl.rules[KeyOfFact(f)].perm
      invariant forall k | k in acl.rules ::
        (k in old(acl.rules) && acl.rules[k] == old(acl.rules)[k]) ||
        (exists f | f in live :: KeyOfFact(f) == k && acl.rules[k] == Rule(f.id, f.can.perm))
      decreases todo
    {
      var f :| f in todo;
      var k := KeyOfFact(f);
      if k !in acl.rules || acl.rules[k].perm < f.can.perm {
        acl.AddRule(f.id, f.can.actor, f.can.perm, f.can.scope);
      }
      todo := todo - {f};
    }
  }

  // ---- What the installed table answers -------------------------------------------

  /** An entry at least as strong as a grant in force permits every request
      the grant implies. */
  lemma InstalledPermits(rules: map<RuleKey, Rule>, f: Fact, p: PeerId, q: nat, l: Path)
    requires f.Authorized? && RootOf(f.can.scope).Some?
    requires KeyOfFact(f) in rules && f.can.perm <= rules[KeyOfFact(f)].perm
    requires RootOf(l).Some? && R.Implies(Semantics(), f.can, R.Can(Peer(p), q, l))
    ensures Permits(rules, p, q, l)
  {
    var k := KeyOfFact(f);
    AncestorBelowDoc(f.can.scope, l);
    if f.can.actor == Peer(p) {
      assert k.doc == l[0].doc && k.peer == p && PathAncestor(k.rest, l[1..]) && q <= rules[k].perm;
    } else {
      assert k.doc == l[0].doc && k.peer == ZeroPeer() && PathAncestor(k.rest, l[1..]) && q <= rules[k].perm;
    }
  }

  /** Every entry was installed for one of the grants `live`. */
  predicate Sourced(rules: map<RuleKey, Rule>, live: set<Fact>)
    requires forall f | f in live :: f.Authorized? && RootOf(f.can.scope).Some?
  {
    forall k | k in rules :: exists f | f in live :: KeyOfFact(f) == k && rules[k] == Rule(f.id, f.can.perm)
  }

  /** A grant for the zero peer or for an unbound actor would be installed
      as a grant for anybody; without those, a table installed from the
      grants in force permits nothing they do not imply. */
  lemma SourcedSound(rules: map<RuleKey, Rule>, live: set<Fact>, p: PeerId, q: nat, l: Path)
    requires forall f | f in live :: f.Authorized? && RootOf(f.can.scope).Some?
    requires Sourced(rules, live)
    requires forall f | f in live :: f.can.actor != Unbound && f.can.actor != Peer(ZeroPeer())
    requires Paths.AllWf(l) && RootOf(l).Some? && p != RootOf(l).value
    requires Permits(rules, p, q, l)
    ensures exists f | f in live :: R.Implies(Semantics(), f.can, R.Can(Peer(p), q, l))
  {
    var doc := l[0].doc;
    var who := if Covers(rules, p, doc, q, l[1..]) then p else ZeroPeer();
    var k :| k in rules && k.doc == doc && k.peer == who && PathAncestor(k.rest, l[1..]) && q <= rules[k].perm;
    var f :| f in live && KeyOfFact(f) == k && rules[k] == Rule(f.id, f.can.perm);
    SourcedStep(f, k, p, who, q, l);
  }

  lemma SourcedStep(f: Fact, k: RuleKey, p: PeerId, who: PeerId, q: nat, l: Path)
    requires f.Authorized? && RootOf(f.can.scope).Some? && KeyOfFact(f) == k
    requires f.can.actor != Unbound && f.can.actor != Peer(ZeroPeer())
    requires who == p || who == ZeroPeer()
    requires Paths.AllWf(l) && RootOf(l).Some?
    requires k.doc == l[0].doc && k.peer == who && PathAncestor(k.rest, l[1..]) && q <= f.can.perm
    ensures R.Implies(Semantics(), f.can, R.Can(Peer(p), q, l))
  {
    var scope := f.can.scope;
    assert Paths.WfSegment(l[0]);
    assert [scope[0]] + scope[1..] == scope;
    Paths.AllWfAppend([scope[0]], scope[1..]);
    AncestorBelowDoc(scope, l);
  }

  /** `update_acl` as written: installs the authorized grants whose
      statement is not revoked, in the order the Datalog runtime yields
      them, each overwriting its key; then removes the entries of revoked
      statements. */
  function InstallAsWritten(rules: map<RuleKey, Rule>, order: seq<Fact>, revoked: set<Dot>): map<RuleKey, Rule>
    requires forall i | 0 <= i < |order| :: order[i].Authorized? && RootOf(order[i].can.scope).Some?
    decreases |order|
  {
    if order == [] then rules
    else
      var f := order[0];
      InstallAsWritten(if f.id in revoked then rules else rules[KeyOfFact(f) := Rule(f.id, f.can.perm)], order[1..], revoked)
  }

  /** The loop keeps every key and leaves at each one an old entry or
      one it installed. */
  lemma {:induction false} InstallSources(rules: map<RuleKey, Rule>, order: seq<Fact>, revoked: set<Dot>)
    requires forall i | 0 <= i < |order| :: order[i].Authorized? && RootOf(order[i].can.scope).Some?
    ensures var r := InstallAsWritten(rules, order, revoked);
      rules.Keys <= r.Keys &&
      (forall k | k in r ::
         (k in rules && r[k] == rules[k]) ||
         (exists i | 0 <= i < |order| :: order[i].id !in revoked && KeyOfFact(order[i]) == k &&
            r[k] == Rule(order[i].id, order[i].can.perm)))
    decreases |order|
  {
    if order != [] {
      var f, tail := order[0], order[1..];
      var next := if f.id in revoked then rules else rules[KeyOfFact(f) := Rule(f.id, f.can.perm)];
      InstallSources(next, tail, revoked);
      var r := InstallAsWritten(next, tail, revoked);
      forall k | k in r
        ensures (k in rules && r[k] == rules[k]) ||
          (exists i | 0 <= i < |order| :: order[i].id !in revoked && KeyOfFact(order[i]) == k &&
             r[k] == Rule(order[i].id, order[i].can.perm))
      {
        if !(k in next && r[k] == next[k]) {
          var j :| 0 <= j < |tail| && tail[j].id !in revoked && KeyOfFact(tail[j]) == k &&
            r[k] == Rule(tail[j].id, tail[j].can.perm);
          assert tail[j] == order[j + 1];
        } else if !(k in rules && r[k] == rules[k]) {
          assert f.id !in revoked && k == KeyOfFact(f);
        }
      }
    }
  }

  /** Every grant the loop installs leaves an unrevoked entry at its key. */
  lemma {:induction false} InstallKeeps(rules: map<RuleKey, Rule>, order: seq<Fact>, revoked: set<Dot>)
    requires forall i | 0 <= i < |order| :: order[i].Authorized? && RootOf(order[i].can.scope).Some?
    ensures var r := InstallAsWritten(rules, order, revoked);
      forall i | 0 <= i < |order| && order[i].id !in revoked ::
        KeyOfFact(order[i]) in r && r[KeyOfFact(order[i])].id !in revoked
    decreases |order|
  {
    if order != [] {
      var f, tail := order[0], order[1..];
      var next := if f.id in revoked then rules else rules[KeyOfFact(f) := Rule(f.id, f.can.perm)];
      InstallKeeps(next, tail, revoked);
      InstallSources(next, tail, revoked);
      var r := InstallAsWritten(next, tail, revoked);
      forall i | 0 <= i < |order| && order[i].id !in revoked
        ensures KeyOfFact(order[i]) in r && r[KeyOfFact(order[i])].id !in revoked
      {
        if i > 0 {
          assert order[i] == tail[i - 1];
        } else {
          assert KeyOfFact(f) in next;
        }
      }
    }
  }

  /** ... after which no entry is revoked, and every grant it installed
      keeps an entry at its key. */
  function UpdateAsWritten(rules: map<RuleKey, Rule>, order: seq<Fact>, revoked: set<Dot>): (r: map<RuleKey, Rule>)
    requires forall i | 0 <= i < |order| :: order[i].Authorized? && RootOf(order[i].can.scope).Some?
    ensures forall k | k in r :: r[k].id !in revoked
    ensures forall i | 0 <= i < |order| && order[i].id !in revoked :: KeyOfFact(order[i]) in r
  {
    InstallKeeps(rules, order, revoked);
    Unrevoked(InstallAsWritten(rules, order, revoked), revoked)
  }

  /** Two grants in force for the same peer and path: the document's key
      makes peer `a` owner of the root, and also gives it Read there, ... */
  lemma OwnAndReadInForce(claims: set<Says>, d: DocId, a: PeerId, x: Dot, y: Dot)
    requires |d| == 32
    requires claims == {R.SaysCan(x, d, Grant(Peer(a), Own, [Paths.Segment.Doc(d)])),
                        R.SaysCan(y, d, Grant(Peer(a), Read, [Paths.Segment.Doc(d)]))}
    ensures R.Authorized(x, d, Grant(Peer(a), Own, [Paths.Segment.Doc(d)])) in InForce(claims)
    ensures R.Authorized(y, d, Grant(Peer(a), Read, [Paths.Segment.Doc(d)])) in InForce(claims)
  {
    var root := [Paths.Segment.Doc(d)];
    R.AuthorityGrantsAndRevokes(Semantics(), claims, x, d, Grant(Peer(a), Own, root), d);
    R.AuthorityGrantsAndRevokes(Semantics(), claims, y, d, Grant(Peer(a), Read, root), d);
    R.RevokedOnlyIfNamed(Semantics(), claims, x);
    R.RevokedOnlyIfNamed(Semantics(), claims, y);
  }

  /** ... as written, whichever the runtime yields last holds the key; with
      Read last, peer `a` may no longer write, although its ownership is in
      force and implies Write. `UpdateAcl` keeps the stronger entry
      instead. */
  lemma OverwriteLosesPermission(d: DocId, a: PeerId, x: Dot, y: Dot)
    requires |d| == 32 && a != d && a != ZeroPeer()
    ensures var root := [Paths.Segment.Doc(d)];
      var own := R.Authorized(x, d, Grant(Peer(a), Own, root));
      var read := R.Authorized(y, d, Grant(Peer(a), Read, root));
      R.Implies(Semantics(), own.can, Grant(Peer(a), Write, root)) &&
      !Permits(UpdateAsWritten(map[], [own, read], {}), a, Rank(Write), root)
  {
    var root := [Paths.Segment.Doc(d)];
    var own := R.Authorized(x, d, Grant(Peer(a), Own, root));
    var read := R.Authorized(y, d, Grant(Peer(a), Read, root));
    EncodeDoc(d);
    var k := KeyOfFact(own);
    assert KeyOfFact(read) == k;
    assert [own, read][1..] == [read];
    assert [read][1..] == [];
    var m0: map<RuleKey, Rule> := map[];
    var m1 := m0[k := Rule(x, Rank(Own))];
    var m2 := m1[k := Rule(y, Rank(Read))];
    var none: set<Dot> := {};
    assert InstallAsWritten(m2, [], none) == m2;
    assert InstallAsWritten(m1, [read], none) == m2;
    assert InstallAsWritten(m0, [own, read], none) == m2;
    assert m2 == map[k := Rule(y, 0)];
    var rules := Unrevoked(m2, none);
    assert rules == m2;
    assert !Covers(rules, a, d, Rank(Write), root[1..]);
    assert !Covers(rules, ZeroPeer(), d, Rank(Write), root[1..]);
  }

  /** The same grants installed by `UpdateAcl`: the key holds Own, and peer
      `a` may write. */
  lemma StrongestKeepsPermission(rules: map<RuleKey, Rule>, claims: set<Says>, d: DocId, a: PeerId, x: Dot)
    requires |d| == 32
    requires R.Authorized(x, d, Grant(Peer(a), Own, [Paths.Segment.Doc(d)])) in InForce(claims)
    requires forall f | f in InForce(claims) :: KeyOfFact(f) in rules && f.can.perm <= rules[KeyOfFact(f)].perm
    ensures Permits(rules, a, Rank(Write), [Paths.Segment.Doc(d)])
  {
    var root := [Paths.Segment.Doc(d)];
    EncodeDoc(d);
    InstalledPermits(rules, R.Authorized(x, d, Grant(Peer(a), Own, root)), a, Rank(Write), root);
  }
}
