/** The policy engine of `acl/src/engine.rs`: signed statements about who
    may do what below which label, and the permissions they add up to. */
module AclEngine {
  import opened AclLabels
  import opened Bytes
  import DotSets
  import R = AclRules

  /** `Permission`, weakest first. */
  datatype Permission = Sync | Read | Write | Control | Own

  /** The position of a permission in the order `Sync < Read < Write <
      Control < Own`. */
  function Rank(p: Permission): (r: nat)
    ensures r <= 4
    ensures p.Own? <==> r == 4
    ensures p.Control? <==> r == 3
  {
    match p
    case Sync => 0
    case Read => 1
    case Write => 2
    case Control => 3
    case Own => 4
  }

  lemma RankOrder()
    ensures Rank(Sync) < Rank(Read) < Rank(Write) < Rank(Control) < Rank(Own)
    ensures forall p, q | Rank(p) == Rank(q) :: p == q
  {
  }

  /** `controllable`: what a holder of `Control` may hand out. */
  function Controllable(p: Permission): (b: bool)
    ensures b <==> Rank(p) < Rank(Control)
  {
    p.Sync? || p.Read? || p.Write?
  }

  /** `Id`: a dot is issued by a document or a peer. */
  datatype Id = OfDoc(doc: DocId) | OfPeer(peer: PeerId)

  type Dot = DotSets.Dot<Id>

  /** `Actor`. */
  datatype Actor = Doc(doc: DocId) | Peer(peer: PeerId) | Anonymous | Unbound

  /** `From<Id> for Actor`. */
  function ActorOf(id: Id): (a: Actor)
    ensures a.Doc? <==> id.OfDoc?
    ensures id.OfDoc? ==> a.doc == id.doc
    ensures id.OfPeer? ==> a == Peer(id.peer)
  {
    match id
    case OfDoc(d) => Doc(d)
    case OfPeer(p) => Peer(p)
  }

  type Can = R.Can<Actor, Label>
  type Says = R.Says<Dot, Actor, Actor, Label>
  type Fact = R.Fact<Dot, Actor, Actor, Label>

  /** `Can::new`. */
  function Grant(actor: Actor, perm: Permission, at: Label): (c: Can)
    ensures c.actor == actor && c.perm == Rank(perm) && c.scope == at
  {
    R.Can(actor, Rank(perm), at)
  }

  /** The rules of `acl/src/engine.rs`: a document speaks for its own root,
      any document may revoke at the label it is revoking, and `Control`
      delegates `Sync`, `Read` and `Write`. */
  function Semantics(): (I: R.Interp<Actor, Actor, Label>)
    ensures forall r: nat :: I.controllable(r) <==> r < I.control
    ensures I.control == Rank(Control) && I.own == Rank(Own)
  {
    R.Interp(
      a => a,
      Unbound,
      Anonymous,
      (a, b) => IsAncestor(a, b),
      (a: Actor, l: Label) => a == Doc(RootOf(l)),
      (a: Actor, l: Label) => a.Doc?,
      (r: nat) => r < 3,
      3,
      4)
  }

  /** `CanRef::implies` in the terms of this engine. */
  lemma ImpliesIs(rule: Can, req: Can)
    ensures R.Implies(Semantics(), rule, req) <==>
      ((req.actor == rule.actor || req.actor == Unbound || rule.actor == Anonymous) &&
       req.perm <= rule.perm && IsAncestor(rule.scope, req.scope))
  {
  }

  /** What `Engine::can` answers for a set of statements. */
  predicate Allows(claims: set<Says>, req: Can) {
    exists rule :: rule in R.Rules(R.Lfp(Semantics(), claims)) && R.Implies(Semantics(), rule, req)
  }

  /** The loop of `Engine::can`: whether some rule implies the request. */
  method AnyImplies(rules: set<Can>, req: Can) returns (b: bool)
    ensures b <==> exists rule :: rule in rules && R.Implies(Semantics(), rule, req)
  {
    var todo := rules;
    while todo != {}
      invariant todo <= rules
      invariant forall rule | rule in rules - todo :: !R.Implies(Semantics(), rule, req)
      decreases todo
    {
      var rule :| rule in todo;
      if R.Implies(Semantics(), rule, req) {
        return true;
      }
      todo := todo - {rule};
    }
    return false;
  }

  /** `Engine`: the statements heard so far. */
  class Engine {
    var claims: seq<Says>

    constructor()
      ensures claims == []
    {
      claims := [];
    }

    /** `says`: the issuer of `dot` grants `can`. */
    method Says(dot: Dot, can: Can)
      modifies this
      ensures claims == old(claims) + [R.SaysCan(dot, ActorOf(dot.id), can)]
    {
      claims := claims + [R.SaysCan(dot, ActorOf(dot.id), can)];
    }

    /** `says_if`: the issuer of `dot` grants `can` once `cond` holds. */
    method SaysIf(dot: Dot, can: Can, cond: Can)
      modifies this
      ensures claims == old(claims) + [R.SaysCanIf(dot, ActorOf(dot.id), can, cond)]
    {
      claims := claims + [R.SaysCanIf(dot, ActorOf(dot.id), can, cond)];
    }

    /** `revokes`: the issuer of `dot` revokes the statement `claim`. */
    method Revokes(dot: Dot, claim: Dot)
      modifies this
      ensures claims == old(claims) + [R.SaysRevokes(ActorOf(dot.id), claim)]
    {
      claims := claims + [R.SaysRevokes(ActorOf(dot.id), claim)];
    }

    /** The facts the statements lead to. */
    function Facts(): set<Fact>
      reads this
    {
      R.Lfp(Semantics(), set s | s in claims)
    }

    /** `rules`: the authorized grants that are not revoked. */
    function Rules(): (rules: set<Can>)
      reads this
      ensures forall c :: c in rules <==>
        exists id, who :: R.Authorized(id, who, c) in Facts() && R.Revoked(id) !in Facts()
    {
      var F := Facts();
      var rules := R.Rules(F);
      assert forall c :: c in rules <==> exists id, who :: R.Authorized(id, who, c) in F && R.Revoked(id) !in F by {
        forall c | c in rules ensures exists id, who :: R.Authorized(id, who, c) in F && R.Revoked(id) !in F {
          var a :| a in F && a.Authorized? && R.Revoked(a.id) !in F && a.can == c;
          assert R.Authorized(a.id, a.author, c) == a;
        }
      }
      rules
    }

    /** `can`: some rule implies the request. */
    method Can(req: Can) returns (b: bool)
      ensures b <==> Allows((set s | s in claims), req)
    {
      b := AnyImplies(Rules(), req);
    }
  }

  /** The identifiers the unit tests build: 32 copies of one byte. */
  /** A statement by the document for its own root is a rule as long as
      nothing is revoked. */
  lemma RootStatementRules(claims: set<Says>, id: Dot, doc: DocId, can: Can)
    requires forall s | s in claims :: !s.SaysRevokes?
    requires R.SaysCan(id, Doc(doc), can) in claims && RootOf(can.scope) == doc
    ensures can in R.Rules(R.Lfp(Semantics(), claims))
  {
    var F := R.Lfp(Semantics(), claims);
    R.AuthorityGrantsAndRevokes(Semantics(), claims, id, Doc(doc), can, Doc(doc));
    if R.Revoked(id) in F {
      var r, auth := R.RevokedHasReason(Semantics(), claims, id);
      assert false;
    }
    var a: Fact := R.Authorized(id, Doc(doc), can);
    assert a in F && a.Authorized? && R.Revoked(a.id) !in F;
  }

  /** A request is allowed by an authorized grant in force that implies it, ... */
  lemma AllowedBy(claims: set<Says>, a: Fact, req: Can)
    requires a in R.Lfp(Semantics(), claims) && a.Authorized? && R.Revoked(a.id) !in R.Lfp(Semantics(), claims)
    requires R.Implies(Semantics(), a.can, req)
    ensures Allows(claims, req)
  {
    assert a.can in R.Rules(R.Lfp(Semantics(), claims));
  }

  /** ... and by nothing else. */
  lemma DeniedUnless(claims: set<Says>, req: Can)
    requires forall a | a in R.Lfp(Semantics(), claims) && a.Authorized? && R.Revoked(a.id) !in R.Lfp(Semantics(), claims) ::
      !R.Implies(Semantics(), a.can, req)
    ensures !Allows(claims, req)
  {
  }
}
