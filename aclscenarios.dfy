/** The scenarios of the tests in `acl/src/engine.rs`, stated as facts about
    the permissions the statements add up to. Documents and peers are the
    32-byte ids filled with one byte, as in those tests. */
module AclEngineTests {
  import opened AclLabels
  import opened Bytes
  import opened AclEngine
  import DotSets
  import R = AclRules

  function DocOf(i: byte): DocId {
    seq(32, _ => i)
  }

  function PeerOf(i: byte): PeerId {
    seq(32, _ => i)
  }

  function DocRoot(i: byte): Label { Root(DocOf(i)) }
  function DocDot(i: byte, n: nat): Dot { DotSets.Dot(OfDoc(DocOf(i)), n) }
  function PeerDot(i: byte, n: nat): Dot { DotSets.Dot(OfPeer(PeerOf(i)), n) }
  function PeerA(): Actor { Peer(PeerOf(97)) }
  function PeerB(): Actor { Peer(PeerOf(98)) }
  function PeerC(): Actor { Peer(PeerOf(99)) }

  /** `test_la_says_can`: document 9 grants peer `a` Write on its root and
      Read on document 42's root. */
  function LocalClaims(): set<Says> {
    {R.SaysCan(DocDot(9, 1), Doc(DocOf(9)), Grant(PeerA(), Write, DocRoot(9))),
     R.SaysCan(DocDot(9, 2), Doc(DocOf(9)), Grant(PeerA(), Read, DocRoot(42)))}
  }

  lemma LocalStated(claims: set<Says>, id: Dot, who: Actor, c: Can)
    requires claims == LocalClaims()
    requires R.SaysCan(id, who, c) in claims
    ensures who == Doc(DocOf(9))
    ensures c == Grant(PeerA(), Write, DocRoot(9)) || c == Grant(PeerA(), Read, DocRoot(42))
  {
  }

  lemma LocalShape(claims: set<Says>)
    requires claims == LocalClaims()
    ensures forall s | s in claims :: s.SaysCan?
  {
  }

  lemma LocalAuthorized(claims: set<Says>, y: Fact)
    requires claims == LocalClaims()
    requires y in R.Lfp(Semantics(), claims) && y.Authorized?
    ensures y.author == Doc(DocOf(9))
    ensures y.can == Grant(PeerA(), Write, DocRoot(9)) || y.can == Grant(PeerA(), Read, DocRoot(42))
  {
    LocalShape(claims);
    R.AuthorizedWasStated(Semantics(), claims, y);
    LocalStated(claims, y.id, y.author, y.can);
  }

  /** The grant on document 42 is not authorized: document 9 does not speak
      for it, and nobody holds a grant that lets document 9 delegate. */
  lemma LocalOnlyRoot(claims: set<Says>, y: Fact)
    requires claims == LocalClaims()
    requires y in R.Lfp(Semantics(), claims) && y.Authorized?
    ensures y.can == Grant(PeerA(), Write, DocRoot(9))
  {
    LocalAuthorized(claims, y);
    if y.can != Grant(PeerA(), Write, DocRoot(9)) {
      assert DocOf(9)[0] != DocOf(42)[0];
      R.AuthorizedHasReason(Semantics(), claims, y.id, y.author, y.can);
      var a :| a in R.Lfp(Semantics(), claims) && a.Authorized? && Semantics().speaker(y.author) == a.can.actor;
      LocalAuthorized(claims, a);
    }
  }

  /** Peer `a` may write, and so read, anywhere in document 9 but not own
      it; peer `b` may do nothing there; and the grant on document 42 has no
      effect. */
  lemma LocalAuthorityGrants(claims: set<Says>)
    requires claims == LocalClaims()
    ensures !Allows(claims, Grant(PeerB(), Read, DocRoot(9)))
    ensures Allows(claims, Grant(PeerA(), Write, DocRoot(9)))
    ensures Allows(claims, Grant(PeerA(), Read, DocRoot(9)))
    ensures !Allows(claims, Grant(PeerA(), Own, DocRoot(9)))
    ensures Allows(claims, Grant(PeerA(), Write, Field(DocRoot(9), "contacts")))
    ensures !Allows(claims, Grant(PeerA(), Read, DocRoot(42)))
  {
    var rule := Grant(PeerA(), Write, DocRoot(9));
    LocalShape(claims);
    var a := R.Authorized(DocDot(9, 1), Doc(DocOf(9)), rule);
    R.AuthorityGrantsAndRevokes(Semantics(), claims, a.id, a.author, a.can, a.author);
    R.RevokedOnlyIfNamed(Semantics(), claims, a.id);
    assert IsAncestor(DocRoot(9), Field(DocRoot(9), "contacts"));
    AllowedBy(claims, a, Grant(PeerA(), Write, DocRoot(9)));
    AllowedBy(claims, a, Grant(PeerA(), Read, DocRoot(9)));
    AllowedBy(claims, a, Grant(PeerA(), Write, Field(DocRoot(9), "contacts")));
    LocalAuthorityDenies(claims);
  }

  /** The denials of `LocalAuthorityGrants`: every fact in force is the one
      grant to `a`, which covers none of these requests. */
  lemma LocalAuthorityDenies(claims: set<Says>)
    requires claims == LocalClaims()
    ensures !Allows(claims, Grant(PeerB(), Read, DocRoot(9)))
    ensures !Allows(claims, Grant(PeerA(), Own, DocRoot(9)))
    ensures !Allows(claims, Grant(PeerA(), Read, DocRoot(42)))
  {
    var rule := Grant(PeerA(), Write, DocRoot(9));
    assert PeerOf(97)[0] != PeerOf(98)[0];
    assert DocOf(9)[0] != DocOf(42)[0];
    forall y | y in R.Lfp(Semantics(), claims) && y.Authorized? ensures y.can == rule {
      LocalOnlyRoot(claims, y);
    }
    DeniedUnless(claims, Grant(PeerB(), Read, DocRoot(9)));
    DeniedUnless(claims, Grant(PeerA(), Own, DocRoot(9)));
    DeniedUnless(claims, Grant(PeerA(), Read, DocRoot(42)));
  }

  /** Ids filled with different bytes differ. */
  lemma Distinct(i: byte, j: byte)
    requires i != j
    ensures DocOf(i) != DocOf(j) && PeerOf(i) != PeerOf(j)
  {
    assert DocOf(i)[0] != DocOf(j)[0];
    assert PeerOf(i)[0] != PeerOf(j)[0];
  }

  /** `test_says_if` (with `who` peer `a`) and `test_says_if_unbound` (with
      `who` unbound): document 9 grants Write on its root to whoever may
      read document 42's contacts. */
  function CondClaims(who: Actor): set<Says> {
    {R.SaysCanIf(DocDot(9, 1), Doc(DocOf(9)), Grant(who, Write, DocRoot(9)),
                 Grant(who, Read, Field(DocRoot(42), "contacts")))}
  }

  /** Document 42 then grants peer `a` Write on its root. */
  function CondMetClaims(who: Actor): set<Says> {
    CondClaims(who) + {R.SaysCan(DocDot(42, 1), Doc(DocOf(42)), Grant(PeerA(), Write, DocRoot(42)))}
  }

  /** Before the condition holds the grant gives nothing, ... */
  lemma ConditionUnmet(claims: set<Says>, who: Actor)
    requires claims == CondClaims(who)
    ensures !Allows(claims, Grant(PeerA(), Read, DocRoot(9)))
  {
    assert forall s | s in claims :: !s.SaysCan?;
    R.OnlyConditionsWithoutGrants(Semantics(), claims);
    DeniedUnless(claims, Grant(PeerA(), Read, DocRoot(9)));
  }

  lemma CondMetShape(claims: set<Says>, who: Actor)
    requires claims == CondMetClaims(who)
    ensures R.SaysCanIf(DocDot(9, 1), Doc(DocOf(9)), Grant(who, Write, DocRoot(9)),
                        Grant(who, Read, Field(DocRoot(42), "contacts"))) in claims
    ensures R.SaysCan(DocDot(42, 1), Doc(DocOf(42)), Grant(PeerA(), Write, DocRoot(42))) in claims
    ensures forall s | s in claims :: !s.SaysRevokes?
  {
  }

  /** ... and once document 42 grants peer `a` Write, the condition binds
      the grant to peer `a`, whether it named peer `a` or was unbound. */
  lemma ConditionMet(claims: set<Says>, who: Actor)
    requires claims == CondMetClaims(who)
    requires who == PeerA() || who == Unbound
    ensures Allows(claims, Grant(PeerA(), Read, DocRoot(9)))
  {
    CondMetShape(claims, who);
    var g42 := Grant(PeerA(), Write, DocRoot(42));
    var a42 := R.Authorized(DocDot(42, 1), Doc(DocOf(42)), g42);
    R.AuthorityGrantsAndRevokes(Semantics(), claims, a42.id, a42.author, g42, a42.author);
    var cond := Grant(who, Read, Field(DocRoot(42), "contacts"));
    assert IsAncestor(DocRoot(42), cond.scope);
    R.LfpCondition(Semantics(), claims, DocDot(9, 1), Doc(DocOf(9)), Grant(who, Write, DocRoot(9)), cond, a42);
    var g9 := Grant(PeerA(), Write, DocRoot(9));
    assert R.Bind(Grant(who, Write, DocRoot(9)), g42) == g9;
    R.LfpAuthority(Semantics(), claims, DocDot(9, 1), Doc(DocOf(9)), g9);
    R.RevokedOnlyIfNamed(Semantics(), claims, DocDot(9, 1));
    AllowedBy(claims, R.Authorized(DocDot(9, 1), Doc(DocOf(9)), g9), Grant(PeerA(), Read, DocRoot(9)));
  }

  /** `test_own_and_control`: document 0 makes peer `a` owner of its root,
      peer `a` gives peer `b` control of it, and peer `b` tries to make peer
      `c` owner of its contacts. */
  function ControlClaims(): set<Says> {
    {R.SaysCan(DocDot(0, 1), Doc(DocOf(0)), Grant(PeerA(), Own, DocRoot(0))),
     R.SaysCan(PeerDot(97, 1), PeerA(), Grant(PeerB(), Control, DocRoot(0))),
     R.SaysCan(PeerDot(98, 1), PeerB(), Grant(PeerC(), Own, Field(DocRoot(0), "contacts")))}
  }

  /** Peer `b` then grants peer `c` Read on the contacts. */
  function ControlReadClaims(): set<Says> {
    ControlClaims() + {R.SaysCan(PeerDot(98, 3), PeerB(), Grant(PeerC(), Read, Field(DocRoot(0), "contacts")))}
  }

  lemma ControlStated(claims: set<Says>, id: Dot, who: Actor, c: Can)
    requires claims == ControlClaims()
    requires R.SaysCan(id, who, c) in claims
    ensures c == Grant(PeerA(), Own, DocRoot(0)) || c == Grant(PeerB(), Control, DocRoot(0)) ||
      (who == PeerB() && c == Grant(PeerC(), Own, Field(DocRoot(0), "contacts")))
  {
  }

  lemma ControlShape(claims: set<Says>)
    requires claims == ControlClaims()
    ensures forall s | s in claims :: s.SaysCan?
  {
  }

  lemma ControlAuthorized(claims: set<Says>, y: Fact)
    requires claims == ControlClaims()
    requires y in R.Lfp(Semantics(), claims) && y.Authorized?
    ensures y.can == Grant(PeerA(), Own, DocRoot(0)) || y.can == Grant(PeerB(), Control, DocRoot(0)) ||
      (y.author == PeerB() && y.can == Grant(PeerC(), Own, Field(DocRoot(0), "contacts")))
  {
    ControlShape(claims);
    R.AuthorizedWasStated(Semantics(), claims, y);
    ControlStated(claims, y.id, y.author, y.can);
  }

  /** Control does not let peer `b` hand out ownership. */
  lemma ControlCannotGrantOwn(claims: set<Says>, y: Fact)
    requires claims == ControlClaims()
    requires y in R.Lfp(Semantics(), claims) && y.Authorized?
    ensures y.can.actor != PeerC()
  {
    Distinct(97, 99);
    Distinct(98, 99);
    ControlAuthorized(claims, y);
    if y.can.actor == PeerC() {
      R.AuthorizedHasReason(Semantics(), claims, y.id, y.author, y.can);
      var a :| a in R.Lfp(Semantics(), claims) && a.Authorized? && Semantics().speaker(y.author) == a.can.actor &&
        (a.can.perm == Rank(Own) || (a.can.perm == Rank(Control) && Semantics().controllable(y.can.perm)));
      ControlAuthorized(claims, a);
      Distinct(97, 98);
    }
  }

  lemma ControlDenies(claims: set<Says>)
    requires claims == ControlClaims()
    ensures !Allows(claims, Grant(PeerC(), Read, Field(DocRoot(0), "contacts")))
  {
    forall y | y in R.Lfp(Semantics(), claims) && y.Authorized? ensures y.can.actor != PeerC() {
      ControlCannotGrantOwn(claims, y);
    }
    forall y | y in R.Lfp(Semantics(), claims) && y.Authorized? ensures y.can.actor != Anonymous {
      ControlAuthorized(claims, y);
    }
    DeniedUnless(claims, Grant(PeerC(), Read, Field(DocRoot(0), "contacts")));
  }

  lemma ControlReadShape(claims: set<Says>)
    requires claims == ControlReadClaims()
    ensures R.SaysCan(DocDot(0, 1), Doc(DocOf(0)), Grant(PeerA(), Own, DocRoot(0))) in claims
    ensures R.SaysCan(PeerDot(97, 1), PeerA(), Grant(PeerB(), Control, DocRoot(0))) in claims
    ensures R.SaysCan(PeerDot(98, 3), PeerB(), Grant(PeerC(), Read, Field(DocRoot(0), "contacts"))) in claims
    ensures forall s | s in claims :: !s.SaysRevokes?
  {
  }

  /** But control does let peer `b` grant a controllable permission. */
  lemma ControlGrantsRead(claims: set<Says>)
    requires claims == ControlReadClaims()
    ensures Allows(claims, Grant(PeerC(), Read, Field(DocRoot(0), "contacts")))
  {
    ControlReadShape(claims);
    var I := Semantics();
    var ga, gb, gc := Grant(PeerA(), Own, DocRoot(0)), Grant(PeerB(), Control, DocRoot(0)),
      Grant(PeerC(), Read, Field(DocRoot(0), "contacts"));
    R.AuthorityGrantsAndRevokes(I, claims, DocDot(0, 1), Doc(DocOf(0)), ga, Doc(DocOf(0)));
    R.LfpSays(I, claims, PeerDot(97, 1), PeerA(), gb);
    R.LfpDelegation(I, claims, PeerDot(97, 1), PeerA(), gb, R.Authorized(DocDot(0, 1), Doc(DocOf(0)), ga));
    R.LfpSays(I, claims, PeerDot(98, 3), PeerB(), gc);
    assert IsAncestor(DocRoot(0), gc.scope);
    R.LfpDelegation(I, claims, PeerDot(98, 3), PeerB(), gc, R.Authorized(PeerDot(97, 1), PeerA(), gb));
    R.RevokedOnlyIfNamed(Semantics(), claims, PeerDot(98, 3));
    AllowedBy(claims, R.Authorized(PeerDot(98, 3), PeerB(), gc), gc);
  }

  /** `test_revoke`: document 0 makes peer `a` owner of its root, ... */
  function OwnerClaims(): set<Says> {
    {R.SaysCan(DocDot(0, 1), Doc(DocOf(0)), Grant(PeerA(), Own, DocRoot(0)))}
  }

  /** ... and then revokes that grant. */
  function RevokedOwnerClaims(): set<Says> {
    OwnerClaims() + {R.SaysRevokes(Doc(DocOf(0)), DocDot(0, 1))}
  }

  lemma OwnerGranted(claims: set<Says>)
    requires claims == OwnerClaims()
    ensures Allows(claims, Grant(PeerA(), Own, DocRoot(0)))
  {
    var a := R.Authorized(DocDot(0, 1), Doc(DocOf(0)), Grant(PeerA(), Own, DocRoot(0)));
    R.AuthorityGrantsAndRevokes(Semantics(), claims, a.id, a.author, a.can, a.author);
    R.RevokedOnlyIfNamed(Semantics(), claims, a.id);
    AllowedBy(claims, a, a.can);
  }

  lemma RevokedOwnerShape(claims: set<Says>)
    requires claims == RevokedOwnerClaims()
    ensures R.SaysCan(DocDot(0, 1), Doc(DocOf(0)), Grant(PeerA(), Own, DocRoot(0))) in claims
    ensures R.SaysRevokes(Doc(DocOf(0)), DocDot(0, 1)) in claims
    ensures forall s | s in claims :: !s.SaysCanIf?
    ensures forall id, who, c | R.SaysCan(id, who, c) in claims :: id == DocDot(0, 1)
  {
  }

  /** Once revoked, the grant gives nothing. */
  lemma OwnerRevoked(claims: set<Says>)
    requires claims == RevokedOwnerClaims()
    ensures !Allows(claims, Grant(PeerA(), Own, DocRoot(0)))
  {
    RevokedOwnerShape(claims);
    var g := Grant(PeerA(), Own, DocRoot(0));
    R.AuthorityGrantsAndRevokes(Semantics(), claims, DocDot(0, 1), Doc(DocOf(0)), g, Doc(DocOf(0)));
    forall y | y in R.Lfp(Semantics(), claims) && y.Authorized? ensures y.id == DocDot(0, 1) {
      R.AuthorizedWasStated(Semantics(), claims, y);
    }
    DeniedUnless(claims, g);
  }

  /** `test_revoke_trans`: document 0 makes peer `a` owner of its root and
      peer `a` makes peer `b` owner too, ... */
  function ChainClaims(): set<Says> {
    {R.SaysCan(DocDot(0, 1), Doc(DocOf(0)), Grant(PeerA(), Own, DocRoot(0))),
     R.SaysCan(PeerDot(97, 1), PeerA(), Grant(PeerB(), Own, DocRoot(0)))}
  }

  /** ... then document 0 revokes peer `a`'s grant to peer `b`. */
  function ChainRevokedClaims(): set<Says> {
    ChainClaims() + {R.SaysRevokes(Doc(DocOf(0)), PeerDot(97, 1))}
  }

  /** `test_cant_revoke_inv`: instead peer `b` tries to revoke that grant. */
  function ChainSelfRevokedClaims(): set<Says> {
    ChainClaims() + {R.SaysRevokes(PeerB(), PeerDot(97, 1))}
  }

  lemma ChainShape(claims: set<Says>, revoker: Actor)
    requires claims == ChainClaims() || claims == ChainRevokedClaims() || claims == ChainSelfRevokedClaims()
    requires revoker == (if claims == ChainRevokedClaims() then Doc(DocOf(0)) else PeerB())
    ensures R.SaysCan(DocDot(0, 1), Doc(DocOf(0)), Grant(PeerA(), Own, DocRoot(0))) in claims
    ensures R.SaysCan(PeerDot(97, 1), PeerA(), Grant(PeerB(), Own, DocRoot(0))) in claims
    ensures forall s | s in claims :: !s.SaysCanIf?
    ensures forall s | s in claims && s.SaysRevokes? :: s == R.SaysRevokes(revoker, PeerDot(97, 1))
  {
  }

  lemma ChainStated(claims: set<Says>, id: Dot, who: Actor, c: Can)
    requires claims == ChainClaims() || claims == ChainRevokedClaims() || claims == ChainSelfRevokedClaims()
    requires R.SaysCan(id, who, c) in claims
    ensures (id == DocDot(0, 1) && c == Grant(PeerA(), Own, DocRoot(0))) ||
      (id == PeerDot(97, 1) && who == PeerA() && c == Grant(PeerB(), Own, DocRoot(0)))
  {
  }

  /** Before any revocation both owners hold their grants. */
  lemma ChainGrants(claims: set<Says>, revoker: Actor)
    requires claims == ChainClaims() || claims == ChainRevokedClaims() || claims == ChainSelfRevokedClaims()
    requires revoker == (if claims == ChainRevokedClaims() then Doc(DocOf(0)) else PeerB())
    ensures R.Authorized(DocDot(0, 1), Doc(DocOf(0)), Grant(PeerA(), Own, DocRoot(0))) in R.Lfp(Semantics(), claims)
    ensures R.Authorized(PeerDot(97, 1), PeerA(), Grant(PeerB(), Own, DocRoot(0))) in R.Lfp(Semantics(), claims)
    ensures R.Revoked(DocDot(0, 1)) !in R.Lfp(Semantics(), claims)
  {
    ChainShape(claims, revoker);
    var ga, gb := Grant(PeerA(), Own, DocRoot(0)), Grant(PeerB(), Own, DocRoot(0));
    R.AuthorityGrantsAndRevokes(Semantics(), claims, DocDot(0, 1), Doc(DocOf(0)), ga, Doc(DocOf(0)));
    R.LfpSays(Semantics(), claims, PeerDot(97, 1), PeerA(), gb);
    R.LfpDelegation(Semantics(), claims, PeerDot(97, 1), PeerA(), gb, R.Authorized(DocDot(0, 1), Doc(DocOf(0)), ga));
    assert PeerDot(97, 1) != DocDot(0, 1);
    R.RevokedOnlyIfNamed(Semantics(), claims, DocDot(0, 1));
  }

  lemma ChainBothOwn(claims: set<Says>)
    requires claims == ChainClaims()
    ensures Allows(claims, Grant(PeerA(), Own, DocRoot(0)))
    ensures Allows(claims, Grant(PeerB(), Own, DocRoot(0)))
  {
    ChainGrants(claims, PeerB());
    R.RevokedOnlyIfNamed(Semantics(), claims, PeerDot(97, 1));
    AllowedBy(claims, R.Authorized(DocDot(0, 1), Doc(DocOf(0)), Grant(PeerA(), Own, DocRoot(0))), Grant(PeerA(), Own, DocRoot(0)));
    AllowedBy(claims, R.Authorized(PeerDot(97, 1), PeerA(), Grant(PeerB(), Own, DocRoot(0))), Grant(PeerB(), Own, DocRoot(0)));
  }

  /** The document's revocation of the grant to peer `b` takes effect. */
  lemma ChainRevoked(claims: set<Says>)
    requires claims == ChainRevokedClaims()
    ensures !Allows(claims, Grant(PeerB(), Own, DocRoot(0)))
  {
    ChainShape(claims, Doc(DocOf(0)));
    ChainGrants(claims, Doc(DocOf(0)));
    var ga, gb := Grant(PeerA(), Own, DocRoot(0)), Grant(PeerB(), Own, DocRoot(0));
    R.LfpRevocation(Semantics(), claims, Doc(DocOf(0)), PeerDot(97, 1), PeerA(), gb,
                    R.Authorized(DocDot(0, 1), Doc(DocOf(0)), ga));
    Distinct(97, 98);
    forall y | y in R.Lfp(Semantics(), claims) && y.Authorized? && R.Revoked(y.id) !in R.Lfp(Semantics(), claims)
      ensures y.can == ga
    {
      R.AuthorizedWasStated(Semantics(), claims, y);
      ChainStated(claims, y.id, y.author, y.can);
    }
    DeniedUnless(claims, gb);
  }

  /** Peer `b` cannot revoke the grant that made it an owner: it is an owner
      at the same label as the grantor, neither above it nor an authority. */
  lemma ChainSelfRevokeFails(claims: set<Says>)
    requires claims == ChainSelfRevokedClaims()
    ensures R.Revoked(PeerDot(97, 1)) !in R.Lfp(Semantics(), claims)
  {
    if R.Revoked(PeerDot(97, 1)) in R.Lfp(Semantics(), claims) {
      ChainShape(claims, PeerB());
      var r, auth := R.RevokedHasReason(Semantics(), claims, PeerDot(97, 1));
      assert R.SaysRevokes(r.author, PeerDot(97, 1)) in claims;
      R.AuthorizedWasStated(Semantics(), claims, R.Authorized(r.id, r.grantor, r.can));
      ChainStated(claims, r.id, r.grantor, r.can);
      R.AuthorizedWasStated(Semantics(), claims, auth);
      ChainStated(claims, auth.id, auth.author, auth.can);
      Distinct(97, 98);
    }
  }

  /** So both owners keep their ownership. */
  lemma ChainSelfRevoke(claims: set<Says>)
    requires claims == ChainSelfRevokedClaims()
    ensures Allows(claims, Grant(PeerA(), Own, DocRoot(0)))
    ensures Allows(claims, Grant(PeerB(), Own, DocRoot(0)))
  {
    ChainGrants(claims, PeerB());
    ChainSelfRevokeFails(claims);
    AllowedBy(claims, R.Authorized(DocDot(0, 1), Doc(DocOf(0)), Grant(PeerA(), Own, DocRoot(0))), Grant(PeerA(), Own, DocRoot(0)));
    AllowedBy(claims, R.Authorized(PeerDot(97, 1), PeerA(), Grant(PeerB(), Own, DocRoot(0))), Grant(PeerB(), Own, DocRoot(0)));
  }

  /** `test_anonymous_can`: with no statement nobody may read document 9, ... */
  lemma NothingByDefault(req: Can)
    ensures !Allows({}, req)
  {
    var none: set<Says> := {};
    R.OnlyConditionsWithoutGrants(Semantics(), none);
    DeniedUnless(none, req);
  }

  /** ... and once document 9 grants anyone Read, peer `a` may read it. */
  lemma AnonymousReads(claims: set<Says>)
    requires claims == {R.SaysCan(DocDot(9, 1), Doc(DocOf(9)), Grant(Anonymous, Read, DocRoot(9)))}
    ensures Allows(claims, Grant(PeerA(), Read, DocRoot(9)))
  {
    var a := R.Authorized(DocDot(9, 1), Doc(DocOf(9)), Grant(Anonymous, Read, DocRoot(9)));
    R.AuthorityGrantsAndRevokes(Semantics(), claims, a.id, a.author, a.can, a.author);
    R.RevokedOnlyIfNamed(Semantics(), claims, a.id);
    AllowedBy(claims, a, Grant(PeerA(), Read, DocRoot(9)));
  }
}
