/** The access-control rules shared by `crdt/src/acl.rs` and
    `acl/src/engine.rs`, as the least fixpoint of their Datalog program.
    Both files write the same seven rules over statements ("`author` says `can`",
    "`author` says `can` if `cond`", "`author` revokes `claim`"); they differ only in
    what a speaker, an actor and a label are, which this module takes as an
    interpretation `Interp`. Permissions are ranks (`0` is the weakest). */
module AclRules {

  /** `CanRef`: `actor` holds `perm` on everything below `label`. */
  datatype Can<A, L> = Can(actor: A, perm: nat, scope: L)

  /** `Says`: a signed policy statement. */
  datatype Says<D, P, A, L> =
    | SaysCan(id: D, author: P, can: Can<A, L>)
    | SaysCanIf(id: D, author: P, can: Can<A, L>, cond: Can<A, L>)
    | SaysRevokes(author: P, claim: D)

  /** The relations of the Datalog program. */
  datatype Fact<D, P, A, L> =
    | DerivedCan(id: D, author: P, can: Can<A, L>)
    | DerivedCanIf(id: D, author: P, can: Can<A, L>, cond: Can<A, L>)
    | DerivedRevokes(author: P, id: D, grantor: P, can: Can<A, L>)
    | Authorized(id: D, author: P, can: Can<A, L>)
    | Revoked(id: D)

  /** What the two engines supply: the actor a speaker acts as, the two
      wildcard actors, label ancestry, who speaks for the root of a label,
      who may revoke at the same label, which permissions `Control` may
      grant, and the ranks of `Control` and `Own`. */
  datatype Interp<!P, !A, !L> = Interp(
    speaker: P -> A,
    unbound: A,
    anonymous: A,
    ancestor: (L, L) -> bool,
    localAuthority: (P, L) -> bool,
    revokeAuthority: (P, L) -> bool,
    controllable: nat -> bool,
    control: nat,
    own: nat)

  /** `implies`: a rule covers a request for the same actor (or a rule for
      anyone, or a request left unbound), at most its permission, at or below
      its label. */
  predicate Implies<P, A(==), L>(I: Interp<P, A, L>, rule: Can<A, L>, req: Can<A, L>) {
    (req.actor == rule.actor || req.actor == I.unbound || rule.actor == I.anonymous) &&
    req.perm <= rule.perm && I.ancestor(rule.scope, req.scope)
  }

  /** `bind`: the conditional grant, given to the actor of the rule that met
      the condition. */
  function Bind<A, L>(can: Can<A, L>, rule: Can<A, L>): (r: Can<A, L>)
    ensures r.actor == rule.actor && r.perm == can.perm && r.scope == can.scope
  {
    Can(rule.actor, can.perm, can.scope)
  }

  /** The ownership and control rules: the speaker holds `auth` on an
      ancestor label, as owner, or with `Control` for a controllable grant. */
  predicate Delegates<D, P, A(==), L>(I: Interp<P, A, L>, c: Fact<D, P, A, L>, auth: Can<A, L>)
    requires c.DerivedCan?
  {
    I.speaker(c.author) == auth.actor && I.ancestor(auth.scope, c.can.scope) &&
    (auth.perm == I.own || (auth.perm == I.control && I.controllable(c.can.perm)))
  }

  /** The revocation rule: the revoker holds `auth` with at least `Control`
      (or speaks for the root), and `auth` sits strictly above the grant with
      no less permission, or at the grant's label with more permission, or the
      revoker is the grantor or an authority. */
  predicate Overrides<D, P(==), A(==), L(==)>(I: Interp<P, A, L>, r: Fact<D, P, A, L>, auth: Can<A, L>)
    requires r.DerivedRevokes?
  {
    ((I.speaker(r.author) == auth.actor && auth.perm >= I.control) || I.localAuthority(r.author, r.can.scope)) &&
    ((I.ancestor(auth.scope, r.can.scope) && auth.scope != r.can.scope && auth.perm >= r.can.perm) ||
     (auth.scope == r.can.scope &&
      (auth.perm > r.can.perm || r.author == r.grantor || I.revokeAuthority(r.author, r.can.scope))))
  }

  /** `DerivedCan(id, author, can) <- Says::Can(id, author, can)`. */
  function FromSays<D(==), P(==), A(==), L(==)>(claims: set<Says<D, P, A, L>>): (r: set<Fact<D, P, A, L>>)
    ensures forall f | f in r :: f.DerivedCan?
  {
    set s | s in claims && s.SaysCan? :: DerivedCan(s.id, s.author, s.can)
  }

  /** `DerivedCanIf(..) <- Says::CanIf(..)`. */
  function FromSaysIf<D(==), P(==), A(==), L(==)>(claims: set<Says<D, P, A, L>>): (r: set<Fact<D, P, A, L>>)
    ensures forall f | f in r :: f.DerivedCanIf?
  {
    set s | s in claims && s.SaysCanIf? :: DerivedCanIf(s.id, s.author, s.can, s.cond)
  }

  /** `DerivedRevokes(author, id, grantor, can) <- Says::Revokes(author, id),
      Authorized(id, grantor, can)`. */
  function FromRevokes<D(==), P(==), A(==), L(==)>(claims: set<Says<D, P, A, L>>, F: set<Fact<D, P, A, L>>)
    : (r: set<Fact<D, P, A, L>>)
    ensures forall f | f in r :: f.DerivedRevokes?
  {
    set s, a | s in claims && s.SaysRevokes? && a in F && a.Authorized? && a.id == s.claim ::
      DerivedRevokes(s.author, s.claim, a.author, a.can)
  }

  /** Conditional resolution: a conditional grant whose condition some
      authorized grant implies becomes a grant bound to that grant's actor. */
  function FromCondition<D(==), P(==), A(==), L(==)>(I: Interp<P, A, L>, F: set<Fact<D, P, A, L>>)
    : (r: set<Fact<D, P, A, L>>)
    ensures forall f | f in r :: f.DerivedCan?
  {
    set c, a | c in F && c.DerivedCanIf? && a in F && a.Authorized? && Implies(I, a.can, c.cond) ::
      DerivedCan(c.id, c.author, Bind(c.can, a.can))
  }

  /** The local-authority rule: whoever speaks for the root may grant. */
  function FromAuthority<D(==), P(==), A(==), L(==)>(I: Interp<P, A, L>, F: set<Fact<D, P, A, L>>)
    : (r: set<Fact<D, P, A, L>>)
    ensures forall f | f in r :: f.Authorized?
  {
    set c | c in F && c.DerivedCan? && I.localAuthority(c.author, c.can.scope) :: Authorized(c.id, c.author, c.can)
  }

  /** The ownership and control rules. */
  function FromDelegation<D(==), P(==), A(==), L(==)>(I: Interp<P, A, L>, F: set<Fact<D, P, A, L>>)
    : (r: set<Fact<D, P, A, L>>)
    ensures forall f | f in r :: f.Authorized?
  {
    set c, a | c in F && c.DerivedCan? && a in F && a.Authorized? && Delegates(I, c, a.can) ::
      Authorized(c.id, c.author, c.can)
  }

  /** The revocation rule. */
  function FromRevocation<D(==), P(==), A(==), L(==)>(I: Interp<P, A, L>, F: set<Fact<D, P, A, L>>)
    : (r: set<Fact<D, P, A, L>>)
    ensures forall f | f in r :: f.Revoked?
  {
    set r, a | r in F && r.DerivedRevokes? && a in F && a.Authorized? && Overrides(I, r, a.can) :: Revoked(r.id)
  }

  /** One round of every rule of the program over the facts `F`. */
  function Consequences<D(==), P(==), A(==), L(==)>(I: Interp<P, A, L>, claims: set<Says<D, P, A, L>>,
                                                      F: set<Fact<D, P, A, L>>): set<Fact<D, P, A, L>> {
    FromSays(claims) + FromSaysIf(claims) + FromRevokes(claims, F) + FromCondition(I, F)
    + FromAuthority(I, F) + FromDelegation(I, F) + FromRevocation(I, F)
  }

  /** A set of facts that every rule leaves as it is. */
  predicate Closed<D(==), P(==), A(==), L(==)>(I: Interp<P, A, L>, claims: set<Says<D, P, A, L>>,
                                                 G: set<Fact<D, P, A, L>>) {
    Consequences(I, claims, G) <= G
  }

  /** Adding facts only adds consequences. */
  lemma Monotone<D, P, A, L>(I: Interp<P, A, L>, claims: set<Says<D, P, A, L>>,
                             F: set<Fact<D, P, A, L>>, G: set<Fact<D, P, A, L>>)
    requires F <= G
    ensures Consequences(I, claims, F) <= Consequences(I, claims, G)
  {
    forall f | f in FromRevokes(claims, F) ensures f in FromRevokes(claims, G) {
      var s, a :| s in claims && s.SaysRevokes? && a in F && a.Authorized? && a.id == s.claim &&
        f == DerivedRevokes(s.author, s.claim, a.author, a.can);
    }
    forall f | f in FromCondition(I, F) ensures f in FromCondition(I, G) {
      var c, a :| c in F && c.DerivedCanIf? && a in F && a.Authorized? && Implies(I, a.can, c.cond) &&
        f == DerivedCan(c.id, c.author, Bind(c.can, a.can));
    }
    forall f | f in FromAuthority(I, F) ensures f in FromAuthority(I, G) {
      var c :| c in F && c.DerivedCan? && I.localAuthority(c.author, c.can.scope) && f == Authorized(c.id, c.author, c.can);
    }
    forall f | f in FromDelegation(I, F) ensures f in FromDelegation(I, G) {
      var c, a :| c in F && c.DerivedCan? && a in F && a.Authorized? && Delegates(I, c, a.can) &&
        f == Authorized(c.id, c.author, c.can);
    }
    forall f | f in FromRevocation(I, F) ensures f in FromRevocation(I, G) {
      var r, a :| r in F && r.DerivedRevokes? && a in F && a.Authorized? && Overrides(I, r, a.can) && f == Revoked(r.id);
    }
  }

  /** The identifiers, speakers, actors and grant shapes the statements
      mention. */
  function Ids<D(==), P(==), A(==), L(==)>(claims: set<Says<D, P, A, L>>): set<D> {
    (set s | s in claims && !s.SaysRevokes? :: s.id) + (set s | s in claims && s.SaysRevokes? :: s.claim)
  }

  function Speakers<D(==), P(==), A(==), L(==)>(claims: set<Says<D, P, A, L>>): set<P> {
    set s | s in claims :: s.author
  }

  /** The grants of the universe: every actor granted anything, with every
      permission and label granted. */
  function Cans<D(==), P(==), A(==), L(==)>(claims: set<Says<D, P, A, L>>): set<Can<A, L>> {
    set s, t | s in claims && !s.SaysRevokes? && t in claims && !t.SaysRevokes? :: Can(t.can.actor, s.can.perm, s.can.scope)
  }

  /** Every fact the program can ever derive from the statements. */
  predicate InUniverse<D(==), P(==), A(==), L(==)>(claims: set<Says<D, P, A, L>>, f: Fact<D, P, A, L>) {
    match f
    case DerivedCan(id, author, can) => id in Ids(claims) && author in Speakers(claims) && can in Cans(claims)
    case DerivedCanIf(id, author, can, cond) => SaysCanIf(id, author, can, cond) in claims
    case DerivedRevokes(author, id, grantor, can) =>
      author in Speakers(claims) && id in Ids(claims) && grantor in Speakers(claims) && can in Cans(claims)
    case Authorized(id, author, can) => id in Ids(claims) && author in Speakers(claims) && can in Cans(claims)
    case Revoked(id) => id in Ids(claims)
  }

  /** The universe as a finite set. */
  function Universe<D(==), P(==), A(==), L(==)>(claims: set<Says<D, P, A, L>>): set<Fact<D, P, A, L>> {
    var ids := Ids(claims);
    var speakers := Speakers(claims);
    var cans := Cans(claims);
    (set i, b, c | i in ids && b in speakers && c in cans :: DerivedCan(i, b, c))
    + (set s | s in claims && s.SaysCanIf? :: DerivedCanIf(s.id, s.author, s.can, s.cond))
    + (set b, i, g, c | b in speakers && i in ids && g in speakers && c in cans :: DerivedRevokes(b, i, g, c))
    + (set i, b, c | i in ids && b in speakers && c in cans :: Authorized(i, b, c))
    + (set i | i in ids :: Revoked(i))
  }

  lemma UniverseMembers<D, P, A, L>(claims: set<Says<D, P, A, L>>, f: Fact<D, P, A, L>)
    ensures f in Universe(claims) <==> InUniverse(claims, f)
  {
    if f.DerivedCanIf? && InUniverse(claims, f) {
      var s := SaysCanIf(f.id, f.author, f.can, f.cond);
      assert DerivedCanIf(s.id, s.author, s.can, s.cond) == f;
    }
  }

  /** Each rule stays in the universe. */
  lemma SaysInUniverse<D, P, A, L>(claims: set<Says<D, P, A, L>>, f: Fact<D, P, A, L>)
    requires f in FromSays(claims)
    ensures InUniverse(claims, f)
  {
    var s :| s in claims && s.SaysCan? && f == DerivedCan(s.id, s.author, s.can);
    assert s.can == Can(s.can.actor, s.can.perm, s.can.scope);
    assert s.id in Ids(claims) && s.author in Speakers(claims) && s.can in Cans(claims);
  }

  lemma ConditionInUniverse<D, P, A, L>(I: Interp<P, A, L>, claims: set<Says<D, P, A, L>>,
                                        F: set<Fact<D, P, A, L>>, f: Fact<D, P, A, L>)
    requires forall g | g in F :: InUniverse(claims, g)
    requires f in FromCondition(I, F)
    ensures InUniverse(claims, f)
  {
    var c, a :| c in F && c.DerivedCanIf? && a in F && a.Authorized? && Implies(I, a.can, c.cond) &&
      f == DerivedCan(c.id, c.author, Bind(c.can, a.can));
    assert InUniverse(claims, c) && InUniverse(claims, a);
    var s := SaysCanIf(c.id, c.author, c.can, c.cond);
    var t, u :| t in claims && !t.SaysRevokes? && u in claims && !u.SaysRevokes? &&
      a.can == Can(u.can.actor, t.can.perm, t.can.scope);
    assert Bind(c.can, a.can) == Can(u.can.actor, s.can.perm, s.can.scope);
    assert s.id in Ids(claims) && s.author in Speakers(claims);
  }

  lemma RevokesInUniverse<D, P, A, L>(claims: set<Says<D, P, A, L>>, F: set<Fact<D, P, A, L>>, f: Fact<D, P, A, L>)
    requires forall g | g in F :: InUniverse(claims, g)
    requires f in FromRevokes(claims, F)
    ensures InUniverse(claims, f)
  {
    var s, a :| s in claims && s.SaysRevokes? && a in F && a.Authorized? && a.id == s.claim &&
      f == DerivedRevokes(s.author, s.claim, a.author, a.can);
    assert InUniverse(claims, a);
    assert s.author in Speakers(claims) && s.claim in Ids(claims);
  }

  lemma AuthorizedInUniverse<D, P, A, L>(I: Interp<P, A, L>, claims: set<Says<D, P, A, L>>,
                                         F: set<Fact<D, P, A, L>>, f: Fact<D, P, A, L>)
    requires forall g | g in F :: InUniverse(claims, g)
    requires f in FromAuthority(I, F) || f in FromDelegation(I, F)
    ensures InUniverse(claims, f)
  {
    assert DerivedCan(f.id, f.author, f.can) in F;
  }

  lemma RevokedInUniverse<D, P, A, L>(I: Interp<P, A, L>, claims: set<Says<D, P, A, L>>,
                                      F: set<Fact<D, P, A, L>>, f: Fact<D, P, A, L>)
    requires forall g | g in F :: InUniverse(claims, g)
    requires f in FromRevocation(I, F)
    ensures InUniverse(claims, f)
  {
    var r, a :| r in F && r.DerivedRevokes? && a in F && a.Authorized? && Overrides(I, r, a.can) && f == Revoked(r.id);
    assert InUniverse(claims, r);
  }

  /** No rule leaves the universe. */
  lemma ConsequencesInUniverse<D, P, A, L>(I: Interp<P, A, L>, claims: set<Says<D, P, A, L>>, F: set<Fact<D, P, A, L>>)
    requires F <= Universe(claims)
    ensures Consequences(I, claims, F) <= Universe(claims)
  {
    forall g | g in F ensures InUniverse(claims, g) {
      UniverseMembers(claims, g);
    }
    forall f | f in Consequences(I, claims, F) ensures f in Universe(claims) {
      UniverseMembers(claims, f);
      if f in FromSays(claims) {
        SaysInUniverse(claims, f);
      } else if f in FromSaysIf(claims) {
      } else if f in FromRevokes(claims, F) {
        RevokesInUniverse(claims, F, f);
      } else if f in FromCondition(I, F) {
        ConditionInUniverse(I, claims, F, f);
      } else if f in FromRevocation(I, F) {
        RevokedInUniverse(I, claims, F, f);
      } else {
        AuthorizedInUniverse(I, claims, F, f);
      }
    }
  }

  /** Applies the rules from `F` until nothing changes. */
  function Iterate<D(==), P(==), A(==), L(==)>(I: Interp<P, A, L>, claims: set<Says<D, P, A, L>>,
                                                F: set<Fact<D, P, A, L>>): set<Fact<D, P, A, L>>
    requires F <= Universe(claims) && F <= Consequences(I, claims, F)
    decreases Universe(claims) - F
  {
    var next := Consequences(I, claims, F);
    if next == F then F
    else
      Monotone(I, claims, F, next);
      ConsequencesInUniverse(I, claims, F);
      Iterate(I, claims, next)
  }

  /** Iteration from below a closed set ends at a fixpoint below it. */
  lemma {:induction false} IterateReachesFixpoint<D(!new), P(!new), A(!new), L(!new)>(
    I: Interp<P, A, L>, claims: set<Says<D, P, A, L>>, F: set<Fact<D, P, A, L>>)
    requires F <= Universe(claims) && F <= Consequences(I, claims, F)
    ensures Consequences(I, claims, Iterate(I, claims, F)) == Iterate(I, claims, F)
    ensures forall G | Closed(I, claims, G) && F <= G :: Iterate(I, claims, F) <= G
    decreases Universe(claims) - F
  {
    var next := Consequences(I, claims, F);
    if next != F {
      Monotone(I, claims, F, next);
      ConsequencesInUniverse(I, claims, F);
      IterateReachesFixpoint(I, claims, next);
      forall G | Closed(I, claims, G) && F <= G ensures next <= G {
        Monotone(I, claims, F, G);
      }
    }
  }

  /** `runtime.run()`: the facts the rules derive from the statements. */
  function Lfp<D(==), P(==), A(==), L(==)>(I: Interp<P, A, L>, claims: set<Says<D, P, A, L>>): set<Fact<D, P, A, L>> {
    Iterate(I, claims, {})
  }

  /** They form the least fixpoint of the rules: closed under the rules,
      each of them a consequence of the others, and inside every closed
      set. */
  lemma LfpIsLeastFixpoint<D(!new), P(!new), A(!new), L(!new)>(I: Interp<P, A, L>, claims: set<Says<D, P, A, L>>)
    ensures Consequences(I, claims, Lfp(I, claims)) == Lfp(I, claims)
    ensures forall G | Closed(I, claims, G) :: Lfp(I, claims) <= G
  {
    IterateReachesFixpoint(I, claims, {});
  }

  /** The fixpoint mentions only what the statements mention. */
  lemma LfpInUniverse<D(!new), P(!new), A(!new), L(!new)>(I: Interp<P, A, L>, claims: set<Says<D, P, A, L>>)
    ensures Lfp(I, claims) <= Universe(claims)
  {
    LfpIsLeastFixpoint(I, claims);
    ConsequencesInUniverse(I, claims, Universe(claims));
  }

  /** `rules`: the grants that are authorized and not revoked. */
  function Rules<D(==), P(==), A(==), L(==)>(F: set<Fact<D, P, A, L>>): set<Can<A, L>> {
    set a | a in F && a.Authorized? && Revoked(a.id) !in F :: a.can
  }

  /** Which rule can have produced a consequence of each kind. */
  lemma RuleOf<D, P, A, L>(I: Interp<P, A, L>, claims: set<Says<D, P, A, L>>, F: set<Fact<D, P, A, L>>,
                           f: Fact<D, P, A, L>)
    requires f in Consequences(I, claims, F)
    ensures f.DerivedCan? ==> f in FromSays(claims) || f in FromCondition(I, F)
    ensures f.DerivedCanIf? ==> f in FromSaysIf(claims)
    ensures f.DerivedRevokes? ==> f in FromRevokes(claims, F)
    ensures f.Authorized? ==> f in FromAuthority(I, F) || f in FromDelegation(I, F)
    ensures f.Revoked? ==> f in FromRevocation(I, F)
  {
  }

  /** What each rule needs to have fired. */
  lemma SaysFired<D, P, A, L>(claims: set<Says<D, P, A, L>>, f: Fact<D, P, A, L>)
    requires f in FromSays(claims)
    ensures SaysCan(f.id, f.author, f.can) in claims
  {
    var s :| s in claims && s.SaysCan? && f == DerivedCan(s.id, s.author, s.can);
    assert s == SaysCan(f.id, f.author, f.can);
  }

  lemma SaysIfFired<D, P, A, L>(claims: set<Says<D, P, A, L>>, f: Fact<D, P, A, L>)
    requires f in FromSaysIf(claims)
    ensures SaysCanIf(f.id, f.author, f.can, f.cond) in claims
  {
    var s :| s in claims && s.SaysCanIf? && f == DerivedCanIf(s.id, s.author, s.can, s.cond);
    assert s == SaysCanIf(f.id, f.author, f.can, f.cond);
  }

  lemma ConditionFired<D, P, A, L>(I: Interp<P, A, L>, F: set<Fact<D, P, A, L>>, f: Fact<D, P, A, L>)
    returns (cond: Can<A, L>, stated: Can<A, L>, a: Fact<D, P, A, L>)
    requires f in FromCondition(I, F)
    ensures DerivedCanIf(f.id, f.author, stated, cond) in F && a in F && a.Authorized? && Implies(I, a.can, cond)
    ensures f.can == Bind(stated, a.can)
  {
    var c, a' :| c in F && c.DerivedCanIf? && a' in F && a'.Authorized? && Implies(I, a'.can, c.cond) &&
      f == DerivedCan(c.id, c.author, Bind(c.can, a'.can));
    cond, stated, a := c.cond, c.can, a';
    assert DerivedCanIf(f.id, f.author, stated, cond) == c;
  }

  lemma RevokesFired<D, P, A, L>(claims: set<Says<D, P, A, L>>, F: set<Fact<D, P, A, L>>, r: Fact<D, P, A, L>)
    requires r in FromRevokes(claims, F)
    ensures SaysRevokes(r.author, r.id) in claims && Authorized(r.id, r.grantor, r.can) in F
  {
    var s, b :| s in claims && s.SaysRevokes? && b in F && b.Authorized? && b.id == s.claim &&
      r == DerivedRevokes(s.author, s.claim, b.author, b.can);
    assert SaysRevokes(r.author, r.id) == s;
    assert b == Authorized(r.id, r.grantor, r.can);
  }

  lemma RevocationFired<D, P, A, L>(I: Interp<P, A, L>, F: set<Fact<D, P, A, L>>, id: D)
    returns (r: Fact<D, P, A, L>, a: Fact<D, P, A, L>)
    requires Revoked(id) in FromRevocation(I, F)
    ensures r in F && r.DerivedRevokes? && r.id == id
    ensures a in F && a.Authorized? && Overrides(I, r, a.can)
  {
    var r0, a0 :| r0 in F && r0.DerivedRevokes? && a0 in F && a0.Authorized? && Overrides(I, r0, a0.can) &&
      id == r0.id;
    r, a := r0, a0;
  }

  /** Each rule fires in the derived facts: a stated grant is derived, ... */
  lemma LfpSays<D(!new), P(!new), A(!new), L(!new)>(I: Interp<P, A, L>, claims: set<Says<D, P, A, L>>,
                                                         id: D, author: P, can: Can<A, L>)
    requires SaysCan(id, author, can) in claims
    ensures DerivedCan(id, author, can) in Lfp(I, claims)
  {
    LfpIsLeastFixpoint(I, claims);
    assert DerivedCan(id, author, can) in FromSays(claims);
  }

  /** ... a conditional grant whose condition an authorized grant implies is
      derived for that grant's actor, ... */
  lemma LfpCondition<D(!new), P(!new), A(!new), L(!new)>(I: Interp<P, A, L>, claims: set<Says<D, P, A, L>>,
                                                              id: D, author: P, can: Can<A, L>, cond: Can<A, L>,
                                                              a: Fact<D, P, A, L>)
    requires SaysCanIf(id, author, can, cond) in claims
    requires a in Lfp(I, claims) && a.Authorized? && Implies(I, a.can, cond)
    ensures DerivedCan(id, author, Bind(can, a.can)) in Lfp(I, claims)
  {
    var F := Lfp(I, claims);
    LfpIsLeastFixpoint(I, claims);
    var c := DerivedCanIf(id, author, can, cond);
    assert c in FromSaysIf(claims);
    assert DerivedCan(c.id, c.author, Bind(c.can, a.can)) in FromCondition(I, F);
  }

  /** ... a derived grant by the speaker for the root of its label is
      authorized, ... */
  lemma LfpAuthority<D(!new), P(!new), A(!new), L(!new)>(I: Interp<P, A, L>, claims: set<Says<D, P, A, L>>,
                                                              id: D, author: P, can: Can<A, L>)
    requires DerivedCan(id, author, can) in Lfp(I, claims) && I.localAuthority(author, can.scope)
    ensures Authorized(id, author, can) in Lfp(I, claims)
  {
    var F := Lfp(I, claims);
    LfpIsLeastFixpoint(I, claims);
    var c := DerivedCan(id, author, can);
    assert Authorized(c.id, c.author, c.can) in FromAuthority(I, F);
  }

  /** ... a derived grant that its author may delegate is authorized, ... */
  lemma LfpDelegation<D(!new), P(!new), A(!new), L(!new)>(I: Interp<P, A, L>, claims: set<Says<D, P, A, L>>,
                                                               id: D, author: P, can: Can<A, L>, a: Fact<D, P, A, L>)
    requires DerivedCan(id, author, can) in Lfp(I, claims)
    requires a in Lfp(I, claims) && a.Authorized? && Delegates(I, DerivedCan(id, author, can), a.can)
    ensures Authorized(id, author, can) in Lfp(I, claims)
  {
    var F := Lfp(I, claims);
    LfpIsLeastFixpoint(I, claims);
    var c := DerivedCan(id, author, can);
    assert Authorized(c.id, c.author, c.can) in FromDelegation(I, F);
  }

  /** ... and a revocation of an authorized grant by someone holding an
      overriding grant takes effect. */
  lemma LfpRevocation<D(!new), P(!new), A(!new), L(!new)>(I: Interp<P, A, L>, claims: set<Says<D, P, A, L>>,
                                                               revoker: P, id: D, grantor: P, can: Can<A, L>,
                                                               a: Fact<D, P, A, L>)
    requires SaysRevokes(revoker, id) in claims && Authorized(id, grantor, can) in Lfp(I, claims)
    requires a in Lfp(I, claims) && a.Authorized? && Overrides(I, DerivedRevokes(revoker, id, grantor, can), a.can)
    ensures Revoked(id) in Lfp(I, claims)
  {
    var F := Lfp(I, claims);
    LfpIsLeastFixpoint(I, claims);
    var s: Says<D, P, A, L> := SaysRevokes(revoker, id);
    var b: Fact<D, P, A, L> := Authorized(id, grantor, can);
    var r: Fact<D, P, A, L> := DerivedRevokes(s.author, s.claim, b.author, b.can);
    assert r in FromRevokes(claims, F);
    assert Revoked(r.id) in FromRevocation(I, F);
  }

  /** Every derived grant was stated, directly or under a condition that
      some authorized grant implies, and then it is bound to that grant's
      actor. */
  lemma DerivedCanOrigin<D(!new), P(!new), A(!new), L(!new)>(I: Interp<P, A, L>, claims: set<Says<D, P, A, L>>,
                                                                  id: D, author: P, can: Can<A, L>)
    requires DerivedCan(id, author, can) in Lfp(I, claims)
    ensures SaysCan(id, author, can) in claims ||
      exists stated, cond, a :: SaysCanIf(id, author, stated, cond) in claims &&
        a in Lfp(I, claims) && a.Authorized? && Implies(I, a.can, cond) && can == Bind(stated, a.can)
  {
    var F := Lfp(I, claims);
    LfpIsLeastFixpoint(I, claims);
    var f := DerivedCan(id, author, can);
    RuleOf(I, claims, F, f);
    if f in FromSays(claims) {
      SaysFired(claims, f);
    } else {
      var cond, stated, a := ConditionFired(I, F, f);
      var g := DerivedCanIf(id, author, stated, cond);
      RuleOf(I, claims, F, g);
      SaysIfFired(claims, g);
    }
  }

  /** Every authorized grant has a reason: it was derived, and its author
      speaks for the root of its label or holds an authorized owner grant,
      or a control grant for a controllable permission, on an ancestor
      label. */
  lemma AuthorizedHasReason<D(!new), P(!new), A(!new), L(!new)>(I: Interp<P, A, L>, claims: set<Says<D, P, A, L>>,
                                                                     id: D, author: P, can: Can<A, L>)
    requires Authorized(id, author, can) in Lfp(I, claims)
    ensures DerivedCan(id, author, can) in Lfp(I, claims)
    ensures I.localAuthority(author, can.scope) ||
      exists a :: a in Lfp(I, claims) && a.Authorized? && I.speaker(author) == a.can.actor &&
        I.ancestor(a.can.scope, can.scope) &&
        (a.can.perm == I.own || (a.can.perm == I.control && I.controllable(can.perm)))
  {
    var F := Lfp(I, claims);
    LfpIsLeastFixpoint(I, claims);
    var f := Authorized(id, author, can);
    RuleOf(I, claims, F, f);
    if f in FromAuthority(I, F) {
      var c :| c in F && c.DerivedCan? && I.localAuthority(c.author, c.can.scope) && f == Authorized(c.id, c.author, c.can);
      assert c == DerivedCan(id, author, can);
    } else {
      var c, a :| c in F && c.DerivedCan? && a in F && a.Authorized? && Delegates(I, c, a.can) &&
        f == Authorized(c.id, c.author, c.can);
      assert c == DerivedCan(id, author, can);
    }
  }

  /** Every revocation has a reason: a revoke statement for an authorized
      grant, whose author holds an authorized grant overriding it. */
  lemma RevokedHasReason<D(!new), P(!new), A(!new), L(!new)>(I: Interp<P, A, L>, claims: set<Says<D, P, A, L>>, id: D)
    returns (r: Fact<D, P, A, L>, a: Fact<D, P, A, L>)
    requires Revoked(id) in Lfp(I, claims)
    ensures r.DerivedRevokes? && r.id == id && SaysRevokes(r.author, id) in claims
    ensures Authorized(r.id, r.grantor, r.can) in Lfp(I, claims)
    ensures a in Lfp(I, claims) && a.Authorized? && Overrides(I, r, a.can)
  {
    var F := Lfp(I, claims);
    LfpIsLeastFixpoint(I, claims);
    RuleOf(I, claims, F, Revoked(id));
    r, a := RevocationFired(I, F, id);
    RuleOf(I, claims, F, r);
    RevokesFired(claims, F, r);
  }

  /** A grant stated by the speaker for the root of its label is authorized,
      and a revocation of it by a speaker for the root who is also an
      authority at that label takes effect. */
  lemma AuthorityGrantsAndRevokes<D(!new), P(!new), A(!new), L(!new)>(I: Interp<P, A, L>, claims: set<Says<D, P, A, L>>,
                                                                           id: D, author: P, can: Can<A, L>, revoker: P)
    requires SaysCan(id, author, can) in claims && I.localAuthority(author, can.scope)
    ensures Authorized(id, author, can) in Lfp(I, claims)
    ensures (SaysRevokes(revoker, id) in claims && I.localAuthority(revoker, can.scope) &&
             I.revokeAuthority(revoker, can.scope)) ==> Revoked(id) in Lfp(I, claims)
  {
    LfpSays(I, claims, id, author, can);
    LfpAuthority(I, claims, id, author, can);
    if SaysRevokes(revoker, id) in claims && I.localAuthority(revoker, can.scope) && I.revokeAuthority(revoker, can.scope) {
      var a := Authorized(id, author, can);
      assert Overrides(I, DerivedRevokes(revoker, id, author, can), a.can);
      LfpRevocation(I, claims, revoker, id, author, can, a);
    }
  }

  /** Every authority goes back to an unconditional statement: without one,
      only the conditional statements themselves are derived, so nothing is
      authorized and nothing is revoked. */
  lemma OnlyConditionsWithoutGrants<D(!new), P(!new), A(!new), L(!new)>(I: Interp<P, A, L>,
                                                                       claims: set<Says<D, P, A, L>>)
    requires forall s | s in claims :: !s.SaysCan?
    ensures forall f | f in Lfp(I, claims) :: f.DerivedCanIf?
  {
    var G := FromSaysIf(claims);
    forall f | f in Consequences(I, claims, G) ensures f in G {
      RuleOf(I, claims, G, f);
      if f in FromSays(claims) {
        SaysFired(claims, f);
      }
    }
    assert Closed(I, claims, G);
    LfpIsLeastFixpoint(I, claims);
  }

  /** Without conditional statements, every authorized grant was stated as
      it stands. */
  lemma AuthorizedWasStated<D(!new), P(!new), A(!new), L(!new)>(I: Interp<P, A, L>, claims: set<Says<D, P, A, L>>,
                                                                f: Fact<D, P, A, L>)
    requires forall s | s in claims :: !s.SaysCanIf?
    requires f in Lfp(I, claims) && f.Authorized?
    ensures SaysCan(f.id, f.author, f.can) in claims
  {
    AuthorizedHasReason(I, claims, f.id, f.author, f.can);
    DerivedCanOrigin(I, claims, f.id, f.author, f.can);
  }

  /** Only a statement that names a grant can revoke it. */
  lemma RevokedOnlyIfNamed<D(!new), P(!new), A(!new), L(!new)>(I: Interp<P, A, L>, claims: set<Says<D, P, A, L>>, id: D)
    requires forall s | s in claims && s.SaysRevokes? :: s.claim != id
    ensures Revoked(id) !in Lfp(I, claims)
  {
    if Revoked(id) in Lfp(I, claims) {
      var r, auth := RevokedHasReason(I, claims, id);
    }
  }
}
