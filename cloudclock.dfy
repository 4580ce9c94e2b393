/** The vector clock with a "cloud" of `crdt/src/clock.rs`: a map from actor
    to the highest contiguous counter seen, plus a set of dots seen out of
    order. A clock contains a dot when the dot's counter is at most the
    actor's entry, or when the dot sits in the cloud. */
module CloudClocks {
  import opened Dots

  datatype State<A> = State(clock: map<A, nat>, cloud: set<Dot<A>>)

  /** `get`: the entry of an actor, 0 for unknown actors. */
  function Get<A>(c: State<A>, actor: A): nat {
    if actor in c.clock then c.clock[actor] else 0
  }

  /** `contains`. */
  predicate Contains<A>(c: State<A>, d: Dot<A>) {
    d.counter <= Get(c, d.actor) || d in c.cloud
  }

  /** The shape every operation leaves a clock in: positive entries, and
      cloud dots that are neither covered by their actor's entry nor next in
      line after it. */
  predicate Normal<A>(c: State<A>) {
    (forall a | a in c.clock :: c.clock[a] >= 1) &&
    (forall d | d in c.cloud :: d.counter > Get(c, d.actor) + 1)
  }

  /** What `compact` needs to finish in normal form: positive entries, and
      cloud dots of actors without an entry past counter 1. */
  predicate Compactable<A>(c: State<A>) {
    (forall a | a in c.clock :: c.clock[a] >= 1) &&
    (forall d | d in c.cloud && d.actor !in c.clock :: d.counter > 1)
  }

  lemma NormalIsCompactable<A>(c: State<A>)
    requires Normal(c)
    ensures Compactable(c)
  {
  }

  /** Two clocks that contain the same dots. */
  ghost predicate SameDots<A(!new)>(a: State<A>, b: State<A>) {
    forall d: Dot<A> :: Contains(a, d) <==> Contains(b, d)
  }

  /** `r` is a union of `a` and `b`: normal, holding the dots of either. */
  ghost predicate IsUnion<A(!new)>(r: State<A>, a: State<A>, b: State<A>) {
    Normal(r) && forall d: Dot<A> :: Contains(r, d) <==> Contains(a, d) || Contains(b, d)
  }

  /** `is_causal`: no dot is held out of order. */
  predicate IsCausal<A>(c: State<A>) {
    c.cloud == {}
  }

  /** A clock whose dots include, with each dot, every earlier dot of its actor. */
  ghost predicate DownwardClosed<A(!new)>(c: State<A>) {
    forall d: Dot<A>, k: nat :: Contains(c, d) && k <= d.counter ==> Contains(c, Dot(d.actor, k))
  }

  /** A normal clock is causal exactly when its dots are downward closed:
      any cloud dot leaves a gap right after its actor's entry. */
  lemma CausalIffDownwardClosed<A(!new)>(c: State<A>)
    requires Normal(c)
    ensures IsCausal(c) <==> DownwardClosed(c)
  {
    if c.cloud != {} {
      var d :| d in c.cloud;
      var gap := Dot(d.actor, Get(c, d.actor) + 1);
      assert Contains(c, d) && gap.counter <= d.counter && !Contains(c, gap);
    }
  }

  /** `dot`: the dot of an actor's current entry. */
  function DotFor<A>(c: State<A>, actor: A): (r: Dot<A>)
    ensures r.actor == actor && r.counter == Get(c, actor)
  {
    Dot(actor, Get(c, actor))
  }

  /** `inc`: the next dot of an actor. A normal clock never contains it yet. */
  function IncFor<A>(c: State<A>, actor: A): (r: Dot<A>)
    ensures r.actor == actor && r.counter == Get(c, actor) + 1
    ensures Normal(c) ==> !Contains(c, r)
  {
    Inc(DotFor(c, actor))
  }

  // ---- Uniqueness of the normal form -----------------------------------------

  lemma GetLe<A(!new)>(a: State<A>, b: State<A>, x: A)
    requires Normal(b) && SameDots(a, b)
    ensures Get(a, x) <= Get(b, x)
  {
    var next := Dot(x, Get(b, x) + 1);
    assert !Contains(b, next);
    assert !Contains(a, next);
  }

  /** A normal clock is determined by the dots it contains. */
  lemma NormalUnique<A(!new)>(a: State<A>, b: State<A>)
    requires Normal(a) && Normal(b) && SameDots(a, b)
    ensures a == b
  {
    forall x ensures Get(a, x) == Get(b, x) {
      GetLe(a, b, x);
      GetLe(b, a, x);
    }
    forall x ensures x in a.clock <==> x in b.clock {
      assert Get(a, x) == Get(b, x);
    }
    forall x | x in a.clock ensures a.clock[x] == b.clock[x] {
      assert Get(a, x) == Get(b, x);
    }
    assert a.clock == b.clock;
    forall d ensures d in a.cloud <==> d in b.cloud {
      assert Contains(a, d) <==> Contains(b, d);
      assert Get(a, d.actor) == Get(b, d.actor);
    }
    assert a.cloud == b.cloud;
  }

  // ---- Lattice laws of union ----------------------------------------------------

  lemma UnionIdempotent<A(!new)>(a: State<A>, r: State<A>)
    requires Normal(a) && IsUnion(r, a, a)
    ensures r == a
  {
    NormalUnique(r, a);
  }

  lemma UnionCommutative<A(!new)>(a: State<A>, b: State<A>, r1: State<A>, r2: State<A>)
    requires IsUnion(r1, a, b) && IsUnion(r2, b, a)
    ensures r1 == r2
  {
    NormalUnique(r1, r2);
  }

  lemma UnionAssociative<A(!new)>(a: State<A>, b: State<A>, c: State<A>,
                                  ab: State<A>, left: State<A>, bc: State<A>, right: State<A>)
    requires IsUnion(ab, a, b) && IsUnion(left, ab, c)
    requires IsUnion(bc, b, c) && IsUnion(right, a, bc)
    ensures left == right
  {
    NormalUnique(left, right);
  }

  // ---- intersect --------------------------------------------------------------

  function Min(x: nat, y: nat): nat {
    if x <= y then x else y
  }

  /** The clock part of `intersect`: the smaller entry of each actor of
      `a`, kept when positive. */
  function MinClock<A>(a: State<A>, b: State<A>): map<A, nat> {
    map x | x in a.clock && Min(a.clock[x], Get(b, x)) > 0 :: Min(a.clock[x], Get(b, x))
  }

  /** `intersect` as the source writes it: the cloud is only the dots in
      both clouds. */
  function IntersectAsWritten<A>(a: State<A>, b: State<A>): State<A> {
    State(MinClock(a, b), a.cloud * b.cloud)
  }

  /** `intersect` as its lattice laws need it: a cloud dot of one side that
      the other side contains, through its cloud or its entry, is kept. */
  function IntersectOf<A>(a: State<A>, b: State<A>): State<A> {
    State(MinClock(a, b),
      (set d | d in a.cloud && Contains(b, d)) + (set d | d in b.cloud && Contains(a, d)))
  }

  /** The corrected intersection is normal and holds exactly the dots both
      sides hold. */
  lemma IntersectOfMeaning<A(!new)>(a: State<A>, b: State<A>)
    requires Normal(a) && Normal(b)
    ensures Normal(IntersectOf(a, b))
    ensures forall d: Dot<A> :: Contains(IntersectOf(a, b), d) <==> Contains(a, d) && Contains(b, d)
  {
    var r := IntersectOf(a, b);
    forall x ensures Get(r, x) == Min(Get(a, x), Get(b, x)) {
    }
  }

  /** The source's intersection loses a dot that one side holds in its cloud
      and the other covers by its entry. */
  lemma IntersectAsWrittenLosesDot()
    ensures var a := State(map[], {Dot(0, 2)});
      var b := State(map[0 := 3], {});
      Normal(a) && Normal(b) && Contains(a, Dot(0, 2)) && Contains(b, Dot(0, 2)) &&
      !Contains(IntersectAsWritten(a, b), Dot(0, 2))
  {
    var a: State<int> := State(map[], {Dot(0, 2)});
    var b: State<int> := State(map[0 := 3], {});
    assert MinClock(a, b) == map[];
  }

  lemma IntersectIdempotent<A(!new)>(a: State<A>)
    requires Normal(a)
    ensures IntersectOf(a, a) == a
  {
    IntersectOfMeaning(a, a);
    NormalUnique(IntersectOf(a, a), a);
  }

  lemma IntersectCommutative<A(!new)>(a: State<A>, b: State<A>)
    requires Normal(a) && Normal(b)
    ensures IntersectOf(a, b) == IntersectOf(b, a)
  {
    IntersectOfMeaning(a, b);
    IntersectOfMeaning(b, a);
    NormalUnique(IntersectOf(a, b), IntersectOf(b, a));
  }

  lemma IntersectAssociative<A(!new)>(a: State<A>, b: State<A>, c: State<A>)
    requires Normal(a) && Normal(b) && Normal(c)
    ensures IntersectOf(IntersectOf(a, b), c) == IntersectOf(a, IntersectOf(b, c))
  {
    IntersectOfMeaning(a, b);
    IntersectOfMeaning(b, c);
    IntersectOfMeaning(IntersectOf(a, b), c);
    IntersectOfMeaning(a, IntersectOf(b, c));
    NormalUnique(IntersectOf(IntersectOf(a, b), c), IntersectOf(a, IntersectOf(b, c)));
  }

  lemma UnionDistributesOverIntersect<A(!new)>(a: State<A>, b: State<A>, c: State<A>,
                                               left: State<A>, ab: State<A>, ac: State<A>)
    requires Normal(a) && Normal(b) && Normal(c)
    requires IsUnion(left, a, IntersectOf(b, c))
    requires IsUnion(ab, a, b) && IsUnion(ac, a, c)
    ensures left == IntersectOf(ab, ac)
  {
    IntersectOfMeaning(b, c);
    IntersectOfMeaning(ab, ac);
    NormalUnique(left, IntersectOf(ab, ac));
  }

  lemma IntersectDistributesOverUnion<A(!new)>(a: State<A>, b: State<A>, c: State<A>,
                                               bc: State<A>, right: State<A>)
    requires Normal(a) && Normal(b) && Normal(c)
    requires IsUnion(bc, b, c)
    requires IsUnion(right, IntersectOf(a, b), IntersectOf(a, c))
    ensures IntersectOf(a, bc) == right
  {
    IntersectOfMeaning(a, b);
    IntersectOfMeaning(a, c);
    IntersectOfMeaning(a, bc);
    NormalUnique(IntersectOf(a, bc), right);
  }

  // ---- difference -------------------------------------------------------------

  /** `difference`: entries ahead of the other clock, and cloud dots the
      other clock lacks. */
  function DifferenceOf<A>(a: State<A>, b: State<A>): State<A> {
    State(map x | x in a.clock && a.clock[x] > Get(b, x) :: a.clock[x],
      set d | d in a.cloud && !Contains(b, d))
  }

  lemma DifferenceOfNormal<A>(a: State<A>, b: State<A>)
    requires Normal(a)
    ensures Normal(DifferenceOf(a, b))
  {
    var r := DifferenceOf(a, b);
    forall d | d in r.cloud ensures d.counter > Get(r, d.actor) + 1 {
      assert Get(r, d.actor) <= Get(a, d.actor);
    }
  }

  /** Joining what `a` has beyond `b` with what both share gives back `a`. */
  lemma UnionDifferenceIntersect<A(!new)>(a: State<A>, b: State<A>, r: State<A>)
    requires Normal(a) && Normal(b)
    requires IsUnion(r, DifferenceOf(a, b), IntersectOf(a, b))
    ensures r == a
  {
    IntersectOfMeaning(a, b);
    var diff := DifferenceOf(a, b);
    forall d: Dot<A> ensures Contains(r, d) <==> Contains(a, d) {
      if Contains(diff, d) {
        assert Get(diff, d.actor) <= Get(a, d.actor);
      }
    }
    NormalUnique(r, a);
  }

  /** With the source's intersection the same law fails. */
  lemma UnionDifferenceIntersectAsWrittenFails(r: State<int>)
    requires IsUnion(r, DifferenceOf(State(map[], {Dot(0, 2)}), State(map[0 := 3], {})),
                        IntersectAsWritten(State(map[], {Dot(0, 2)}), State(map[0 := 3], {})))
    ensures r != State(map[], {Dot(0, 2)})
  {
    var a: State<int> := State(map[], {Dot(0, 2)});
    var b: State<int> := State(map[0 := 3], {});
    assert DifferenceOf(a, b).clock == map[];
    assert DifferenceOf(a, b).cloud == {};
    assert MinClock(a, b) == map[];
    assert !Contains(r, Dot(0, 2));
  }

  // ---- Steps used by the imperative clock ------------------------------------------

  /** The pointwise maximum of two clock maps, over the actors of either. */
  function MaxClock<A>(a: map<A, nat>, b: map<A, nat>): map<A, nat> {
    map x | x in a.Keys + b.Keys ::
      var u := if x in a then a[x] else 0;
      var v := if x in b then b[x] else 0;
      if u >= v then u else v
  }

  /** The entries of `m` whose actors are no longer in `todo`. */
  ghost function Done<A>(m: map<A, nat>, todo: set<A>): map<A, nat> {
    map x | x in m && x !in todo :: m[x]
  }

  /** After the entries are raised, a clock holds its own dots and those
      covered by the other clock's entries; it can be compacted. */
  lemma MaxClockContents<A(!new)>(a: State<A>, b: State<A>)
    requires Normal(a) && Normal(b)
    ensures var m := State(MaxClock(a.clock, b.clock), a.cloud);
      Compactable(m) &&
      forall e: Dot<A> :: Contains(m, e) <==> Contains(a, e) || e.counter <= Get(b, e.actor)
  {
    var m := State(MaxClock(a.clock, b.clock), a.cloud);
    forall x ensures Get(m, x) == if Get(a, x) >= Get(b, x) then Get(a, x) else Get(b, x) {
    }
  }

  lemma MaxClockEmpty<A>(a: map<A, nat>)
    ensures MaxClock(a, map[]) == a
  {
  }

  lemma MaxClockUpdate<A>(a: map<A, nat>, b: map<A, nat>, k: A, v: nat)
    requires k !in b
    ensures MaxClock(a, b[k := v]) ==
      MaxClock(a, b)[k := if k in a && a[k] >= v then a[k] else v]
  {
  }

  /** One step of the `retain` pass of `compact` on dot `d`: the actor's
      entry moves up to `d` when `d` is next in line; `d` stays in the cloud
      only when it is beyond the next counter (or its actor has no entry). */
  function RetainEntry<A>(clock: map<A, nat>, d: Dot<A>): map<A, nat> {
    if d.actor in clock && d.counter == clock[d.actor] + 1 then clock[d.actor := d.counter] else clock
  }

  predicate RetainKeeps<A>(clock: map<A, nat>, d: Dot<A>) {
    d.actor !in clock || d.counter > clock[d.actor] + 1
  }

  lemma SameDotsTrans<A(!new)>(a: State<A>, b: State<A>, c: State<A>)
    requires SameDots(a, b) && SameDots(b, c)
    ensures SameDots(a, c)
  {
  }

  /** A retain step neither gains nor loses a dot, and keeps the clock
      compactable. */
  lemma RetainStep<A(!new)>(clock: map<A, nat>, rest: set<Dot<A>>, d: Dot<A>)
    requires d !in rest && Compactable(State(clock, rest + {d}))
    ensures var rest' := if RetainKeeps(clock, d) then rest + {d} else rest;
      SameDots(State(RetainEntry(clock, d), rest'), State(clock, rest + {d})) &&
      Compactable(State(RetainEntry(clock, d), rest')) &&
      RetainEntry(clock, d).Keys == clock.Keys
  {
    var rest' := if RetainKeeps(clock, d) then rest + {d} else rest;
    var before := State(clock, rest + {d});
    var after := State(RetainEntry(clock, d), rest');
    forall e: Dot<A> ensures Contains(after, e) <==> Contains(before, e) {
      if e.actor == d.actor && d.actor in clock {
        assert Get(after, e.actor) >= Get(before, e.actor);
      }
    }
  }

  /** The invariant of a `retain` pass that started from `start`: the dots
      visited so far are split into kept and dropped ones, and the entries
      with the kept and unvisited dots hold the dots `start` held. Without
      progress the entries are unchanged and every kept dot stays kept. */
  ghost predicate PassInv<A(!new)>(start: State<A>, entries: map<A, nat>, kept: set<Dot<A>>,
                                   dropped: set<Dot<A>>, todo: set<Dot<A>>, progress: bool) {
    kept !! todo && kept !! dropped && dropped !! todo &&
    kept + dropped + todo == start.cloud &&
    (progress ==> dropped != {}) &&
    entries.Keys == start.clock.Keys &&
    Compactable(State(entries, kept + todo)) &&
    SameDots(State(entries, kept + todo), start) &&
    (!progress ==> entries == start.clock) &&
    (!progress ==> forall d | d in kept :: RetainKeeps(entries, d))
  }

  lemma PassStep<A(!new)>(start: State<A>, entries: map<A, nat>, kept: set<Dot<A>>,
                          dropped: set<Dot<A>>, todo: set<Dot<A>>, progress: bool, d: Dot<A>)
    requires PassInv(start, entries, kept, dropped, todo, progress) && d in todo
    ensures var keeps := RetainKeeps(entries, d);
      var advances := d.actor in entries && d.counter == entries[d.actor] + 1;
      PassInv(start, RetainEntry(entries, d),
        if keeps then kept + {d} else kept,
        if keeps then dropped else dropped + {d},
        todo - {d}, progress || advances)
  {
    var rest := todo - {d};
    assert kept + todo == (kept + rest) + {d};
    RetainStep(entries, kept + rest, d);
    var kept' := if RetainKeeps(entries, d) then kept + {d} else kept;
    assert kept' + rest == if RetainKeeps(entries, d) then (kept + rest) + {d} else kept + rest;
    SameDotsTrans(State(RetainEntry(entries, d), kept' + rest), State(entries, kept + todo), start);
  }

  /** A finished pass: the kept dots and the new entries form the result. */
  lemma PassDone<A(!new)>(start: State<A>, entries: map<A, nat>, kept: set<Dot<A>>,
                          dropped: set<Dot<A>>, progress: bool)
    requires PassInv(start, entries, kept, dropped, {}, progress)
    ensures Compactable(State(entries, kept)) && SameDots(State(entries, kept), start)
    ensures entries.Keys == start.clock.Keys
    ensures progress ==> |kept| < |start.cloud|
    ensures !progress ==> Normal(State(entries, kept))
  {
    assert kept + {} == kept;
    if progress {
      DisjointCard(kept, dropped, start.cloud);
    }
  }

  lemma DisjointCard<T>(kept: set<T>, dropped: set<T>, all: set<T>)
    requires kept !! dropped && kept + dropped == all && dropped != {}
    ensures |kept| < |all|
  {
    var x :| x in dropped;
    assert kept <= all - {x};
  }

  /** The loop of one `retain` pass over the cloud of `start`: the new
      entries, the kept dots and whether an entry advanced. */
  method Retain<A(!new)>(start: State<A>) returns (entries: map<A, nat>, kept: set<Dot<A>>, progress: bool)
    requires Compactable(start)
    ensures Compactable(State(entries, kept)) && SameDots(State(entries, kept), start)
    ensures entries.Keys == start.clock.Keys
    ensures progress ==> |kept| < |start.cloud|
    ensures !progress ==> Normal(State(entries, kept))
  {
    entries := start.clock;
    var todo := start.cloud;
    kept := {};
    ghost var dropped: set<Dot<A>> := {};
    progress := false;
    while todo != {}
      invariant PassInv(start, entries, kept, dropped, todo, progress)
      decreases |todo|
    {
      var d :| d in todo;
      PassStep(start, entries, kept, dropped, todo, progress, d);
      var keeps := RetainKeeps(entries, d);
      var advances := d.actor in entries && d.counter == entries[d.actor] + 1;
      kept := if keeps then kept + {d} else kept;
      dropped := if keeps then dropped else dropped + {d};
      todo := todo - {d};
      entries := RetainEntry(entries, d);
      progress := progress || advances;
    }
    PassDone(start, entries, kept, dropped, progress);
  }

  /** The entry loop of `intersect`: the smaller of the two entries of
      every actor of `a`, where it is positive. */
  method MinEntries<A>(a: State<A>, b: State<A>) returns (m: map<A, nat>)
    ensures m == MinClock(a, b)
  {
    m := map[];
    var todo := a.clock.Keys;
    while todo != {}
      invariant todo <= a.clock.Keys
      invariant m == Done(MinClock(a, b), todo)
      decreases todo
    {
      var actor :| actor in todo;
      var counter := Min(a.clock[actor], Get(b, actor));
      if counter > 0 {
        m := m[actor := counter];
      }
      todo := todo - {actor};
    }
    assert Done(MinClock(a, b), todo) == MinClock(a, b);
  }

  /** The clock of `crdt/src/clock.rs`, updated in place. */
  class Clock<A(==, !new)> {
    var clock: map<A, nat>
    var cloud: set<Dot<A>>

    function Value(): State<A>
      reads this
    {
      State(clock, cloud)
    }

    /** `new`: no entries, an empty cloud. */
    constructor()
      ensures Value() == State(map[], {})
    {
      clock := map[];
      cloud := {};
    }

    /** One `retain` pass of `compact` over the cloud. The source visits the
        cloud in ascending order; the model visits it in any order, and the
        outer loop of `Compact` reaches the same normal form either way. */
    method RetainPass() returns (progress: bool)
      requires Compactable(Value())
      modifies this
      ensures Compactable(Value()) && SameDots(Value(), old(Value()))
      ensures clock.Keys == old(clock).Keys
      ensures progress ==> |cloud| < |old(cloud)|
      ensures !progress ==> Normal(Value())
    {
      var entries, kept;
      entries, kept, progress := Retain(Value());
      clock, cloud := entries, kept;
    }

    /** `compact`: repeats `retain` passes until one makes no progress. */
    method Compact()
      requires Compactable(Value())
      modifies this
      ensures Normal(Value()) && SameDots(Value(), old(Value()))
      ensures clock.Keys == old(clock).Keys
    {
      while true
        invariant Compactable(Value()) && SameDots(Value(), old(Value()))
        invariant clock.Keys == old(clock).Keys
        decreases |cloud|
      {
        var progress := RetainPass();
        if !progress {
          return;
        }
      }
    }

    /** `insert`: the next counter of its actor advances the entry and
        compacts; a later counter goes to the cloud; an earlier one is
        already contained and is ignored. */
    method Insert(d: Dot<A>)
      requires Normal(Value())
      modifies this
      ensures Normal(Value())
      ensures forall e: Dot<A> :: Contains(Value(), e) <==> Contains(old(Value()), e) || e == d
      ensures d.counter <= Get(old(Value()), d.actor) ==> Value() == old(Value())
      ensures d.counter > Get(old(Value()), d.actor) + 1 ==>
        Value() == State(old(clock), old(cloud) + {d})
      ensures d.counter == Get(old(Value()), d.actor) + 1 ==> Get(Value(), d.actor) >= d.counter
    {
      var current := Get(Value(), d.actor);
      var next := current + 1;
      if d.counter == next {
        clock := clock[d.actor := d.counter];
        assert forall e: Dot<A> :: Contains(Value(), e) <==> Contains(old(Value()), e) || e == d;
        Compact();
        assert !Contains(Value(), Dot(d.actor, Get(Value(), d.actor) + 1));
      } else if d.counter > current {
        cloud := cloud + {d};
      }
    }

    /** The first loop of `union`: each entry of the other clock that is
        ahead replaces the own one. */
    method RaiseEntries(other: map<A, nat>)
      requires forall a | a in other :: other[a] >= 1
      modifies this
      ensures clock == MaxClock(old(clock), other) && cloud == old(cloud)
    {
      var todo := other.Keys;
      MaxClockEmpty(clock);
      assert Done(other, todo) == map[];
      while todo != {}
        invariant todo <= other.Keys
        invariant clock == MaxClock(old(clock), Done(other, todo))
        invariant cloud == old(cloud)
        decreases todo
      {
        var actor :| actor in todo;
        var counter := other[actor];
        MaxClockUpdate(old(clock), Done(other, todo), actor, counter);
        assert Done(other, todo - {actor}) == Done(other, todo)[actor := counter];
        if counter > Get(Value(), actor) {
          clock := clock[actor := counter];
        } else {
          assert actor in old(clock) && old(clock)[actor] >= counter;
        }
        todo := todo - {actor};
      }
      assert Done(other, todo) == other;
    }

    /** The last loop of `union`: inserts the other clock's cloud. */
    method InsertAll(dots: set<Dot<A>>)
      requires Normal(Value())
      modifies this
      ensures Normal(Value())
      ensures forall e: Dot<A> :: Contains(Value(), e) <==> Contains(old(Value()), e) || e in dots
    {
      var todo := dots;
      while todo != {}
        invariant todo <= dots
        invariant Normal(Value())
        invariant forall e: Dot<A> :: Contains(Value(), e) <==>
          Contains(old(Value()), e) || (e in dots && e !in todo)
        decreases todo
      {
        var d :| d in todo;
        Insert(d);
        todo := todo - {d};
      }
    }

    /** `union`: raises entries to the other clock's, compacts, then inserts
        the other clock's cloud dot by dot. */
    method Union(other: Clock<A>)
      requires other != this
      requires Normal(Value()) && Normal(other.Value())
      modifies this
      ensures IsUnion(Value(), old(Value()), other.Value())
    {
      RaiseEntries(other.clock);
      MaxClockContents(old(Value()), other.Value());
      Compact();
      InsertAll(other.cloud);
    }

    /** `intersect`, with the corrected cloud (see `IntersectOf`). */
    method Intersect(other: Clock<A>) returns (r: Clock<A>)
      requires Normal(Value()) && Normal(other.Value())
      ensures fresh(r) && r.Value() == IntersectOf(Value(), other.Value())
      ensures Normal(r.Value())
    {
      r := new Clock();
      var entries := MinEntries(Value(), other.Value());
      r.clock := entries;
      r.cloud := (set d | d in cloud && Contains(other.Value(), d)) +
                 (set d | d in other.cloud && Contains(Value(), d));
      IntersectOfMeaning(Value(), other.Value());
    }

    /** `difference`: entries ahead of the other clock, then the cloud dots
        the other clock does not contain. */
    method Difference(other: Clock<A>) returns (r: Clock<A>)
      requires Normal(Value())
      ensures fresh(r) && r.Value() == DifferenceOf(Value(), other.Value())
      ensures Normal(r.Value())
    {
      r := new Clock();
      var todo := clock.Keys;
      ghost var ahead := map x | x in clock && clock[x] > Get(other.Value(), x) :: clock[x];
      while todo != {}
        invariant todo <= clock.Keys
        invariant r.clock == Done(ahead, todo)
        invariant r.cloud == {}
        decreases todo
      {
        var actor :| actor in todo;
        if clock[actor] > Get(other.Value(), actor) {
          r.clock := r.clock[actor := clock[actor]];
        }
        todo := todo - {actor};
      }
      assert Done(ahead, todo) == ahead;
      var dots := cloud;
      while dots != {}
        invariant dots <= cloud
        invariant r.clock == ahead
        invariant r.cloud == set d | d in cloud && d !in dots && !Contains(other.Value(), d)
        decreases dots
      {
        var d :| d in dots;
        if !Contains(other.Value(), d) {
          r.cloud := r.cloud + {d};
        }
        dots := dots - {d};
      }
      DifferenceOfNormal(Value(), other.Value());
    }
  }

  /** `FromIterator<Dot>`: inserts the dots one by one. */
  method FromDots<A(==, !new)>(dots: seq<Dot<A>>) returns (c: Clock<A>)
    ensures fresh(c) && Normal(c.Value())
    ensures forall e: Dot<A> :: Contains(c.Value(), e) <==> e.counter == 0 || e in dots
  {
    c := new Clock();
    for i := 0 to |dots|
      invariant Normal(c.Value())
      invariant forall e: Dot<A> :: Contains(c.Value(), e) <==> e.counter == 0 || e in dots[..i]
    {
      c.Insert(dots[i]);
      assert dots[..i + 1] == dots[..i] + [dots[i]];
    }
    assert dots[..|dots|] == dots;
  }
}
