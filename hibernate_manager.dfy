/** The persistence bootstrap shared by all plugins: a de-duplicating, order-keeping
    registry of entity classes, and the session factory built from it. */
module Hibernate {
  import opened Wrappers

  const NotBuilt: string := "SessionFactory has not been built. Call buildSessionFactory() first."

  /** A built session factory: the entity classes it was given, in order, and whether it
      has been closed. */
  datatype SessionFactory = SessionFactory(annotatedClasses: seq<string>, closed: bool)

  /** A session opened from a factory. */
  datatype Session = Session(entityClasses: seq<string>)

  /** No class occurs twice. */
  predicate NoDuplicates(s: seq<string>) {
    forall i, j :: 0 <= i < j < |s| ==> s[i] != s[j]
  }

  /** The first occurrence of each element of `s`, in the order of first occurrence: the
      reference for what repeated registration leaves behind. */
  function Dedup(s: seq<string>): (r: seq<string>)
    ensures forall c :: c in r <==> c in s
  {
    if s == [] then []
    else
      var n := |s| - 1;
      assert s == s[..n] + [s[n]];
      Dedup(s[..n]) + (if s[n] in s[..n] then [] else [s[n]])
  }

  lemma {:induction false} DedupHasNoDuplicates(s: seq<string>)
    ensures NoDuplicates(Dedup(s))
  {
    if s != [] {
      var n := |s| - 1;
      DedupHasNoDuplicates(s[..n]);
    }
  }

  /** A list without duplicates is its own de-duplication. */
  lemma {:induction false} DedupOfDistinct(s: seq<string>)
    requires NoDuplicates(s)
    ensures Dedup(s) == s
  {
    if s != [] {
      var n := |s| - 1;
      DedupOfDistinct(s[..n]);
      assert s[n] !in s[..n];
      assert s == s[..n] + [s[n]];
    }
  }

  /** The registry after each class of `cs` is registered in turn. */
  function RegisterAll(registry: seq<string>, cs: seq<string>): seq<string>
    decreases |cs|
  {
    if cs == [] then registry
    else
      var n := |cs| - 1;
      var before := RegisterAll(registry, cs[..n]);
      if cs[n] in before then before else before + [cs[n]]
  }

  /** Registering a sequence of classes into an empty registry keeps exactly the first
      registration of each, in first-registration order, whatever the repetitions. */
  lemma {:induction false} RegisterAllIsDedup(registry: seq<string>, cs: seq<string>)
    requires NoDuplicates(registry)
    ensures RegisterAll(registry, cs) == Dedup(registry + cs)
    decreases |cs|
  {
    if cs == [] {
      assert registry + cs == registry;
      DedupOfDistinct(registry);
    } else {
      var n := |cs| - 1;
      RegisterAllIsDedup(registry, cs[..n]);
      assert (registry + cs)[..|registry + cs| - 1] == registry + cs[..n];
      assert (registry + cs)[|registry + cs| - 1] == cs[n];
    }
  }

  /** Registering a class again changes nothing. */
  lemma RegisterIsIdempotent(registry: seq<string>, cs: seq<string>)
    ensures RegisterAll(RegisterAll(registry, cs), cs) == RegisterAll(registry, cs)
  {
    RegisteredAreKept(registry, cs);
    ReregisterKeeps(RegisterAll(registry, cs), cs);
  }

  /** Every class registered is in the registry afterwards, and nothing is ever dropped. */
  lemma {:induction false} RegisteredAreKept(registry: seq<string>, cs: seq<string>)
    ensures forall c :: c in cs ==> c in RegisterAll(registry, cs)
    ensures forall c :: c in registry ==> c in RegisterAll(registry, cs)
    decreases |cs|
  {
    if cs != [] {
      var n := |cs| - 1;
      RegisteredAreKept(registry, cs[..n]);
      assert forall c :: c in cs ==> c in cs[..n] || c == cs[n] by {
        assert cs == cs[..n] + [cs[n]];
      }
    }
  }

  /** Registering classes that are all present changes nothing. */
  lemma {:induction false} ReregisterKeeps(registry: seq<string>, cs: seq<string>)
    requires forall c :: c in cs ==> c in registry
    ensures RegisterAll(registry, cs) == registry
    decreases |cs|
  {
    if cs != [] {
      var n := |cs| - 1;
      ReregisterKeeps(registry, cs[..n]);
      assert cs[n] in cs;
    }
  }

  class HibernateManager {
    /** The static list of registered entity classes. */
    var entityClasses: seq<string>
    /** The static session factory; `None` until built. */
    var sessionFactory: Option<SessionFactory>

    ghost predicate Valid()
      reads this
    {
      NoDuplicates(entityClasses)
    }

    constructor()
      ensures Valid() && entityClasses == [] && sessionFactory == None
    {
      entityClasses := [];
      sessionFactory := None;
    }

    /** `entityClasses.contains(c)`: a scan of the list. */
    method Contains(c: string) returns (found: bool)
      ensures found <==> c in entityClasses
    {
      var i := 0;
      while i < |entityClasses|
        invariant 0 <= i <= |entityClasses|
        invariant c !in entityClasses[..i]
      {
        if entityClasses[i] == c {
          return true;
        }
        assert entityClasses[..i + 1] == entityClasses[..i] + [entityClasses[i]];
        i := i + 1;
      }
      assert entityClasses[..i] == entityClasses;
      return false;
    }

    /** `registerEntityClass(c)`: appends `c` unless it is already registered. */
    method RegisterEntityClass(c: string)
      requires Valid()
      modifies this
      ensures Valid()
      ensures entityClasses == RegisterAll(old(entityClasses), [c])
      ensures sessionFactory == old(sessionFactory)
    {
      var present := Contains(c);
      assert [c][..0] == [];
      if !present {
        entityClasses := entityClasses + [c];
      }
    }

    /** `buildSessionFactory()`: every registered class is added to the metadata, in list
        order, and the factory built from it replaces any earlier one. */
    method BuildSessionFactory()
      modifies this
      ensures sessionFactory == Some(SessionFactory(entityClasses, false))
      ensures entityClasses == old(entityClasses)
    {
      var annotated := [];
      var i := 0;
      while i < |entityClasses|
        invariant 0 <= i <= |entityClasses|
        invariant annotated == entityClasses[..i]
      {
        annotated := annotated + [entityClasses[i]];
        assert entityClasses[..i + 1] == entityClasses[..i] + [entityClasses[i]];
        i := i + 1;
      }
      assert entityClasses[..i] == entityClasses;
      sessionFactory := Some(SessionFactory(annotated, false));
    }

    /** `shutdownSessionFactory()`: closes the factory if there is one; the field keeps it. */
    method ShutdownSessionFactory()
      modifies this
      ensures sessionFactory == if old(sessionFactory).Some? then Some(old(sessionFactory).value.(closed := true)) else None
      ensures entityClasses == old(entityClasses)
    {
      if sessionFactory.Some? {
        sessionFactory := Some(sessionFactory.value.(closed := true));
      }
    }

    /** `getSession()`: fails with `IllegalStateException` until a factory has been built. */
    method GetSession() returns (r: Result<Session, string>)
      ensures r.Failure? <==> sessionFactory.None?
      ensures r.Failure? ==> r.error == NotBuilt
      ensures r.Success? ==> r.value.entityClasses == sessionFactory.value.annotatedClasses
    {
      if sessionFactory.None? {
        return Failure(NotBuilt);
      }
      return Success(Session(sessionFactory.value.annotatedClasses));
    }
  }
}
