/** The reports plugin's repository: one in-memory map from report id to report, shared by
    every user of the repository's single instance. */
module Reports {
  import opened Wrappers

  /** A report as the repository sees it: its id and display name. */
  datatype Report = Report(id: string, name: string)

  /** The map after storing `r` under its id. */
  function Stored(m: map<string, Report>, r: Report): (m': map<string, Report>)
    ensures m'.Keys == m.Keys + {r.id}
  {
    m[r.id := r]
  }

  /** The map after removing whatever is stored under `r`'s id. */
  function Removed(m: map<string, Report>, r: Report): (m': map<string, Report>)
    ensures m'.Keys == m.Keys - {r.id}
  {
    m - {r.id}
  }

  /** `HashMap.get`, with null as `None`. */
  function Get(m: map<string, Report>, id: string): (r: Option<Report>)
    ensures r.Some? <==> id in m
  {
    if id in m then Some(m[id]) else None
  }

  /** Every entry is stored under its own id (how `save` files entries). */
  predicate KeyedById(m: map<string, Report>) {
    forall id :: id in m ==> m[id].id == id
  }

  /** After storing `r`, looking up its id gives `r`, and every other id is looked up as before. */
  lemma StoredIsFound(m: map<string, Report>, r: Report, other: string)
    requires KeyedById(m)
    ensures r.id in Stored(m, r) && Stored(m, r)[r.id] == r
    ensures KeyedById(Stored(m, r))
    ensures other != r.id ==> (other in Stored(m, r) <==> other in m)
    ensures other != r.id && other in m ==> Stored(m, r)[other] == m[other]
  {
  }

  /** Removing first does not change what storing leaves behind, and storing twice is storing once. */
  lemma StoreAfterRemove(m: map<string, Report>, r: Report)
    ensures Stored(Removed(m, r), r) == Stored(m, r)
    ensures Stored(Stored(m, r), r) == Stored(m, r)
  {
    assert Stored(Removed(m, r), r).Keys == Stored(m, r).Keys;
  }

  class ReportsRepository {
    /** The static `HashMap` the repository delegates to. */
    var delegate: map<string, Report>

    ghost predicate Valid()
      reads this
    {
      KeyedById(delegate)
    }

    constructor()
      ensures Valid() && delegate == map[]
    {
      delegate := map[];
    }

    /** `Optional.ofNullable(delegate.get(id))`. */
    method FindById(id: string) returns (r: Option<Report>)
      requires Valid()
      ensures r.Some? <==> id in delegate
      ensures r.Some? ==> r.value.id == id && r.value == delegate[id]
    {
      r := Get(delegate, id);
    }

    /** `List.copyOf(delegate.values())`: every stored report once, in the map's own
        iteration order (left unspecified). */
    method FindAll() returns (all: seq<Report>)
      requires Valid()
      ensures |all| == |delegate|
      ensures forall r :: r in all <==> r in delegate.Values
      ensures forall i, j :: 0 <= i < j < |all| ==> all[i].id != all[j].id
    {
      all := [];
      var keys := delegate.Keys;
      while keys != {}
        invariant keys <= delegate.Keys
        invariant |all| + |keys| == |delegate.Keys|
        invariant forall r :: r in all ==> r.id in delegate && delegate[r.id] == r && r.id !in keys
        invariant forall k :: k in delegate && k !in keys ==> delegate[k] in all
        invariant forall i, j :: 0 <= i < j < |all| ==> all[i].id != all[j].id
        decreases |keys|
      {
        var k :| k in keys;
        all := all + [delegate[k]];
        keys := keys - {k};
      }
      assert |delegate.Keys| == |delegate|;
      forall r | r in delegate.Values
        ensures r in all
      {
        var k :| k in delegate && delegate[k] == r;
      }
    }

    /** `delete(entity)`: a null entity changes nothing; otherwise only its id is removed. */
    method Delete(entity: Option<Report>)
      requires Valid()
      modifies this
      ensures Valid()
      ensures delegate == if entity.None? then old(delegate) else Removed(old(delegate), entity.value)
    {
      if entity.Some? {
        delegate := delegate - {entity.value.id};
      }
    }

    /** `save(entity)`: delete, then put; the returned previous value is therefore always null. */
    method Save(entity: Report) returns (previous: Option<Report>)
      requires Valid()
      modifies this
      ensures Valid()
      ensures delegate == Stored(old(delegate), entity)
      ensures previous == None
    {
      Delete(Some(entity));
      previous := Get(delegate, entity.id);
      delegate := delegate[entity.id := entity];
      StoreAfterRemove(old(delegate), entity);
    }

    /** `findOne(field, value)`: never finds anything, whatever is stored. */
    method FindOne(fieldName: string, value: string) returns (r: Option<Report>)
      ensures r == None
    {
      r := None;
    }

    /** `findAll(field, value)`: always the empty list. */
    method FindAllBy(fieldName: string, value: string) returns (r: seq<Report>)
      ensures r == []
    {
      r := [];
    }

    /** Both paged `findAll` overloads: always null, whatever page is asked for. */
    method FindPage(page: int, size: int, filter: Option<(string, string)>) returns (r: Option<seq<Report>>)
      ensures r == None
    {
      r := None;
    }
  }
}
