/** What the generic repository's queries do to a table's rows, in table order: filtering by
    a condition, counting matches, taking the first match, and cutting out a page with
    `setFirstResult(page * limit)` and `setMaxResults(limit)`. */
module Query {
  import opened Wrappers

  /** The rows satisfying `p`, in table order. */
  function Filter<T>(s: seq<T>, p: T -> bool): (r: seq<T>)
    ensures |r| <= |s|
    ensures forall i :: 0 <= i < |r| ==> r[i] in s && p(r[i])
    ensures forall i :: 0 <= i < |s| && p(s[i]) ==> s[i] in r
    decreases |s|
  {
    if s == [] then []
    else
      var n := |s| - 1;
      assert s == s[..n] + [s[n]];
      Filter(s[..n], p) + (if p(s[n]) then [s[n]] else [])
  }

  /** `COUNT(*)` over the rows satisfying `p`. */
  function Count<T>(s: seq<T>, p: T -> bool): nat
    decreases |s|
  {
    if s == [] then 0
    else (if p(s[0]) then 1 else 0) + Count(s[1..], p)
  }

  lemma {:induction false} FilterConcat<T>(a: seq<T>, b: seq<T>, p: T -> bool)
    ensures Filter(a + b, p) == Filter(a, p) + Filter(b, p)
    decreases |b|
  {
    if b == [] {
      assert a + b == a;
    } else {
      var n := |b| - 1;
      var last := if p(b[n]) then [b[n]] else [];
      calc {
        Filter(a + b, p);
      == { assert a + b == (a + b[..n]) + [b[n]]; FilterSnoc(a + b[..n], b[n], p); }
        Filter(a + b[..n], p) + last;
      == { FilterConcat(a, b[..n], p); }
        (Filter(a, p) + Filter(b[..n], p)) + last;
      ==
        Filter(a, p) + (Filter(b[..n], p) + last);
      == { assert b[..n] + [b[n]] == b; FilterSnoc(b[..n], b[n], p); }
        Filter(a, p) + Filter(b, p);
      }
    }
  }

  /** Filtering a table with one more row at the end. */
  lemma FilterSnoc<T>(s: seq<T>, x: T, p: T -> bool)
    ensures Filter(s + [x], p) == Filter(s, p) + (if p(x) then [x] else [])
  {
    assert (s + [x])[..|s|] == s;
  }

  /** The count is the number of rows the filter keeps, and it is zero exactly when no row
      satisfies `p`. */
  lemma {:induction false} CountIsFilterLength<T>(s: seq<T>, p: T -> bool)
    ensures Count(s, p) == |Filter(s, p)|
    ensures Count(s, p) == 0 <==> forall i :: 0 <= i < |s| ==> !p(s[i])
    decreases |s|
  {
    if s != [] {
      CountIsFilterLength(s[1..], p);
      FilterConcat([s[0]], s[1..], p);
      assert [s[0]] + s[1..] == s;
      assert [s[0]][..0] == [];
      if Count(s, p) == 0 {
        forall i | 0 <= i < |s|
          ensures !p(s[i])
        {
          if i > 0 {
            assert s[i] == s[1..][i - 1];
          }
        }
      }
    }
  }

  /** The position of the first row satisfying `p`, if any. */
  function IndexWhere<T>(s: seq<T>, p: T -> bool): (r: Option<nat>)
    ensures r.None? <==> forall i :: 0 <= i < |s| ==> !p(s[i])
    ensures r.Some? ==> r.value < |s| && p(s[r.value]) && forall j :: 0 <= j < r.value ==> !p(s[j])
    decreases |s|
  {
    if s == [] then None
    else if p(s[0]) then Some(0)
    else
      var r := IndexWhere(s[1..], p);
      assert forall i :: 1 <= i < |s| ==> s[i] == s[1..][i - 1];
      if r.None? then None else Some(r.value + 1)
  }

  /** The first row satisfying `p`, if any (`uniqueResultOptional` over a unique column). */
  function FirstMatch<T>(s: seq<T>, p: T -> bool): (r: Option<T>)
    ensures r.None? <==> forall i :: 0 <= i < |s| ==> !p(s[i])
    ensures r.Some? ==> r.value in s && p(r.value)
  {
    match IndexWhere(s, p)
    case None => None
    case Some(i) => Some(s[i])
  }

  /** When exactly one row satisfies `p`, that row is the first match, wherever it sits. */
  lemma FirstMatchOfUnique<T>(s: seq<T>, p: T -> bool, i: nat)
    requires i < |s| && p(s[i])
    requires forall j :: 0 <= j < |s| && j != i ==> !p(s[j])
    ensures IndexWhere(s, p) == Some(i)
    ensures FirstMatch(s, p) == Some(s[i])
  {
    var k := IndexWhere(s, p);
    assert k.Some?;
    assert k.value == i;
  }

  /** `setFirstResult(offset).setMaxResults(limit)`: at most `limit` rows, from `offset` on. */
  function Slice<T>(s: seq<T>, offset: nat, limit: nat): (r: seq<T>)
    ensures |r| <= limit
    ensures offset <= |s| ==> |r| == if |s| - offset < limit then |s| - offset else limit
    ensures offset >= |s| ==> r == []
    ensures forall i :: 0 <= i < |r| ==> offset + i < |s| && r[i] == s[offset + i]
  {
    if offset >= |s| then []
    else if offset + limit <= |s| then s[offset..offset + limit]
    else s[offset..]
  }

  /** Two consecutive pages together are the one page that spans both. */
  lemma SlicesConcatenate<T>(s: seq<T>, offset: nat, a: nat, b: nat)
    ensures Slice(s, offset, a) + Slice(s, offset + a, b) == Slice(s, offset, a + b)
  {
    var left := Slice(s, offset, a);
    var right := Slice(s, offset + a, b);
    var whole := Slice(s, offset, a + b);
    assert |left + right| == |whole|;
    forall i | 0 <= i < |whole|
      ensures (left + right)[i] == whole[i]
    {
      if i >= |left| {
        assert |left| == a;
      }
    }
  }

  /** Reading the pages of `size` rows one after another from page 0 yields the rows in
      order: the first `pages` pages together are the first `pages * size` rows. */
  lemma {:induction false} PagesCoverRows<T>(s: seq<T>, size: nat, pages: nat)
    ensures Pages(s, size, pages) == Slice(s, 0, pages * size)
  {
    if pages > 0 {
      PagesCoverRows(s, size, pages - 1);
      SlicesConcatenate(s, 0, (pages - 1) * size, size);
      assert (pages - 1) * size + size == pages * size;
    }
  }

  /** Pages 0 to `pages - 1` of `size` rows, concatenated. */
  function Pages<T>(s: seq<T>, size: nat, pages: nat): seq<T> {
    if pages == 0 then [] else Pages(s, size, pages - 1) + Slice(s, (pages - 1) * size, size)
  }
}
