/** How the plugin controller orders discovered plugins before activating them:
    a stable case-insensitive sort by name, then repeated passes over the pending
    plugins that move a plugin into the load order once every one of its hard
    dependencies has been placed, until a pass places nothing. */
module LoadOrder {
  import opened PluginMetadata
  import opened CaseInsensitive

  // ---------------------------------------------------------------------------
  // Sorting by name
  // ---------------------------------------------------------------------------

  predicate SortedByName(s: seq<Descriptor>) {
    forall i, j :: 0 <= i < j < |s| ==> NameLessEq(s[i].name, s[j].name)
  }

  /** Inserts `p` in front of the first element it does not come after. */
  function Insert(p: Descriptor, s: seq<Descriptor>): seq<Descriptor> {
    if s == [] || NameLessEq(p.name, s[0].name) then [p] + s
    else [s[0]] + Insert(p, s[1..])
  }

  /** Inserting adds exactly `p` to the plugins. */
  lemma {:induction false} InsertIsPermutation(p: Descriptor, s: seq<Descriptor>)
    ensures multiset(Insert(p, s)) == multiset(s) + multiset{p}
  {
    if s != [] && !NameLessEq(p.name, s[0].name) {
      InsertIsPermutation(p, s[1..]);
      assert s == [s[0]] + s[1..];
    }
  }

  lemma {:induction false} InsertKeepsSorted(p: Descriptor, s: seq<Descriptor>)
    requires SortedByName(s)
    ensures SortedByName(Insert(p, s))
  {
    if s == [] {
    } else if NameLessEq(p.name, s[0].name) {
      var r := [p] + s;
      forall i, j | 0 <= i < j < |r|
        ensures NameLessEq(r[i].name, r[j].name)
      {
        if i == 0 && j > 1 {
          NameTransitive(p.name, s[0].name, s[j - 1].name);
        }
      }
    } else {
      NameTotal(p.name, s[0].name);
      InsertKeepsSorted(p, s[1..]);
      var t := Insert(p, s[1..]);
      forall k | 0 <= k < |s[1..]|
        ensures NameLessEq(s[0].name, s[1..][k].name)
      {
        assert s[1..][k] == s[k + 1];
      }
      InsertKeepsLowerBound(p, s[1..], s[0].name);
      var r := [s[0]] + t;
      forall i, j | 0 <= i < j < |r|
        ensures NameLessEq(r[i].name, r[j].name)
      {
        if i > 0 {
          assert r[i] == t[i - 1] && r[j] == t[j - 1];
        }
      }
    }
  }

  /** Inserting a plugin that comes after `lo` among plugins that all come after `lo` gives
      plugins that all come after `lo`. */
  lemma {:induction false} InsertKeepsLowerBound(p: Descriptor, s: seq<Descriptor>, lo: string)
    requires NameLessEq(lo, p.name)
    requires forall k :: 0 <= k < |s| ==> NameLessEq(lo, s[k].name)
    ensures forall k :: 0 <= k < |Insert(p, s)| ==> NameLessEq(lo, Insert(p, s)[k].name)
  {
    if s == [] || NameLessEq(p.name, s[0].name) {
      var r := [p] + s;
      forall k | 0 <= k < |r|
        ensures NameLessEq(lo, r[k].name)
      {
        if k > 0 {
          assert r[k] == s[k - 1];
        }
      }
    } else {
      forall k | 0 <= k < |s[1..]|
        ensures NameLessEq(lo, s[1..][k].name)
      {
        assert s[1..][k] == s[k + 1];
      }
      InsertKeepsLowerBound(p, s[1..], lo);
      var t := Insert(p, s[1..]);
      var r := [s[0]] + t;
      forall k | 0 <= k < |r|
        ensures NameLessEq(lo, r[k].name)
      {
        if k > 0 {
          assert r[k] == t[k - 1];
        }
      }
    }
  }

  /** The stable case-insensitive sort applied to the discovered plugins (an insertion sort
      standing in for the library's merge sort; both are stable, so they agree). */
  function SortByName(s: seq<Descriptor>): seq<Descriptor> {
    if s == [] then [] else Insert(s[0], SortByName(s[1..]))
  }

  /** The sort returns a permutation of its input, ordered by name ignoring case. */
  lemma {:induction false} SortByNameSorts(s: seq<Descriptor>)
    ensures multiset(SortByName(s)) == multiset(s)
    ensures SortedByName(SortByName(s))
  {
    if s != [] {
      assert s == [s[0]] + s[1..];
      SortByNameSorts(s[1..]);
      InsertIsPermutation(s[0], SortByName(s[1..]));
      InsertKeepsSorted(s[0], SortByName(s[1..]));
    }
  }

  /** The first plugin of a sorted list comes no later by name than any plugin of it. */
  lemma HeadIsLeast(s: seq<Descriptor>, x: Descriptor)
    requires SortedByName(s) && x in s
    ensures x == s[0] || NameLessEq(s[0].name, x.name)
  {
    var k :| 0 <= k < |s| && s[k] == x;
    if k != 0 {
      assert NameLessEq(s[0].name, s[k].name);
    }
  }

  /** No two different plugins of `s` have the same folded name. */
  predicate FoldsAreUnique(s: seq<Descriptor>) {
    forall x, y :: x in s && y in s && Fold(x.name) == Fold(y.name) ==> x == y
  }

  /** Dropping the first plugin keeps a list sorted. */
  lemma TailSorted(s: seq<Descriptor>)
    requires s != [] && SortedByName(s)
    ensures SortedByName(s[1..])
  {
    forall i, j | 0 <= i < j < |s| - 1 ensures NameLessEq(s[1..][i].name, s[1..][j].name) {
      assert s[1..][i] == s[i + 1] && s[1..][j] == s[j + 1];
    }
  }

  /** Dropping the first plugin keeps the folded names unique and removes exactly that
      plugin. */
  lemma TailFolds(s: seq<Descriptor>)
    requires s != []
    ensures FoldsAreUnique(s) ==> FoldsAreUnique(s[1..])
    ensures multiset(s[1..]) == multiset(s) - multiset{s[0]}
  {
    assert s == [s[0]] + s[1..];
    forall x | x in s[1..] ensures x in s {
      var i :| 0 <= i < |s[1..]| && s[1..][i] == x;
      assert x == s[i + 1];
    }
  }

  /** Two sorted arrangements of the same plugins, no two sharing a folded name, have the
      same length and start with the same plugin. */
  lemma HeadsAgree(s: seq<Descriptor>, t: seq<Descriptor>)
    requires SortedByName(s) && SortedByName(t) && multiset(s) == multiset(t) && FoldsAreUnique(s)
    ensures |s| == |t|
    ensures s != [] ==> s[0] == t[0]
  {
    assert |multiset(s)| == |s| && |multiset(t)| == |t|;
    if s != [] {
      assert s[0] in multiset(s) && t[0] in multiset(t);
      HeadIsLeast(t, s[0]);
      HeadIsLeast(s, t[0]);
      NameEquivalent(s[0].name, t[0].name);
    }
  }

  /** Lists with the same first element and the same rest are equal. */
  lemma SameHeadSameTail<T>(s: seq<T>, t: seq<T>)
    requires s != [] && t != [] && s[0] == t[0] && s[1..] == t[1..]
    ensures s == t
  {
    assert s == [s[0]] + s[1..] && t == [t[0]] + t[1..];
  }

  /** When no two of the plugins share a folded name, there is only one way to order them by
      name: two sorted arrangements of the same plugins are equal. */
  lemma {:induction false} SortedArrangementIsUnique(s: seq<Descriptor>, t: seq<Descriptor>)
    requires SortedByName(s) && SortedByName(t) && multiset(s) == multiset(t) && FoldsAreUnique(s)
    ensures s == t
    decreases |s|
  {
    HeadsAgree(s, t);
    if s != [] {
      TailSorted(s);
      TailSorted(t);
      TailFolds(s);
      TailFolds(t);
      SortedArrangementIsUnique(s[1..], t[1..]);
      SameHeadSameTail(s, t);
    }
  }

  /** The plugins whose folded name is `key`, in their order in `s`. */
  function WithFoldedName(s: seq<Descriptor>, key: string): seq<Descriptor> {
    if s == [] then []
    else (if Fold(s[0].name) == key then [s[0]] else []) + WithFoldedName(s[1..], key)
  }

  lemma {:induction false} InsertIsStable(p: Descriptor, s: seq<Descriptor>, key: string)
    ensures WithFoldedName(Insert(p, s), key)
         == (if Fold(p.name) == key then [p] else []) + WithFoldedName(s, key)
  {
    if s == [] {
      assert [p] + s == [p];
    } else if NameLessEq(p.name, s[0].name) {
      assert ([p] + s)[1..] == s;
    } else {
      InsertIsStable(p, s[1..], key);
      if Fold(p.name) == Fold(s[0].name) {
        LexReflexive(Fold(p.name));
      }
      assert ([s[0]] + Insert(p, s[1..]))[1..] == Insert(p, s[1..]);
    }
  }

  /** Stability: plugins whose names are equal ignoring case keep their discovery order. */
  lemma {:induction false} SortIsStable(s: seq<Descriptor>, key: string)
    ensures WithFoldedName(SortByName(s), key) == WithFoldedName(s, key)
  {
    if s != [] {
      SortIsStable(s[1..], key);
      InsertIsStable(s[0], SortByName(s[1..]), key);
    }
  }

  // ---------------------------------------------------------------------------
  // Dependency resolution
  // ---------------------------------------------------------------------------

  /** A plugin may be placed once each of its hard dependencies names a placed plugin
      (exact, case-sensitive string membership; soft dependencies are not looked at). */
  predicate Eligible(p: Descriptor, loaded: set<string>) {
    forall d :: d in p.dependencies ==> d in loaded
  }

  /** Every plugin of `order` is eligible with respect to the plugins before it. */
  predicate DependenciesFirst(order: seq<Descriptor>) {
    forall i :: 0 <= i < |order| ==> Eligible(order[i], Names(order[..i]))
  }

  /** The resolver's state: the load order so far, the plugins kept for a later pass, and
      the set of placed names. */
  datatype PassState = PassState(order: seq<Descriptor>, kept: seq<Descriptor>, loaded: set<string>)

  /** One pass over `pending`, defined on its prefixes so that a plugin placed earlier in
      the pass counts as loaded for the plugins after it. */
  function Pass(pending: seq<Descriptor>, start: PassState): (r: PassState)
    ensures start.order <= r.order && start.kept <= r.kept
    ensures |r.order| + |r.kept| == |start.order| + |start.kept| + |pending|
    decreases |pending|
  {
    if pending == [] then start
    else
      var s := Pass(pending[..|pending| - 1], start);
      var p := pending[|pending| - 1];
      if Eligible(p, s.loaded) then PassState(s.order + [p], s.kept, s.loaded + {p.name})
      else PassState(s.order, s.kept + [p], s.loaded)
  }

  /** Passes repeated until one places nothing; the result's `kept` are the leftovers. */
  function Resolve(pending: seq<Descriptor>, order: seq<Descriptor>, loaded: set<string>): PassState
    decreases |pending|
  {
    var s := Pass(pending, PassState(order, [], loaded));
    if |s.order| == |order| then s
    else Resolve(s.kept, s.order, s.loaded)
  }

  /** The load order and leftovers computed from the discovered plugins. */
  function LoadOrderOf(plugins: seq<Descriptor>): PassState {
    Resolve(SortByName(plugins), [], {})
  }

  lemma NamesAppend(order: seq<Descriptor>, p: Descriptor)
    ensures Names(order + [p]) == Names(order) + {p.name}
  {
    forall n | n in Names(order)
      ensures n in Names(order + [p])
    {
      var q :| q in order && q.name == n;
      assert q in order + [p];
    }
  }

  lemma AppendKeepsDependenciesFirst(order: seq<Descriptor>, p: Descriptor)
    requires DependenciesFirst(order)
    requires Eligible(p, Names(order))
    ensures DependenciesFirst(order + [p])
  {
    var r := order + [p];
    forall i | 0 <= i < |r|
      ensures Eligible(r[i], Names(r[..i]))
    {
      assert r[..i] == if i < |order| then order[..i] else order;
    }
  }

  /** A pass neither loses nor duplicates a plugin. */
  lemma {:induction false} PassPartitions(pending: seq<Descriptor>, start: PassState)
    ensures multiset(Pass(pending, start).order) + multiset(Pass(pending, start).kept)
         == multiset(start.order) + multiset(start.kept) + multiset(pending)
  {
    if pending != [] {
      var init := pending[..|pending| - 1];
      var p := pending[|pending| - 1];
      PassPartitions(init, start);
      var s := Pass(init, start);
      assert pending == init + [p];
      assert multiset(pending) == multiset(init) + multiset{p};
      if Eligible(p, s.loaded) {
        assert Pass(pending, start).order == s.order + [p] && Pass(pending, start).kept == s.kept;
        assert multiset(s.order + [p]) == multiset(s.order) + multiset{p};
        assert multiset(s.order + [p]) + multiset(s.kept)
            == multiset(start.order) + multiset(start.kept) + multiset(init) + multiset{p};
      } else {
        assert Pass(pending, start).order == s.order && Pass(pending, start).kept == s.kept + [p];
        assert multiset(s.kept + [p]) == multiset(s.kept) + multiset{p};
        assert multiset(s.order) + multiset(s.kept + [p])
            == multiset(start.order) + multiset(start.kept) + multiset(init) + multiset{p};
      }
    }
  }

  /** A pass keeps `loaded` equal to the placed names and every plugin after its
      dependencies. */
  lemma {:induction false} PassKeepsInvariant(pending: seq<Descriptor>, start: PassState)
    requires start.loaded == Names(start.order) && DependenciesFirst(start.order)
    ensures Pass(pending, start).loaded == Names(Pass(pending, start).order)
    ensures DependenciesFirst(Pass(pending, start).order)
  {
    if pending != [] {
      var init := pending[..|pending| - 1];
      var p := pending[|pending| - 1];
      PassKeepsInvariant(init, start);
      var s := Pass(init, start);
      if Eligible(p, s.loaded) {
        AppendKeepsDependenciesFirst(s.order, p);
        NamesAppend(s.order, p);
      }
    }
  }

  /** A pass that places nothing keeps every plugin, and none of them was eligible. */
  lemma {:induction false} PassWithoutProgress(pending: seq<Descriptor>, start: PassState)
    requires |Pass(pending, start).order| == |start.order|
    ensures Pass(pending, start) == PassState(start.order, start.kept + pending, start.loaded)
    ensures forall p :: p in pending ==> !Eligible(p, start.loaded)
  {
    if pending == [] {
      assert start.kept + pending == start.kept;
    } else {
      var init := pending[..|pending| - 1];
      var p := pending[|pending| - 1];
      var s := Pass(init, start);
      assert |s.order| == |start.order|;
      PassWithoutProgress(init, start);
      assert pending == init + [p];
      assert start.kept + pending == start.kept + init + [p];
    }
  }

  /** What repeated passes establish: the invariant of a pass, nothing lost or
      duplicated, and a fixpoint in which no leftover is eligible. */
  lemma {:induction false} ResolveIsSound(pending: seq<Descriptor>, order: seq<Descriptor>, loaded: set<string>)
    requires loaded == Names(order) && DependenciesFirst(order)
    ensures Resolve(pending, order, loaded).loaded == Names(Resolve(pending, order, loaded).order)
    ensures DependenciesFirst(Resolve(pending, order, loaded).order)
    ensures multiset(Resolve(pending, order, loaded).order) + multiset(Resolve(pending, order, loaded).kept)
         == multiset(order) + multiset(pending)
    ensures forall p :: p in Resolve(pending, order, loaded).kept ==> !Eligible(p, Resolve(pending, order, loaded).loaded)
    decreases |pending|
  {
    var start := PassState(order, [], loaded);
    var s := Pass(pending, start);
    PassKeepsInvariant(pending, start);
    PassPartitions(pending, start);
    if |s.order| == |order| {
      PassWithoutProgress(pending, start);
      assert [] + pending == pending;
    } else {
      ResolveIsSound(s.kept, s.order, s.loaded);
    }
  }

  /** The resolver's guarantees for the discovered plugins: the load order and the
      leftovers together are exactly the input; each plugin of the load order comes
      after a plugin named by each of its hard dependencies; `loaded` holds exactly the
      placed names; and each leftover has a hard dependency that was never placed. */
  lemma LoadOrderIsSound(plugins: seq<Descriptor>)
    ensures multiset(LoadOrderOf(plugins).order) + multiset(LoadOrderOf(plugins).kept) == multiset(plugins)
    ensures LoadOrderOf(plugins).loaded == Names(LoadOrderOf(plugins).order)
    ensures forall i, d :: 0 <= i < |LoadOrderOf(plugins).order| && d in LoadOrderOf(plugins).order[i].dependencies ==>
              exists j :: 0 <= j < i && LoadOrderOf(plugins).order[j].name == d
    ensures forall p :: p in LoadOrderOf(plugins).kept ==>
              exists d :: d in p.dependencies && d !in LoadOrderOf(plugins).loaded
  {
    var r := LoadOrderOf(plugins);
    SortByNameSorts(plugins);
    ResolveIsSound(SortByName(plugins), [], {});
    forall i, d | 0 <= i < |r.order| && d in r.order[i].dependencies
      ensures exists j :: 0 <= j < i && r.order[j].name == d
    {
      DependencyPlacedBefore(r.order, i, d);
    }
  }

  lemma DependencyPlacedBefore(order: seq<Descriptor>, i: int, d: string)
    requires DependenciesFirst(order)
    requires 0 <= i < |order| && d in order[i].dependencies
    ensures exists j :: 0 <= j < i && order[j].name == d
  {
    assert Eligible(order[i], Names(order[..i]));
    var q :| q in order[..i] && q.name == d;
    var j :| 0 <= j < i && order[..i][j] == q;
    assert order[j] == q;
  }

  // ---------------------------------------------------------------------------
  // Soft dependencies play no part in ordering
  // ---------------------------------------------------------------------------

  function DropSoft(p: Descriptor): Descriptor {
    p.(softDependencies := [])
  }

  /** The descriptors with their soft-dependency lists emptied. */
  function WithoutSoft(ps: seq<Descriptor>): seq<Descriptor> {
    seq(|ps|, i requires 0 <= i < |ps| => DropSoft(ps[i]))
  }

  function StateWithoutSoft(st: PassState): PassState {
    PassState(WithoutSoft(st.order), WithoutSoft(st.kept), st.loaded)
  }

  lemma {:induction false} InsertWithoutSoft(p: Descriptor, s: seq<Descriptor>)
    ensures Insert(DropSoft(p), WithoutSoft(s)) == WithoutSoft(Insert(p, s))
  {
    if s == [] {
    } else if NameLessEq(p.name, s[0].name) {
      WithoutSoftCons(p, s);
    } else {
      InsertWithoutSoft(p, s[1..]);
      assert s == [s[0]] + s[1..];
      WithoutSoftCons(s[0], s[1..]);
      WithoutSoftCons(s[0], Insert(p, s[1..]));
    }
  }

  lemma WithoutSoftCons(x: Descriptor, s: seq<Descriptor>)
    ensures WithoutSoft([x] + s) == [DropSoft(x)] + WithoutSoft(s)
  {
    assert forall i :: 1 <= i < |s| + 1 ==> ([x] + s)[i] == s[i - 1];
  }

  lemma {:induction false} SortWithoutSoft(s: seq<Descriptor>)
    ensures SortByName(WithoutSoft(s)) == WithoutSoft(SortByName(s))
  {
    if s != [] {
      SortWithoutSoft(s[1..]);
      assert WithoutSoft(s)[1..] == WithoutSoft(s[1..]);
      InsertWithoutSoft(s[0], SortByName(s[1..]));
    }
  }

  lemma {:induction false} PassWithoutSoft(pending: seq<Descriptor>, start: PassState)
    ensures Pass(WithoutSoft(pending), StateWithoutSoft(start)) == StateWithoutSoft(Pass(pending, start))
  {
    if pending != [] {
      var init := pending[..|pending| - 1];
      var p := pending[|pending| - 1];
      PassWithoutSoft(init, start);
      assert WithoutSoft(pending)[..|pending| - 1] == WithoutSoft(init);
      var s := Pass(init, start);
      assert WithoutSoft(s.order + [p]) == WithoutSoft(s.order) + [DropSoft(p)];
      assert WithoutSoft(s.kept + [p]) == WithoutSoft(s.kept) + [DropSoft(p)];
    }
  }

  lemma {:induction false} ResolveWithoutSoft(pending: seq<Descriptor>, order: seq<Descriptor>, loaded: set<string>)
    ensures Resolve(WithoutSoft(pending), WithoutSoft(order), loaded)
         == StateWithoutSoft(Resolve(pending, order, loaded))
    decreases |pending|
  {
    var start := PassState(order, [], loaded);
    assert StateWithoutSoft(start) == PassState(WithoutSoft(order), [], loaded);
    PassWithoutSoft(pending, start);
    var s := Pass(pending, start);
    if |s.order| != |order| {
      ResolveWithoutSoft(s.kept, s.order, s.loaded);
    }
  }

  /** Soft dependencies are never consulted: emptying every plugin's soft-dependency list
      changes neither the load order nor the leftovers (beyond those lists themselves). */
  lemma SoftDependenciesIgnored(plugins: seq<Descriptor>)
    ensures LoadOrderOf(WithoutSoft(plugins)) == StateWithoutSoft(LoadOrderOf(plugins))
  {
    SortWithoutSoft(plugins);
    assert WithoutSoft([]) == [];
    ResolveWithoutSoft(SortByName(plugins), [], {});
  }

  /** The hard dependencies of `deps` that are not in `loaded`, in declaration order. */
  function MissingDependencies(deps: seq<string>, loaded: set<string>): (r: seq<string>)
    ensures forall d :: d in r <==> d in deps && d !in loaded
  {
    if deps == [] then []
    else (if deps[0] in loaded then [] else [deps[0]]) + MissingDependencies(deps[1..], loaded)
  }

  /** A leftover plugin, reported with the hard dependencies that were never placed. */
  datatype Unresolved = Unresolved(name: string, missing: seq<string>)

  /** One pass of the resolver's inner loop: walks `pending` with an iterator, moving each
      eligible plugin to the load order (and its name to `loaded`) and keeping the rest. */
  method RunPass(pending: seq<Descriptor>, order: seq<Descriptor>, loaded: set<string>)
      returns (order': seq<Descriptor>, kept: seq<Descriptor>, loaded': set<string>, progress: bool)
    ensures Pass(pending, PassState(order, [], loaded)) == PassState(order', kept, loaded')
    ensures progress <==> |order'| > |order|
  {
    order', kept, loaded' := order, [], loaded;
    progress := false;
    var i := 0;
    while i < |pending|
      invariant 0 <= i <= |pending|
      invariant Pass(pending[..i], PassState(order, [], loaded)) == PassState(order', kept, loaded')
      invariant progress <==> |order'| > |order|
    {
      var plugin := pending[i];
      assert pending[..i + 1][..i] == pending[..i];
      if forall d :: d in plugin.dependencies ==> d in loaded' {
        order' := order' + [plugin];
        loaded' := loaded' + {plugin.name};
        progress := true;
      } else {
        kept := kept + [plugin];
      }
      i := i + 1;
    }
    assert pending[..i] == pending;
  }

  /** Each leftover with the hard dependencies missing from `loaded`. */
  method ReportLeftovers(pending: seq<Descriptor>, loaded: set<string>) returns (report: seq<Unresolved>)
    ensures |report| == |pending|
    ensures forall k :: 0 <= k < |report| ==>
              report[k].name == pending[k].name &&
              forall d :: d in report[k].missing <==> d in pending[k].dependencies && d !in loaded
  {
    report := [];
    var k := 0;
    while k < |pending|
      invariant 0 <= k <= |pending|
      invariant |report| == k
      invariant forall m :: 0 <= m < k ==>
                  report[m] == Unresolved(pending[m].name, MissingDependencies(pending[m].dependencies, loaded))
    {
      report := report + [Unresolved(pending[k].name, MissingDependencies(pending[k].dependencies, loaded))];
      k := k + 1;
    }
  }

  /** Sorts the discovered plugins, runs passes over the pending list until one makes no
      progress, and reports each leftover with its missing dependencies. */
  method ResolveLoadOrder(plugins: seq<Descriptor>)
      returns (loadOrder: seq<Descriptor>, pending: seq<Descriptor>, report: seq<Unresolved>)
    ensures LoadOrderOf(plugins) == PassState(loadOrder, pending, Names(loadOrder))
    ensures DependenciesFirst(loadOrder)
    ensures multiset(loadOrder) + multiset(pending) == multiset(plugins)
    ensures |report| == |pending|
    ensures forall k :: 0 <= k < |report| ==>
              report[k].name == pending[k].name && report[k].missing != [] &&
              forall d :: d in report[k].missing <==> d in pending[k].dependencies && d !in Names(loadOrder)
  {
    var sorted := SortByName(plugins);
    loadOrder := [];
    var loaded: set<string> := {};
    pending := sorted;
    var progress := true;
    while progress
      invariant progress ==> Resolve(pending, loadOrder, loaded) == LoadOrderOf(plugins)
      invariant !progress ==> PassState(loadOrder, pending, loaded) == LoadOrderOf(plugins)
      decreases |pending| + (if progress then 1 else 0)
    {
      loadOrder, pending, loaded, progress := RunPass(pending, loadOrder, loaded);
    }
    SortByNameSorts(plugins);
    ResolveIsSound(sorted, [], {});
    report := ReportLeftovers(pending, loaded);
    forall k | 0 <= k < |report|
      ensures report[k].missing != []
    {
      assert pending[k] in pending;
      var d :| d in pending[k].dependencies && d !in loaded;
      assert d in report[k].missing;
    }
  }
}
