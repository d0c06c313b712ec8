/** The four plugins shipped with the application, as their `@Plugin` annotations
    declare them, and the order the resolver gives them. */
module BundledPlugins {
  import opened CaseInsensitive
  import opened PluginMetadata
  import opened LoadOrder

  const BookManagement := Descriptor("book-management", [], [],
    "br.edu.ifba.inf008.plugins.books.BookManagement", "books-plugin.jar")
  const UsersManagement := Descriptor("users-management", [], [],
    "br.edu.ifba.inf008.plugins.users.UsersManagement", "users-plugin.jar")
  const Reports := Descriptor("reports", [], [],
    "br.edu.ifba.inf008.plugins.reports.Reports", "reports-plugin.jar")
  const LoanManagement := Descriptor("loan-management", ["book-management", "users-management"], ["reports"],
    "br.edu.ifba.inf008.plugins.loans.LoanManagement", "loans-plugin.jar")

  /** A plugin whose hard dependency spells `book-management` with capitals. */
  const Shouting := Descriptor("loans", ["Book-Management"], [], "Loans", "loans.jar")

  /** Names beginning with different lower-case letters compare by that letter. */
  lemma CompareByFirstLetter(x: string, y: string)
    requires x != [] && y != [] && 'a' <= x[0] < y[0] <= 'z'
    ensures NameLessEq(x, y) && !NameLessEq(y, x)
  {
    assert Fold(x)[0] == x[0] && Fold(y)[0] == y[0];
  }

  lemma InsertBefore(p: Descriptor, q: Descriptor, rest: seq<Descriptor>)
    requires NameLessEq(p.name, q.name)
    ensures Insert(p, [q] + rest) == [p, q] + rest
  {
  }

  /** One step of a pass. */
  lemma PassStep(pending: seq<Descriptor>, p: Descriptor, start: PassState)
    ensures var s := Pass(pending, start);
      Pass(pending + [p], start)
      == if Eligible(p, s.loaded) then PassState(s.order + [p], s.kept, s.loaded + {p.name})
         else PassState(s.order, s.kept + [p], s.loaded)
  {
    assert (pending + [p])[..|pending|] == pending;
  }

  lemma SortStep(p: Descriptor, s: seq<Descriptor>)
    ensures SortByName([p] + s) == Insert(p, SortByName(s))
  {
    assert ([p] + s)[1..] == s;
  }

  lemma SortSorted(b: Descriptor, s: Descriptor)
    requires NameLessEq(b.name, s.name)
    ensures SortByName([b, s]) == [b, s]
  {
    SortStep(s, []);
    SortStep(b, [s]);
    InsertBefore(b, s, []);
  }

  /** The first pass over `[b, l, r, u]` where only `l` has dependencies, on `b` and `u`:
      it places `b`, `r` and `u` and keeps `l`, reached before `u` was placed. */
  lemma PassFour(b: Descriptor, l: Descriptor, r: Descriptor, u: Descriptor)
    requires b.dependencies == [] && r.dependencies == [] && u.dependencies == []
    requires l.dependencies == [b.name, u.name] && u.name != b.name
    ensures Pass([b, l, r, u], PassState([], [], {})) == PassState([b, r, u], [l], {b.name, r.name, u.name})
  {
    var start := PassState([], [], {});
    PassStep([], b, start);
    assert [] + [b] == [b];
    PassStep([b], l, start);
    assert [b] + [l] == [b, l];
    assert u.name in l.dependencies && u.name !in {b.name};
    PassStep([b, l], r, start);
    assert [b, l] + [r] == [b, l, r];
    PassStep([b, l, r], u, start);
    assert [b, l, r] + [u] == [b, l, r, u];
  }

  /** Resolving `[b, l, r, u]` where only `l` has dependencies, on `b` and `u`: the first
      pass reaches `l` before `u` is placed, so `l` is placed by the second pass. */
  lemma ResolveFour(b: Descriptor, l: Descriptor, r: Descriptor, u: Descriptor)
    requires b.dependencies == [] && r.dependencies == [] && u.dependencies == []
    requires l.dependencies == [b.name, u.name] && u.name != b.name
    ensures Resolve([b, l, r, u], [], {}) == PassState([b, r, u, l], [], {b.name, r.name, u.name, l.name})
  {
    PassFour(b, l, r, u);
    var first := PassState([b, r, u], [l], {b.name, r.name, u.name});

    var second := PassState(first.order, [], first.loaded);
    PassStep([], l, second);
    assert [] + [l] == [l];
    var final := PassState([b, r, u, l], [], {b.name, r.name, u.name, l.name});
    assert Pass([l], second) == final;
    assert Resolve([], final.order, final.loaded) == final;
  }

  /** Four plugins whose names compare in increasing order, listed in that order. */
  lemma SortedFour(b: Descriptor, l: Descriptor, r: Descriptor, u: Descriptor)
    requires NameLessEq(b.name, l.name) && NameLessEq(b.name, r.name) && NameLessEq(b.name, u.name)
    requires NameLessEq(l.name, r.name) && NameLessEq(l.name, u.name) && NameLessEq(r.name, u.name)
    ensures SortedByName([b, l, r, u])
  {
    var s := [b, l, r, u];
    forall i, j | 0 <= i < j < 4 ensures NameLessEq(s[i].name, s[j].name) {
      if i == 0 && j == 1 {} else if i == 0 && j == 2 {} else if i == 0 {}
      else if i == 1 && j == 2 {} else if i == 1 {} else {}
    }
  }

  /** Four plugins whose folded names all differ. */
  lemma UniqueFour(b: Descriptor, l: Descriptor, r: Descriptor, u: Descriptor)
    requires Fold(b.name) != Fold(l.name) && Fold(b.name) != Fold(r.name) && Fold(b.name) != Fold(u.name)
    requires Fold(l.name) != Fold(r.name) && Fold(l.name) != Fold(u.name) && Fold(r.name) != Fold(u.name)
    ensures FoldsAreUnique([b, l, r, u])
  {
    var s := [b, l, r, u];
    forall x, y | x in s && y in s && Fold(x.name) == Fold(y.name) ensures x == y {
      assert x == b || x == l || x == r || x == u;
      assert y == b || y == l || y == r || y == u;
    }
  }

  /** Names that begin with different lower-case letters compare by that letter and never
      fold to the same name. */
  lemma DistinctFirstLetters(x: string, y: string)
    requires x != [] && y != [] && 'a' <= x[0] < y[0] <= 'z'
    ensures NameLessEq(x, y) && Fold(x) != Fold(y)
  {
    CompareByFirstLetter(x, y);
    NameEquivalent(x, y);
  }

  /** Names that begin with the lower-case letters `b`, `l`, `r` and `u` in increasing order
      are sorted in that order, and no two of them fold to the same name. */
  lemma FourByFirstLetter(b: Descriptor, l: Descriptor, r: Descriptor, u: Descriptor)
    requires b.name != [] && l.name != [] && r.name != [] && u.name != []
    requires 'a' <= b.name[0] < l.name[0] < r.name[0] < u.name[0] <= 'z'
    ensures SortedByName([b, l, r, u]) && FoldsAreUnique([b, l, r, u])
  {
    DistinctFirstLetters(b.name, l.name);
    DistinctFirstLetters(b.name, r.name);
    DistinctFirstLetters(b.name, u.name);
    DistinctFirstLetters(l.name, r.name);
    DistinctFirstLetters(l.name, u.name);
    DistinctFirstLetters(r.name, u.name);
    SortedFour(b, l, r, u);
    UniqueFour(b, l, r, u);
  }

  /** Four plugins whose names begin with increasing letters, where only `l` has
      dependencies, on `b` and `u`: whatever order they are discovered in, they load as `b`,
      `r`, `u`, then `l`. */
  lemma LoadOrderOfFour(discovered: seq<Descriptor>, b: Descriptor, l: Descriptor, r: Descriptor, u: Descriptor)
    requires b.name != [] && l.name != [] && r.name != [] && u.name != []
    requires 'a' <= b.name[0] < l.name[0] < r.name[0] < u.name[0] <= 'z'
    requires b.dependencies == [] && r.dependencies == [] && u.dependencies == []
    requires l.dependencies == [b.name, u.name]
    requires multiset(discovered) == multiset{b, l, r, u}
    ensures LoadOrderOf(discovered) == PassState([b, r, u, l], [], {b.name, r.name, u.name, l.name})
  {
    SortByNameSorts(discovered);
    FourByFirstLetter(b, l, r, u);
    assert multiset([b, l, r, u]) == multiset(discovered);
    SortedArrangementIsUnique([b, l, r, u], SortByName(discovered));
    ResolveFour(b, l, r, u);
  }

  /** Whatever order the jars are discovered in, the bundled plugins load as books, reports,
      users, then loans; loans waits for a second pass because it sorts before
      `users-management`. */
  lemma BundledLoadOrder(discovered: seq<Descriptor>)
    requires multiset(discovered) == multiset{LoanManagement, UsersManagement, Reports, BookManagement}
    ensures LoadOrderOf(discovered)
         == PassState([BookManagement, Reports, UsersManagement, LoanManagement], [],
                      {"book-management", "reports", "users-management", "loan-management"})
  {
    LoadOrderOfFour(discovered, BookManagement, LoanManagement, Reports, UsersManagement);
  }

  /** The first pass over `[b, s]` where `s` depends on a name other than `b`'s. */
  lemma PassUnsatisfied(b: Descriptor, s: Descriptor, d: string)
    requires b.dependencies == [] && s.dependencies == [d] && d != b.name
    ensures Pass([b, s], PassState([], [], {})) == PassState([b], [s], {b.name})
  {
    var start := PassState([], [], {});
    PassStep([], b, start);
    assert [] + [b] == [b];
    PassStep([b], s, start);
    assert [b] + [s] == [b, s];
    assert d in s.dependencies && d !in {b.name};
  }

  /** Resolving `[b, s]` where `s` depends on a name other than `b`'s. */
  lemma ResolveUnsatisfied(b: Descriptor, s: Descriptor, d: string)
    requires b.dependencies == [] && s.dependencies == [d] && d != b.name
    ensures Resolve([b, s], [], {}) == PassState([b], [s], {b.name})
  {
    PassUnsatisfied(b, s, d);
    var again := PassState([b], [], {b.name});
    PassStep([], s, again);
    assert [] + [s] == [s];
    assert d in s.dependencies && d !in {b.name};
    assert Pass([s], again) == PassState([b], [s], {b.name});
  }

  /** Dependency names match case-sensitively: a dependency on `Book-Management` is not
      satisfied by `book-management`, so such a plugin is left over. */
  lemma DependencyNamesAreCaseSensitive()
    ensures LoadOrderOf([BookManagement, Shouting]) == PassState([BookManagement], [Shouting], {"book-management"})
  {
    CompareByFirstLetter(BookManagement.name, Shouting.name);
    SortSorted(BookManagement, Shouting);
    assert "Book-Management" != "book-management";
    ResolveUnsatisfied(BookManagement, Shouting, "Book-Management");
  }
}
