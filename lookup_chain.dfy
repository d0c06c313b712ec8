/** A lookup through an ordered list of partial maps in which the first map that knows the
    key answers: the shape shared by class loading through delegate loaders and by asset
    lookup through the application and plugin loaders. */
module LookupChain {
  import opened Wrappers

  /** The value of the first map in `chain` that contains `key`, or `None` if none does. */
  function FirstHit<K, V>(chain: seq<map<K, V>>, key: K): Option<V> {
    if chain == [] then None
    else if key in chain[0] then Some(chain[0][key])
    else FirstHit(chain[1..], key)
  }

  /** `FirstHit` answers `v` exactly when some map holds `key` with value `v` and no earlier
      map holds `key`. */
  lemma {:induction false} FirstHitIsFirst<K, V>(chain: seq<map<K, V>>, key: K, v: V)
    ensures FirstHit(chain, key) == Some(v) <==>
            exists i :: 0 <= i < |chain| && key in chain[i] && chain[i][key] == v &&
                        forall j :: 0 <= j < i ==> key !in chain[j]
  {
    if chain != [] {
      FirstHitIsFirst(chain[1..], key, v);
      if FirstHit(chain, key) == Some(v) && key !in chain[0] {
        var i :| 0 <= i < |chain[1..]| && key in chain[1..][i] && chain[1..][i][key] == v &&
                 forall j :: 0 <= j < i ==> key !in chain[1..][j];
        assert forall j :: 0 <= j < i + 1 ==> key !in chain[j] by {
          forall j | 0 <= j < i + 1 ensures key !in chain[j] {
            if j > 0 { assert chain[j] == chain[1..][j - 1]; }
          }
        }
      }
      if exists i :: 0 <= i < |chain| && key in chain[i] && chain[i][key] == v &&
                     forall j :: 0 <= j < i ==> key !in chain[j] {
        var i :| 0 <= i < |chain| && key in chain[i] && chain[i][key] == v &&
                 forall j :: 0 <= j < i ==> key !in chain[j];
        if i > 0 {
          assert key !in chain[0];
          assert chain[1..][i - 1] == chain[i];
          assert forall j :: 0 <= j < i - 1 ==> key !in chain[1..][j] by {
            forall j | 0 <= j < i - 1 ensures key !in chain[1..][j] {
              assert chain[1..][j] == chain[j + 1];
            }
          }
        }
      }
    }
  }

  /** `FirstHit` misses exactly when no map in the chain holds the key. */
  lemma {:induction false} FirstHitMisses<K, V>(chain: seq<map<K, V>>, key: K)
    ensures FirstHit(chain, key) == None <==> forall i :: 0 <= i < |chain| ==> key !in chain[i]
  {
    if chain != [] {
      FirstHitMisses(chain[1..], key);
      assert forall i :: 1 <= i < |chain| ==> chain[i] == chain[1..][i - 1];
    }
  }

  /** Looking through `a + b` is looking through `a`, then through `b` on a miss. */
  lemma {:induction false} FirstHitConcat<K, V>(a: seq<map<K, V>>, b: seq<map<K, V>>, key: K)
    ensures FirstHit(a + b, key) == if FirstHit(a, key).Some? then FirstHit(a, key) else FirstHit(b, key)
  {
    if a != [] {
      assert (a + b)[1..] == a[1..] + b;
      FirstHitConcat(a[1..], b, key);
    } else {
      assert a + b == b;
    }
  }
}
