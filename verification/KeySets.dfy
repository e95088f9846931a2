/** Sets of keys in ascending order. */
module KeySets {
  import opened Keys

  /** Strictly ascending, hence without duplicates. */
  ghost predicate KeysAscend(ks: seq<Key>) {
    forall i, j :: 0 <= i < j < |ks| ==> Less(ks[i], ks[j])
  }

  function InsertKey(ks: seq<Key>, k: Key): seq<Key> {
    if ks == [] || Less(ks[|ks| - 1], k) then ks + [k] else InsertKey(ks[..|ks| - 1], k) + [ks[|ks| - 1]]
  }

  lemma {:induction false} InsertKeyAscends(ks: seq<Key>, k: Key)
    requires KeysAscend(ks) && k !in ks
    ensures KeysAscend(InsertKey(ks, k))
    ensures forall x :: x in InsertKey(ks, k) <==> x in ks || x == k
  {
    if ks != [] {
      var front, last := ks[..|ks| - 1], ks[|ks| - 1];
      assert ks == front + [last];
      if Less(last, k) {
        forall i | 0 <= i < |ks| ensures Less(ks[i], k) {
          if i < |ks| - 1 {
            LessTransitive(ks[i], last, k);
          }
        }
      } else {
        InsertKeyAscends(front, k);
        LessTotal(last, k);
        forall x | x in InsertKey(front, k) ensures Less(x, last) {
          if x in front {
            var i :| 0 <= i < |front| && front[i] == x;
          }
        }
      }
    }
  }

  /** A set of keys in ascending order. */
  ghost function SortedKeys(ks: set<Key>): (r: seq<Key>)
    ensures KeysAscend(r) && forall k :: k in r <==> k in ks
    decreases |ks|
  {
    if ks == {} then [] else
      var k :| k in ks;
      var rest := SortedKeys(ks - {k});
      InsertKeyAscends(rest, k);
      InsertKey(rest, k)
  }

  lemma {:induction false} AscendingUnique(a: seq<Key>, b: seq<Key>)
    requires KeysAscend(a) && KeysAscend(b) && forall k :: k in a <==> k in b
    ensures a == b
  {
    hide Less;
    HeadIn(a);
    HeadIn(b);
    if a != [] && b != [] {
      var x, y := a[|a| - 1], b[|b| - 1];
      assert x in a && y in b;
      LastIsGreatest(a, y);
      LastIsGreatest(b, x);
      LessAsymmetric(x, y);
      assert x == y;
      var fa, fb := a[..|a| - 1], b[..|b| - 1];
      WithoutLast(a);
      WithoutLast(b);
      forall k: Key ensures k in fa <==> k in fb {
        assert (k in fa <==> k in a && k != x) && (k in fb <==> k in b && k != y);
      }
      AscendingUnique(fa, fb);
      assert a == fa + [x] && b == fb + [y];
    }
  }

  lemma HeadIn(a: seq<Key>)
    ensures a != [] ==> a[0] in a
  {
  }

  lemma LastIsGreatest(a: seq<Key>, k: Key)
    requires KeysAscend(a) && k in a
    ensures k == a[|a| - 1] || Less(k, a[|a| - 1])
  {
  }

  lemma WithoutLast(a: seq<Key>)
    requires KeysAscend(a) && a != []
    ensures forall k :: k in a[..|a| - 1] <==> k in a && k != a[|a| - 1]
    ensures KeysAscend(a[..|a| - 1])
  {
    LessIrreflexive(a[|a| - 1]);
    assert a == a[..|a| - 1] + [a[|a| - 1]];
  }
}
