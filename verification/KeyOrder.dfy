/**
 The iteration order of `std::map<string, ...>`: byte-wise lexicographic order,
 and the sequence an in-order walk over a finite set of keys visits.
 */
module KeyOrder {

  predicate Less(a: string, b: string) {
    if b == [] then false
    else if a == [] then true
    else a[0] < b[0] || (a[0] == b[0] && Less(a[1..], b[1..]))
  }

  /** Up to position `n` the two are the same, and there `a` ends or has the smaller byte. */
  ghost predicate SmallerAt(a: string, b: string, n: nat) {
    && n <= |a| && n < |b|
    && (forall k :: 0 <= k < n ==> a[k] == b[k])
    && (n == |a| || a[n] < b[n])
  }

  /** Strings are compared as a dictionary does. */
  lemma {:induction false} LessIff(a: string, b: string)
    ensures Less(a, b) <==> exists n: nat :: SmallerAt(a, b, n)
  {
    if b != [] {
      if a == [] {
        assert SmallerAt(a, b, 0);
      } else {
        LessIff(a[1..], b[1..]);
        if a[0] == b[0] {
          if n: nat :| SmallerAt(a[1..], b[1..], n) {
            assert SmallerAt(a, b, n + 1);
          }
          if n: nat :| SmallerAt(a, b, n) {
            assert n > 0 && SmallerAt(a[1..], b[1..], n - 1);
          }
        } else {
          assert SmallerAt(a, b, 0) <==> a[0] < b[0];
        }
      }
    }
  }

  lemma {:induction false} Trichotomy(a: string, b: string)
    ensures a == b || Less(a, b) || Less(b, a)
    ensures !(Less(a, b) && Less(b, a))
    ensures !(Less(a, b) && a == b)
  {
    if a != [] && b != [] && a[0] == b[0] {
      Trichotomy(a[1..], b[1..]);
      assert a == [a[0]] + a[1..] && b == [b[0]] + b[1..];
    }
  }

  lemma {:induction false} Transitive(a: string, b: string, c: string)
    requires Less(a, b) && Less(b, c)
    ensures Less(a, c)
  {
    if a != [] && a[0] == b[0] == c[0] {
      Transitive(a[1..], b[1..], c[1..]);
    }
  }

  predicate Least(k: string, keys: set<string>) {
    k in keys && forall x :: x in keys && x != k ==> Less(k, x)
  }

  lemma {:induction false} LeastExists(keys: set<string>)
    requires keys != {}
    ensures exists k :: Least(k, keys)
    decreases |keys|
  {
    var x :| x in keys;
    var rest := keys - {x};
    if rest == {} {
      assert keys == {x};
      assert Least(x, keys);
    } else {
      LeastExists(rest);
      var y :| Least(y, rest);
      Trichotomy(x, y);
      if Less(y, x) {
        assert Least(y, keys);
      } else {
        forall z | z in keys && z != x ensures Less(x, z) {
          if z != y { Transitive(x, y, z); }
        }
        assert Least(x, keys);
      }
    }
  }

  lemma LeastIsUnique(keys: set<string>, a: string, b: string)
    requires Least(a, keys) && Least(b, keys)
    ensures a == b
  {
    Trichotomy(a, b);
  }

  function LeastKey(keys: set<string>): (k: string)
    requires keys != {}
    ensures Least(k, keys)
  {
    LeastExists(keys);
    assert forall a, b :: Least(a, keys) && Least(b, keys) ==> a == b by {
      forall a, b | Least(a, keys) && Least(b, keys) ensures a == b {
        LeastIsUnique(keys, a, b);
      }
    }
    var k :| k in keys && Least(k, keys);
    k
  }

  /** The keys in the order `begin()`, `++`, `++`, ... visits them. */
  function KeysInOrder(keys: set<string>): (r: seq<string>)
    ensures |r| == |keys|
    ensures forall k :: k in r <==> k in keys
    ensures forall i, j :: 0 <= i < j < |r| ==> Less(r[i], r[j])
    ensures forall i, j :: 0 <= i < j < |r| ==> r[i] != r[j]
    decreases |keys|
  {
    if keys == {} then []
    else
      var k := LeastKey(keys);
      [k] + KeysInOrder(keys - {k})
  }
}
