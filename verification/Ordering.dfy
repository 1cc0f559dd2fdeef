/** The order of strings, and the sorted list of a set of them. */
module Ordering {
  predicate Before(a: string, b: string) {
    b != "" && (a == "" || a[0] < b[0] || (a[0] == b[0] && Before(a[1..], b[1..])))
  }

  lemma {:induction false} BeforeIsTotal(a: string, b: string)
    ensures a == b || Before(a, b) || Before(b, a)
    ensures !(a == b && Before(a, b)) && !(Before(a, b) && Before(b, a))
  {
    if a != "" && b != "" && a[0] == b[0] {
      BeforeIsTotal(a[1..], b[1..]);
      assert a == [a[0]] + a[1..] && b == [b[0]] + b[1..];
    }
  }

  lemma {:induction false} BeforeIsTransitive(a: string, b: string, c: string)
    requires Before(a, b) && Before(b, c)
    ensures Before(a, c)
  {
    if a != "" && a[0] == b[0] == c[0] {
      BeforeIsTransitive(a[1..], b[1..], c[1..]);
    }
  }

  // The first k characters agree, and then a ends first or has the smaller character.
  predicate DiffersAt(a: string, b: string, k: nat) {
    && k <= |a| && k < |b| && (forall i :: 0 <= i < k ==> a[i] == b[i]) && (k == |a| || a[k] < b[k])
  }

  // Behind an equal first character the difference is one further on.
  lemma DiffersBehind(a: string, b: string, k: nat)
    requires a != "" && b != "" && a[0] == b[0]
    ensures !DiffersAt(a, b, 0)
    ensures DiffersAt(a, b, k + 1) <==> DiffersAt(a[1..], b[1..], k)
  {
    if DiffersAt(a[1..], b[1..], k) {
      forall i | 0 <= i < k + 1 ensures a[i] == b[i] {
        assert i > 0 ==> a[i] == a[1..][i - 1] && b[i] == b[1..][i - 1];
      }
    }
  }

  lemma DiffersAtOnce(a: string, b: string, k: nat)
    requires DiffersAt(a, b, k) && (a == "" || a[0] != b[0])
    ensures k == 0
  {}

  // The order is that of the first difference, a prefix coming first.
  lemma {:induction false} BeforeExactly(a: string, b: string)
    ensures Before(a, b) <==> exists k: nat :: DiffersAt(a, b, k)
  {
    if b != "" {
      if a == "" || a[0] != b[0] {
        assert Before(a, b) ==> DiffersAt(a, b, 0);
        forall k: nat | DiffersAt(a, b, k) ensures k == 0 {
          DiffersAtOnce(a, b, k);
        }
      } else {
        BeforeExactly(a[1..], b[1..]);
        if Before(a, b) {
          var k: nat :| DiffersAt(a[1..], b[1..], k);
          DiffersBehind(a, b, k);
        }
        if exists k: nat :: DiffersAt(a, b, k) {
          var k: nat :| DiffersAt(a, b, k);
          DiffersBehind(a, b, if k == 0 then 0 else k - 1);
        }
      }
    }
  }

  predicate IsLeast(x: string, keys: set<string>) {
    x in keys && forall y :: y in keys ==> x == y || Before(x, y)
  }

  lemma {:induction false} LeastExists(keys: set<string>)
    requires keys != {}
    ensures exists x :: IsLeast(x, keys)
    decreases |keys|
  {
    var k :| k in keys;
    if keys == {k} {
      assert IsLeast(k, keys);
    } else {
      assert keys - {k} != {};
      LeastExists(keys - {k});
      var m :| IsLeast(m, keys - {k});
      BeforeIsTotal(k, m);
      if Before(m, k) {
        assert IsLeast(m, keys);
      } else {
        forall y | y in keys && y != k && y != m ensures Before(k, y) {
          BeforeIsTransitive(k, m, y);
        }
        assert IsLeast(k, keys);
      }
    }
  }

  lemma LeastIsUnique(x: string, y: string, keys: set<string>)
    requires IsLeast(x, keys) && IsLeast(y, keys)
    ensures x == y
  {
    BeforeIsTotal(x, y);
  }

  function Least(keys: set<string>): (x: string)
    requires keys != {}
    ensures IsLeast(x, keys)
  {
    LeastExists(keys);
    assert forall x, y | IsLeast(x, keys) && IsLeast(y, keys) :: x == y by {
      forall x, y | IsLeast(x, keys) && IsLeast(y, keys) ensures x == y {
        LeastIsUnique(x, y, keys);
      }
    }
    var x :| IsLeast(x, keys);
    x
  }

  predicate Ascending(ids: seq<string>) {
    forall i, j :: 0 <= i < j < |ids| ==> Before(ids[i], ids[j])
  }

  // The keys of a set in ascending order.
  function Sorted(keys: set<string>): (ids: seq<string>)
    ensures Ascending(ids) && |ids| == |keys| && forall k :: k in ids <==> k in keys
    decreases |keys|
  {
    if keys == {} then []
    else
      var x := Least(keys);
      var rest := Sorted(keys - {x});
      assert forall i :: 0 <= i < |rest| ==> rest[i] in rest;
      [x] + rest
  }
}
