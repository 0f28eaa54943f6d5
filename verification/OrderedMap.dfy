/** The key order in which an ordered map is traversed. */
module OrderedMaps {
  ghost predicate Sorted(ks: seq<nat>) {
    forall i, j :: 0 <= i < j < |ks| ==> ks[i] < ks[j]
  }

  ghost predicate IsLeast(k: nat, s: set<nat>) {
    k in s && forall j :: j in s ==> k <= j
  }

  ghost function Elements(ks: seq<nat>): set<nat> { set k | k in ks }

  lemma {:induction false} LeastExists(s: set<nat>)
    requires s != {}
    ensures exists k :: IsLeast(k, s)
    decreases |s|
  {
    var x :| x in s;
    var rest := s - {x};
    if rest == {} {
      assert forall j :: j in s ==> j in rest || j == x;
      assert IsLeast(x, s);
    } else {
      LeastExists(rest);
      var m :| IsLeast(m, rest);
      assert forall j :: j in s ==> j in rest || j == x;
      assert IsLeast(if x <= m then x else m, s);
    }
  }

  function Least(s: set<nat>): (k: nat)
    requires s != {}
    ensures IsLeast(k, s)
  {
    LeastExists(s);
    assert exists k :: k in s && forall j | j in s :: k <= j by {
      var k :| IsLeast(k, s);
    }
    var k :| k in s && forall j | j in s :: k <= j;
    k
  }

  /** The keys in the order an iterator visits them. */
  function SortedKeys(s: set<nat>): (ks: seq<nat>)
    decreases |s|
  {
    if s == {} then [] else var k := Least(s); [k] + SortedKeys(s - {k})
  }

  lemma {:induction false} SortedKeysAreKeys(s: set<nat>)
    ensures forall k :: k in SortedKeys(s) <==> k in s
    decreases |s|
  {
    if s != {} {
      var k := Least(s);
      SortedKeysAreKeys(s - {k});
    }
  }

  lemma {:induction false} SortedKeysSorted(s: set<nat>)
    ensures Sorted(SortedKeys(s))
    decreases |s|
  {
    if s != {} {
      var k := Least(s);
      var rest := SortedKeys(s - {k});
      SortedKeysSorted(s - {k});
      SortedKeysAreKeys(s - {k});
      forall i | 0 <= i < |rest| ensures k < rest[i] {
        assert rest[i] in rest;
      }
    }
  }
}
