// std::map<size_t, T>: a map whose entries are visited in ascending key order.
module OrderedMaps {

  lemma LeastExists(s: set<nat>) returns (k: nat)
    requires s != {}
    ensures k in s && forall x | x in s :: k <= x
  {
    k :| k in s;
    if s != {k} {
      var m := LeastExists(s - {k});
      assert forall x | x in s :: x == k || x in s - {k};
      k := if m <= k then m else k;
    }
  }

  function Least(s: set<nat>): (k: nat)
    requires s != {}
    ensures k in s && forall x | x in s :: k <= x
  {
    assert exists k :: k in s && forall x | x in s :: k <= x by {
      var k := LeastExists(s);
    }
    var k :| k in s && forall x | x in s :: k <= x;
    k
  }

  /** The elements of s in ascending order. */
  function Ascending(s: set<nat>): (r: seq<nat>)
    ensures |r| == |s|
    ensures forall x :: x in s <==> x in r
    ensures forall i, j | 0 <= i < j < |r| :: r[i] < r[j]
  {
    if s == {} then [] else
      var k := Least(s);
      LeastFirst(s, k, Ascending(s - {k}));
      [k] + Ascending(s - {k})
  }

  lemma LeastFirst(s: set<nat>, k: nat, rest: seq<nat>)
    requires k in s && (forall x | x in s :: k <= x)
    requires (forall x :: x in s - {k} <==> x in rest) && forall i, j | 0 <= i < j < |rest| :: rest[i] < rest[j]
    ensures forall x :: x in s <==> x in [k] + rest
    ensures forall i, j | 0 <= i < j < |[k] + rest| :: ([k] + rest)[i] < ([k] + rest)[j]
  {
    forall j | 0 <= j < |rest|
      ensures k < rest[j]
    {
      assert rest[j] in s - {k};
    }
    forall x
      ensures x in s <==> x in [k] + rest
    {
      assert x in s <==> x == k || x in s - {k};
    }
  }

  function Pairs<T>(m: map<nat, T>, ks: seq<nat>): (r: seq<(nat, T)>)
    requires forall i | 0 <= i < |ks| :: ks[i] in m
    ensures |r| == |ks| && forall i | 0 <= i < |ks| :: r[i] == (ks[i], m[ks[i]])
  {
    seq(|ks|, i requires 0 <= i < |ks| => (ks[i], m[ks[i]]))
  }

  /** The entries of m as iterating over the std::map visits them. */
  function Entries<T>(m: map<nat, T>): (r: seq<(nat, T)>)
    ensures |r| == |m|
    ensures forall i | 0 <= i < |r| :: r[i].0 in m && r[i].1 == m[r[i].0]
    ensures forall i, j | 0 <= i < j < |r| :: r[i].0 < r[j].0
  {
    Pairs(m, Ascending(m.Keys))
  }

  /** Every key is visited, once. */
  lemma EveryKeyVisited<T>(m: map<nat, T>, k: nat)
    ensures k in m <==> exists i :: 0 <= i < |Entries(m)| && Entries(m)[i].0 == k
  {
    var ks := Ascending(m.Keys);
    if k in m {
      var i :| 0 <= i < |ks| && ks[i] == k;
      assert Entries(m)[i].0 == k;
    }
  }

  /** The map after inserting entries one by one into m: m[k] = v. */
  function InsertAll<T>(m: map<nat, T>, es: seq<(nat, T)>): map<nat, T>
    decreases |es|
  {
    if es == [] then m else InsertAll(m[es[0].0 := es[0].1], es[1..])
  }

  lemma {:induction false} InsertAllLookup<T>(m: map<nat, T>, es: seq<(nat, T)>)
    requires forall i, j | 0 <= i < j < |es| :: es[i].0 < es[j].0
    ensures forall k :: k in InsertAll(m, es) <==> k in m || exists i :: 0 <= i < |es| && es[i].0 == k
    ensures forall i | 0 <= i < |es| :: es[i].0 in InsertAll(m, es) && InsertAll(m, es)[es[i].0] == es[i].1
    ensures forall k | k in m && (forall i | 0 <= i < |es| :: es[i].0 != k) :: InsertAll(m, es)[k] == m[k]
    decreases |es|
  {
    if es != [] {
      var m1, rest := m[es[0].0 := es[0].1], es[1..];
      InsertAllLookup(m1, rest);
      var r := InsertAll(m1, rest);
      forall k
        ensures k in r <==> k in m || exists i :: 0 <= i < |es| && es[i].0 == k
      {
        if k in r && k !in m && k != es[0].0 {
          var i :| 0 <= i < |rest| && rest[i].0 == k;
          assert es[i + 1].0 == k;
        }
        if i :| 0 <= i < |es| && es[i].0 == k {
          assert i > 0 ==> rest[i - 1].0 == k;
        }
      }
      forall i | 0 <= i < |es|
        ensures es[i].0 in r && r[es[i].0] == es[i].1
      {
        assert i > 0 ==> rest[i - 1] == es[i];
      }
      forall k | k in m && (forall i | 0 <= i < |es| :: es[i].0 != k)
        ensures r[k] == m[k]
      {
        assert forall i | 0 <= i < |rest| :: rest[i] == es[i + 1];
      }
    }
  }

  /** Reading the visited entries back into an empty map gives the map. */
  lemma InsertEntries<T>(m: map<nat, T>)
    ensures InsertAll(map[], Entries(m)) == m
  {
    var es, r := Entries(m), InsertAll(map[], Entries(m));
    InsertAllLookup(map[], es);
    forall k
      ensures k in r <==> k in m
      ensures k in m ==> r[k] == m[k]
    {
      EveryKeyVisited(m, k);
      if k in m {
        var i :| 0 <= i < |es| && es[i].0 == k;
      }
    }
  }

  lemma {:induction false} InsertAllAppend<T>(m: map<nat, T>, es: seq<(nat, T)>, e: (nat, T))
    ensures InsertAll(m, es + [e]) == InsertAll(m, es)[e.0 := e.1]
    decreases |es|
  {
    if es == [] {
      assert (es + [e])[1..] == [];
    } else {
      InsertAllAppend(m[es[0].0 := es[0].1], es[1..], e);
      assert (es + [e])[1..] == es[1..] + [e];
    }
  }
}
