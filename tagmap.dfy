/**
 * tag_map_t, the std::map from key to std::list of values that carries tags
 * between the worker and the JavaScript side.  A std::map keeps its keys
 * unique and iterates them in ascending order, so it is modelled as a list of
 * bindings with strictly increasing keys.
 */
module TagMaps {
  import opened Keys

  datatype Binding = Binding(key: string, values: seq<string>)

  /** Keys strictly increasing: each key once, in the map's iteration order. */
  predicate StrictlySorted(bs: seq<Binding>) {
    forall i, j :: 0 <= i < j < |bs| ==> Less(bs[i].key, bs[j].key)
  }

  /** The list bound to k, or the empty list when k is not bound. */
  function Lookup(bs: seq<Binding>, k: string): seq<string> {
    if bs == [] then []
    else if bs[0].key == k then bs[0].values
    else Lookup(bs[1..], k)
  }

  /** Every bound list holds at least one value. */
  predicate AllNonEmpty(bs: seq<Binding>) {
    forall i :: 0 <= i < |bs| ==> bs[i].values != []
  }

  function BoundKeys(bs: seq<Binding>): set<string> {
    set i | 0 <= i < |bs| :: bs[i].key
  }

  lemma {:induction false} LookupAt(bs: seq<Binding>, i: nat)
    requires StrictlySorted(bs) && i < |bs|
    ensures Lookup(bs, bs[i].key) == bs[i].values
  {
    if i > 0 {
      assert Less(bs[0].key, bs[i].key);
      LessIrreflexive(bs[0].key);
      assert StrictlySorted(bs[1..]) by {
        forall a, b | 0 <= a < b < |bs[1..]| ensures Less(bs[1..][a].key, bs[1..][b].key) {
          assert bs[1..][a] == bs[a + 1] && bs[1..][b] == bs[b + 1];
        }
      }
      LookupAt(bs[1..], i - 1);
      assert bs[1..][i - 1] == bs[i];
    }
  }

  lemma {:induction false} LookupMissing(bs: seq<Binding>, k: string)
    requires k !in BoundKeys(bs)
    ensures Lookup(bs, k) == []
  {
    if bs != [] {
      assert bs[0].key in BoundKeys(bs);
      assert k !in BoundKeys(bs[1..]) by {
        forall i | 0 <= i < |bs[1..]| ensures bs[1..][i].key != k {
          assert bs[1..][i] == bs[i + 1];
          assert bs[i + 1].key in BoundKeys(bs);
        }
      }
      LookupMissing(bs[1..], k);
    }
  }

  class TagMap {
    var bindings: seq<Binding>

    /** Keys unique and ascending; every bound list holds at least one value. */
    ghost predicate Valid()
      reads this
    {
      && StrictlySorted(bindings)
      && AllNonEmpty(bindings)
    }

    /** The list under k; empty when k is not in the map. */
    function Get(k: string): seq<string>
      reads this
    {
      Lookup(bindings, k)
    }

    function KeySet(): set<string>
      reads this
    {
      BoundKeys(bindings)
    }

    constructor ()
      ensures Valid() && bindings == []
    {
      bindings := [];
    }

    /** A key is in the map exactly when its list is not empty. */
    lemma Bound(k: string)
      requires Valid()
      ensures k in KeySet() <==> Get(k) != []
    {
      if k in KeySet() {
        var i :| 0 <= i < |bindings| && bindings[i].key == k;
        LookupAt(bindings, i);
      } else {
        LookupMissing(bindings, k);
      }
    }

    /**
     * `tags[k].push_back(v)`: the list under k (created empty when k is new)
     * gets v at its end; every other key keeps its list.
     */
    method PushBack(k: string, v: string)
      requires Valid()
      modifies this
      ensures Valid()
      ensures Get(k) == old(Get(k)) + [v]
      ensures forall k' :: k' != k ==> Get(k') == old(Get(k'))
      ensures KeySet() == old(KeySet()) + {k}
    {
      var i := 0;
      while i < |bindings| && Less(bindings[i].key, k)
        invariant i <= |bindings|
        invariant forall j :: 0 <= j < i ==> Less(bindings[j].key, k)
      {
        i := i + 1;
      }
      ghost var bs := bindings;
      if i < |bindings| && bindings[i].key == k {
        bindings := bindings[i := Binding(k, bindings[i].values + [v])];
        PushBackExisting(bs, i, v);
      } else {
        if i < |bindings| {
          LessTotal(bindings[i].key, k);
        }
        bindings := InsertAt(bindings, i, k, v);
        PushBackNew(bs, i, k, v);
      }
    }
  }

  /** Appending to the list of a bound key keeps the map ordered and touches no other key. */
  lemma PushBackExisting(bs: seq<Binding>, i: nat, v: string)
    requires StrictlySorted(bs) && i < |bs|
    ensures var r := bs[i := Binding(bs[i].key, bs[i].values + [v])];
      && StrictlySorted(r)
      && Lookup(r, bs[i].key) == Lookup(bs, bs[i].key) + [v]
      && (forall k' :: k' != bs[i].key ==> Lookup(r, k') == Lookup(bs, k'))
      && BoundKeys(r) == BoundKeys(bs)
  {
    var k := bs[i].key;
    var r := bs[i := Binding(k, bs[i].values + [v])];
    assert StrictlySorted(r) by {
      forall a, b | 0 <= a < b < |r| ensures Less(r[a].key, r[b].key) {
        assert r[a].key == bs[a].key && r[b].key == bs[b].key;
      }
    }
    LookupAt(bs, i);
    LookupAt(r, i);
    forall k' | k' != k ensures Lookup(r, k') == Lookup(bs, k') {
      if j :| 0 <= j < |bs| && bs[j].key == k' {
        LookupAt(bs, j);
        LookupAt(r, j);
      } else {
        assert k' !in BoundKeys(bs);
        assert k' !in BoundKeys(r) by {
          forall j | 0 <= j < |r| ensures r[j].key != k' {
            assert r[j].key == bs[j].key;
          }
        }
        LookupMissing(bs, k');
        LookupMissing(r, k');
      }
    }
    assert BoundKeys(r) == BoundKeys(bs) by {
      forall x ensures x in BoundKeys(r) <==> x in BoundKeys(bs) {
        if x in BoundKeys(r) {
          var j :| 0 <= j < |r| && r[j].key == x;
          assert bs[j].key == x;
        }
        if x in BoundKeys(bs) {
          var j :| 0 <= j < |bs| && bs[j].key == x;
          assert r[j].key == x;
        }
      }
    }
  }

  /** The bindings with (k, [v]) inserted at position i. */
  function InsertAt(bs: seq<Binding>, i: nat, k: string, v: string): (r: seq<Binding>)
    requires i <= |bs|
    ensures |r| == |bs| + 1 && r[i] == Binding(k, [v])
    ensures forall j :: 0 <= j < i ==> r[j] == bs[j]
    ensures forall j :: i < j < |r| ==> r[j] == bs[j - 1]
  {
    bs[..i] + [Binding(k, [v])] + bs[i..]
  }

  /** Inserting a new key at its ordered position keeps the map ordered and touches no other key. */
  lemma PushBackNew(bs: seq<Binding>, i: nat, k: string, v: string)
    requires StrictlySorted(bs) && i <= |bs|
    requires forall j :: 0 <= j < i ==> Less(bs[j].key, k)
    requires i < |bs| ==> Less(k, bs[i].key)
    ensures var r := InsertAt(bs, i, k, v);
      && StrictlySorted(r)
      && Lookup(r, k) == Lookup(bs, k) + [v]
      && (forall k' :: k' != k ==> Lookup(r, k') == Lookup(bs, k'))
      && BoundKeys(r) == BoundKeys(bs) + {k}
  {
    InsertSorted(bs, i, k, v);
    InsertLookup(bs, i, k, v);
    InsertKeys(bs, i, k, v);
  }

  lemma InsertSorted(bs: seq<Binding>, i: nat, k: string, v: string)
    requires StrictlySorted(bs) && i <= |bs|
    requires forall j :: 0 <= j < i ==> Less(bs[j].key, k)
    requires i < |bs| ==> Less(k, bs[i].key)
    ensures StrictlySorted(InsertAt(bs, i, k, v))
    ensures forall j :: i <= j < |bs| ==> Less(k, bs[j].key)
  {
    var r := InsertAt(bs, i, k, v);
    forall j | i <= j < |bs| ensures Less(k, bs[j].key) {
      if j > i {
        LessTransitive(k, bs[i].key, bs[j].key);
      }
    }
    forall a, b | 0 <= a < b < |r| ensures Less(r[a].key, r[b].key) {
      if a < i && b > i {
        LessTransitive(bs[a].key, k, bs[b - 1].key);
      }
    }
  }

  lemma InsertLookup(bs: seq<Binding>, i: nat, k: string, v: string)
    requires StrictlySorted(bs) && i <= |bs|
    requires forall j :: 0 <= j < i ==> Less(bs[j].key, k)
    requires i < |bs| ==> Less(k, bs[i].key)
    ensures Lookup(InsertAt(bs, i, k, v), k) == Lookup(bs, k) + [v]
    ensures forall k' :: k' != k ==> Lookup(InsertAt(bs, i, k, v), k') == Lookup(bs, k')
  {
    var r := InsertAt(bs, i, k, v);
    InsertSorted(bs, i, k, v);
    assert k !in BoundKeys(bs) by {
      forall j | 0 <= j < |bs| ensures bs[j].key != k {
        LessIrreflexive(k);
      }
    }
    LookupMissing(bs, k);
    LookupAt(r, i);
    forall k' | k' != k ensures Lookup(r, k') == Lookup(bs, k') {
      InsertLookupOther(bs, i, k, v, k');
    }
  }

  lemma InsertLookupOther(bs: seq<Binding>, i: nat, k: string, v: string, k': string)
    requires StrictlySorted(bs) && i <= |bs| && k' != k
    requires StrictlySorted(InsertAt(bs, i, k, v))
    ensures Lookup(InsertAt(bs, i, k, v), k') == Lookup(bs, k')
  {
    var r := InsertAt(bs, i, k, v);
    if j :| 0 <= j < |bs| && bs[j].key == k' {
      LookupAt(bs, j);
      if j < i {
        LookupAt(r, j);
      } else {
        LookupAt(r, j + 1);
      }
    } else {
      assert k' !in BoundKeys(bs);
      assert k' !in BoundKeys(r) by {
        forall j | 0 <= j < |r| ensures r[j].key != k' {
          if j > i {
            assert r[j] == bs[j - 1];
          }
        }
      }
      LookupMissing(bs, k');
      LookupMissing(r, k');
    }
  }

  lemma InsertKeys(bs: seq<Binding>, i: nat, k: string, v: string)
    requires i <= |bs|
    ensures BoundKeys(InsertAt(bs, i, k, v)) == BoundKeys(bs) + {k}
  {
    var r := InsertAt(bs, i, k, v);
    forall x ensures x in BoundKeys(r) <==> x in BoundKeys(bs) + {k} {
      if x in BoundKeys(r) {
        var j :| 0 <= j < |r| && r[j].key == x;
        if j < i {
          assert bs[j].key == x;
        } else if j > i {
          assert bs[j - 1].key == x;
        }
      }
      if x in BoundKeys(bs) {
        var j :| 0 <= j < |bs| && bs[j].key == x;
        if j < i {
          assert r[j].key == x;
        } else {
          assert r[j + 1].key == x;
        }
      }
      if x == k {
        assert r[i].key == x;
      }
    }
  }
}
