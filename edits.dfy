/**
 * What one setImageTags or deleteImageTags call does to each family's
 * container, stated as functions over entry sequences, with the properties
 * the dispatch and the replace rules promise.
 */
module Edits {
  import opened Optional
  import opened Keys
  import opened Entries
  import opened TagMaps

  /**
   * One assignment from the tag map, as seen by the container of family fam:
   * a key of another family (or of none) leaves it alone; several values
   * replace every entry of the key; one value overwrites the first entry of the
   * key or creates it.
   */
  function ApplyEdit(c: seq<Entry>, b: Binding, fam: Family): seq<Entry>
    requires b.values != []
  {
    if Classify(b.key) != Some(fam) then c
    else if |b.values| > 1 then ReplaceAll(c, b.key, b.values)
    else SetFirst(c, b.key, b.values[0])
  }

  /** The assignments applied one after another, in the map's order. */
  function ApplyEdits(c: seq<Entry>, bs: seq<Binding>, fam: Family): seq<Entry>
    requires AllNonEmpty(bs)
  {
    if bs == [] then c
    else ApplyEdit(ApplyEdits(c, bs[..|bs| - 1], fam), bs[|bs| - 1], fam)
  }

  /**
   * The delete loop as seen by the container of family fam: every key of that
   * family erases the first entry carrying it.  None when such a key is not
   * present at its turn: erasing the end position is left to the library.
   */
  function DeleteAll(c: seq<Entry>, keys: seq<string>, fam: Family): Option<seq<Entry>> {
    if keys == [] then Some(c)
    else match DeleteAll(c, keys[..|keys| - 1], fam)
      case None => None
      case Some(d) =>
        var k := keys[|keys| - 1];
        if Classify(k) != Some(fam) then Some(d)
        else if HasKey(d, k) then Some(EraseFirst(d, k))
        else None
  }

  /** Every entry of the container carries a key of family fam. */
  predicate OfFamily(c: seq<Entry>, fam: Family) {
    forall i :: 0 <= i < |c| ==> Classify(c[i].key) == Some(fam)
  }

  // ---------------------------------------------------------------------
  // Folding the assignments

  lemma {:induction false} ApplyEditsAppend(c: seq<Entry>, xs: seq<Binding>, ys: seq<Binding>, fam: Family)
    requires AllNonEmpty(xs) && AllNonEmpty(ys)
    ensures AllNonEmpty(xs + ys)
    ensures ApplyEdits(c, xs + ys, fam) == ApplyEdits(ApplyEdits(c, xs, fam), ys, fam)
    decreases |ys|
  {
    assert AllNonEmpty(xs + ys) by {
      forall i | 0 <= i < |xs + ys| ensures (xs + ys)[i].values != [] {
        if i >= |xs| {
          assert (xs + ys)[i] == ys[i - |xs|];
        }
      }
    }
    if ys == [] {
      assert xs + ys == xs;
    } else {
      var ys' := ys[..|ys| - 1];
      assert (xs + ys)[..|xs + ys| - 1] == xs + ys';
      ApplyEditsAppend(c, xs, ys', fam);
    }
  }

  /** Assignments to keys of other families leave the container as it was. */
  lemma {:induction false} ForeignEditsIgnored(c: seq<Entry>, bs: seq<Binding>, fam: Family)
    requires AllNonEmpty(bs)
    requires forall i :: 0 <= i < |bs| ==> Classify(bs[i].key) != Some(fam)
    ensures ApplyEdits(c, bs, fam) == c
  {
    if bs != [] {
      ForeignEditsIgnored(c, bs[..|bs| - 1], fam);
    }
  }

  /** A key no assignment names keeps its values, whatever the family. */
  lemma {:induction false} UnnamedKeyKeepsValues(c: seq<Entry>, bs: seq<Binding>, fam: Family, k: string)
    requires AllNonEmpty(bs)
    requires k !in BoundKeys(bs)
    ensures Values(ApplyEdits(c, bs, fam), k) == Values(c, k)
  {
    if bs != [] {
      var front, b := bs[..|bs| - 1], bs[|bs| - 1];
      assert k !in BoundKeys(front) by {
        forall i | 0 <= i < |front| ensures front[i].key != k {
          assert front[i] == bs[i];
          assert bs[i].key in BoundKeys(bs);
        }
      }
      assert b.key in BoundKeys(bs);
      UnnamedKeyKeepsValues(c, front, fam, k);
      var d := ApplyEdits(c, front, fam);
      if Classify(b.key) == Some(fam) {
        if |b.values| > 1 {
          ReplaceAllValues(d, b.key, b.values, k);
        } else {
          SetFirstValues(d, b.key, b.values[0], k);
        }
      }
    }
  }

  /** Edits keep every entry in its own family's container. */
  lemma {:induction false} EditsStayInFamily(c: seq<Entry>, bs: seq<Binding>, fam: Family)
    requires AllNonEmpty(bs) && OfFamily(c, fam)
    ensures OfFamily(ApplyEdits(c, bs, fam), fam)
  {
    if bs != [] {
      var front, b := bs[..|bs| - 1], bs[|bs| - 1];
      EditsStayInFamily(c, front, fam);
      var d := ApplyEdits(c, front, fam);
      if Classify(b.key) == Some(fam) {
        var r := ApplyEdit(d, b, fam);
        forall i | 0 <= i < |r| ensures Classify(r[i].key) == Some(fam) {
          if |b.values| > 1 {
            OthersSubsequence(d, b.key);
            if i < |Others(d, b.key)| {
              var e := Others(d, b.key)[i];
              assert r[i] == e && e in d;
              var m :| 0 <= m < |d| && d[m] == e;
            } else {
              assert r[i] == Fill(b.key, b.values)[i - |Others(d, b.key)|];
            }
          } else if i < |d| && i != FirstIndex(d, b.key) {
            assert r[i] == d[i];
          }
        }
      }
    }
  }

  /** Every entry of Others(c, k) is an entry of c. */
  lemma {:induction false} OthersSubsequence(c: seq<Entry>, k: string)
    ensures forall e :: e in Others(c, k) ==> e in c
  {
    if c != [] {
      OthersSubsequence(c[1..], k);
    }
  }

  /**
   * An assignment to key k of family fam, with the map's keys unique: after
   * all assignments, k carries exactly the given values when there are
   * several; with one value, the first old entry of k holds it (or a new one
   * does) and the later duplicates keep theirs.
   */
  lemma AssignedKeyValues(c: seq<Entry>, bs: seq<Binding>, j: nat, fam: Family)
    requires AllNonEmpty(bs) && StrictlySorted(bs) && j < |bs|
    requires Classify(bs[j].key) == Some(fam)
    ensures var k, vals := bs[j].key, bs[j].values;
      && (|vals| > 1 ==> Values(ApplyEdits(c, bs, fam), k) == vals)
      && (|vals| == 1 && HasKey(c, k) ==> |Values(c, k)| > 0 && Values(ApplyEdits(c, bs, fam), k) == [vals[0]] + Values(c, k)[1..])
      && (|vals| == 1 && !HasKey(c, k) ==> Values(ApplyEdits(c, bs, fam), k) == vals)
  {
    var k, vals := bs[j].key, bs[j].values;
    OnlyOneBinding(bs, j);
    ApplyEditsAround(c, bs, j, fam);
    var d := ApplyEdits(c, bs[..j], fam);
    var e := ApplyEdit(d, bs[j], fam);
    UnnamedKeyKeepsValues(c, bs[..j], fam, k);
    UnnamedKeyKeepsValues(e, bs[j + 1..], fam, k);
    if |vals| > 1 {
      ReplaceAllValues(d, k, vals, k);
    } else {
      SetFirstValues(d, k, vals[0], k);
      assert vals == [vals[0]];
      HasKeyValues(c, k);
      HasKeyValues(d, k);
    }
  }

  /** One value assigned to a key of the family overwrites the key's first value, or becomes its only one. */
  lemma SetOneValues(c: seq<Entry>, bs: seq<Binding>, j: nat, fam: Family)
    requires AllNonEmpty(bs) && StrictlySorted(bs) && j < |bs|
    requires |bs[j].values| == 1 && Classify(bs[j].key) == Some(fam)
    ensures var before := Values(c, bs[j].key);
      Values(ApplyEdits(c, bs, fam), bs[j].key) == [bs[j].values[0]] + (if before == [] then [] else before[1..])
  {
    AssignedKeyValues(c, bs, j, fam);
    HasKeyValues(c, bs[j].key);
  }

  /** With unique keys, the bindings before and after position j do not name its key. */
  lemma OnlyOneBinding(bs: seq<Binding>, j: nat)
    requires StrictlySorted(bs) && j < |bs|
    ensures bs[j].key !in BoundKeys(bs[..j]) && bs[j].key !in BoundKeys(bs[j + 1..])
  {
    var k := bs[j].key;
    LessIrreflexive(k);
    var before, after := bs[..j], bs[j + 1..];
    forall i | 0 <= i < |before| ensures before[i].key != k {
      assert before[i] == bs[i];
    }
    forall i | 0 <= i < |after| ensures after[i].key != k {
      assert after[i] == bs[j + 1 + i];
    }
  }

  /** The fold split around the assignment at position j. */
  lemma ApplyEditsAround(c: seq<Entry>, bs: seq<Binding>, j: nat, fam: Family)
    requires AllNonEmpty(bs) && j < |bs|
    ensures AllNonEmpty(bs[..j]) && AllNonEmpty(bs[j + 1..])
    ensures ApplyEdits(c, bs, fam) == ApplyEdits(ApplyEdit(ApplyEdits(c, bs[..j], fam), bs[j], fam), bs[j + 1..], fam)
  {
    var before, after := bs[..j], bs[j + 1..];
    assert AllNonEmpty(before) by {
      forall i | 0 <= i < |before| ensures before[i] == bs[i] { }
    }
    assert AllNonEmpty(after) by {
      forall i | 0 <= i < |after| ensures after[i] == bs[j + 1 + i] { }
    }
    assert bs == (before + [bs[j]]) + after;
    ApplyEditsAppend(c, before + [bs[j]], after, fam);
    ApplyEditsAppend(c, before, [bs[j]], fam);
    assert [bs[j]][..0] == [];
  }

  /** A key is present exactly when it has values. */
  lemma {:induction false} HasKeyValues(c: seq<Entry>, k: string)
    ensures HasKey(c, k) <==> Values(c, k) != []
  {
    if HasKey(c, k) {
      SplitAtFirst(c, k);
      var i := FirstIndex(c, k);
      ValuesAppend(c[..i] + [c[i]], c[i + 1..], k);
      ValuesAppend(c[..i], [c[i]], k);
    } else {
      AbsentKey(c, k);
    }
  }

  /** Applying the same assignment twice leaves what applying it once leaves. */
  lemma ApplyEditIdempotent(c: seq<Entry>, b: Binding, fam: Family)
    requires b.values != []
    ensures ApplyEdit(ApplyEdit(c, b, fam), b, fam) == ApplyEdit(c, b, fam)
  {
    if Classify(b.key) == Some(fam) {
      if |b.values| > 1 {
        ReplaceAllValues(c, b.key, b.values, b.key);
      } else {
        SetFirstIdempotent(c, b.key, b.values[0]);
      }
    }
  }

  // ---------------------------------------------------------------------
  // Deleting

  lemma {:induction false} DeletePrefixDefined(c: seq<Entry>, keys: seq<string>, fam: Family, i: nat)
    requires i <= |keys| && DeleteAll(c, keys, fam).Some?
    ensures DeleteAll(c, keys[..i], fam).Some?
    decreases |keys|
  {
    if i < |keys| {
      assert keys[..|keys| - 1][..i] == keys[..i];
      DeletePrefixDefined(c, keys[..|keys| - 1], fam, i);
    } else {
      assert keys[..i] == keys;
    }
  }

  /** Keys of other families delete nothing from the container. */
  lemma {:induction false} ForeignDeletesIgnored(c: seq<Entry>, keys: seq<string>, fam: Family)
    requires forall i :: 0 <= i < |keys| ==> Classify(keys[i]) != Some(fam)
    ensures DeleteAll(c, keys, fam) == Some(c)
  {
    if keys != [] {
      ForeignDeletesIgnored(c, keys[..|keys| - 1], fam);
    }
  }

  /**
   * Deleting one present key of the family removes exactly the first entry
   * carrying it; the entries with other keys stay in the same order, and
   * the other duplicates of the key keep their values.
   */
  lemma DeleteOne(c: seq<Entry>, k: string, fam: Family, k': string)
    requires Classify(k) == Some(fam) && HasKey(c, k)
    ensures DeleteAll(c, [k], fam).Some?
    ensures var r := DeleteAll(c, [k], fam).value;
      && |r| == |c| - 1
      && r == c[..FirstIndex(c, k)] + c[FirstIndex(c, k) + 1..]
      && |Values(c, k)| > 0 && Values(r, k) == Values(c, k)[1..]
      && (k' != k ==> Values(r, k') == Values(c, k'))
      && Others(r, k) == Others(c, k)
  {
    assert [k][..0] == [];
    EraseFirstValues(c, k, k');
  }

  /**
   * What the delete loop leaves under each key: a key of family fam loses
   * its first n values, n being how often the list names it, and the list
   * names it no more often than the container holds it; a key of another
   * family keeps all of its values.
   */
  lemma {:induction false} DeleteCount(c: seq<Entry>, keys: seq<string>, fam: Family, k: string)
    requires DeleteAll(c, keys, fam).Some?
    ensures var n := if Classify(k) == Some(fam) then multiset(keys)[k] else 0;
      && n <= |Values(c, k)|
      && Values(DeleteAll(c, keys, fam).value, k) == Values(c, k)[n..]
    decreases |keys|
  {
    if keys != [] {
      var front, last := keys[..|keys| - 1], keys[|keys| - 1];
      DeleteLast(c, keys, fam);
      DeleteCount(c, front, fam, k);
      var d, r := DeleteAll(c, front, fam).value, DeleteAll(c, keys, fam).value;
      DeleteStepValues(d, last, fam, k, r);
      assert multiset(keys)[k] == multiset(front)[k] + (if last == k then 1 else 0) by {
        assert keys == front + [last];
      }
      var vs := Values(c, k);
      var m := if Classify(k) == Some(fam) then multiset(front)[k] else 0;
      var t := if Classify(k) == Some(fam) && last == k then 1 else 0;
      assert vs[m..][t..] == vs[m + t..];
    }
  }

  /** What one step of the delete loop does to the values under k. */
  lemma DeleteStepValues(d: seq<Entry>, last: string, fam: Family, k: string, r: seq<Entry>)
    requires Classify(last) != Some(fam) ==> r == d
    requires Classify(last) == Some(fam) ==> HasKey(d, last) && r == EraseFirst(d, last)
    ensures var t := if Classify(k) == Some(fam) && last == k then 1 else 0;
      t <= |Values(d, k)| && Values(r, k) == Values(d, k)[t..]
  {
    if Classify(last) == Some(fam) {
      EraseFirstValues(d, last, k);
    }
  }

  /** One step of the delete loop: the last key of the list, seen after the others. */
  lemma DeleteLast(c: seq<Entry>, keys: seq<string>, fam: Family)
    requires keys != [] && DeleteAll(c, keys, fam).Some?
    ensures var front, last := keys[..|keys| - 1], keys[|keys| - 1];
      && DeleteAll(c, front, fam).Some?
      && (Classify(last) != Some(fam) ==> DeleteAll(c, keys, fam) == DeleteAll(c, front, fam))
      && (Classify(last) == Some(fam) ==>
            && HasKey(DeleteAll(c, front, fam).value, last)
            && DeleteAll(c, keys, fam).value == EraseFirst(DeleteAll(c, front, fam).value, last))
  {
  }

  /** A key the list does not name keeps every value it had. */
  lemma DeleteUnnamed(c: seq<Entry>, keys: seq<string>, fam: Family, k: string)
    requires DeleteAll(c, keys, fam).Some? && k !in keys
    ensures Values(DeleteAll(c, keys, fam).value, k) == Values(c, k)
  {
    DeleteCount(c, keys, fam, k);
  }
}
