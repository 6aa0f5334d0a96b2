/**
 * The tag-editing rules of the exiv2 binding for Node.js: the three workers
 * (read, assign, delete) over an image's Exif, IPTC and XMP containers, the
 * conversion of the JavaScript tag object into a tag map, and the shape of
 * the result handed back to the JavaScript callback.
 */
module Exiv2Node {
  import opened Optional
  import opened Keys
  import opened Entries
  import opened Containers
  import opened TagMaps
  import opened Edits

  // ---------------------------------------------------------------------
  // JavaScript values

  /** A tag value on the JavaScript side: a string or an array of strings. */
  datatype JsValue = JsString(s: string) | JsArray(items: seq<string>)

  /** One property of a JavaScript object, in the object's property order. */
  datatype Property = Property(name: string, value: JsValue)

  /** The values setImageTags takes from one property: a string is one value, an array its elements in order. */
  function ToList(v: JsValue): seq<string> {
    match v
    case JsString(s) => [s]
    case JsArray(items) => items
  }

  /**
   * The value getImageTags hands back for a list: a list with more than one
   * value becomes an array, a list with one value becomes that string.  Both
   * give back the list when converted as setImageTags converts its input.
   */
  function Shape(vs: seq<string>): (r: JsValue)
    requires vs != []
    ensures ToList(r) == vs
    ensures r.JsArray? <==> |vs| > 1
  {
    if |vs| > 1 then JsArray(vs) else JsString(vs[0])
  }

  /** The object getImageTags hands back: one property per key, in the map's order. */
  function Emit(bs: seq<Binding>): seq<Property>
    requires AllNonEmpty(bs)
  {
    seq(|bs|, i requires 0 <= i < |bs| => Property(bs[i].key, Shape(bs[i].values)))
  }

  /** The list setImageTags builds for k: the values of every property named k, in property order. */
  function Collected(props: seq<Property>, k: string): seq<string> {
    if props == [] then []
    else
      var last := props[|props| - 1];
      Collected(props[..|props| - 1], k) + (if last.name == k then ToList(last.value) else [])
  }

  /** The list a read produces for k: its Exif values, then its IPTC values, then its XMP values. */
  function Aggregate(exif: seq<Entry>, iptc: seq<Entry>, xmp: seq<Entry>, k: string): seq<string> {
    Values(exif, k) + Values(iptc, k) + Values(xmp, k)
  }

  /** The message passed as the callback's error argument: null when no exception was recorded. */
  function ErrorArgument(exception: string): (r: Option<string>)
    ensures r.Some? <==> exception != ""
    ensures r.Some? ==> r.value == exception
  {
    if exception == "" then None else Some(exception)
  }

  // ---------------------------------------------------------------------
  // Reading tags

  class GetTagsWorker {
    var tags: TagMap
    var exifException: string

    constructor ()
      ensures fresh(tags) && tags.Valid() && tags.bindings == [] && exifException == ""
    {
      tags := new TagMap();
      exifException := "";
    }

    /**
     * Execute: when opening or reading the image throws, its message is
     * appended to the exception text and nothing is read; otherwise every
     * Exif, then IPTC, then XMP entry is pushed onto the list of its key.
     */
    method Execute(failure: Option<string>, exifData: seq<Entry>, iptcData: seq<Entry>, xmpData: seq<Entry>)
      requires tags.Valid()
      modifies tags, this`exifException
      ensures tags.Valid()
      ensures failure.Some? ==> exifException == old(exifException) + failure.value && tags.bindings == old(tags.bindings)
      ensures failure.None? ==> exifException == old(exifException)
      ensures failure.None? ==> forall k ::
        tags.Get(k) == old(tags.Get(k)) + Aggregate(exifData, iptcData, xmpData, k)
      ensures failure.None? ==>
        tags.KeySet() == old(tags.KeySet()) + EntryKeys(exifData) + EntryKeys(iptcData) + EntryKeys(xmpData)
    {
      if failure.Some? {
        exifException := exifException + failure.value;
        return;
      }
      AddEntries(exifData);
      AddEntries(iptcData);
      AddEntries(xmpData);
    }

    /** One of the three loops of Execute: `tags[key].push_back(value)` for each entry in order. */
    method AddEntries(c: seq<Entry>)
      requires tags.Valid()
      modifies tags
      ensures tags.Valid()
      ensures forall k :: tags.Get(k) == old(tags.Get(k)) + Values(c, k)
      ensures tags.KeySet() == old(tags.KeySet()) + EntryKeys(c)
    {
      forall k ensures k in tags.KeySet() <==> tags.Get(k) != [] {
        tags.Bound(k);
      }
      var i := 0;
      while i < |c|
        invariant 0 <= i <= |c|
        invariant tags.Valid()
        invariant forall k :: tags.Get(k) == old(tags.Get(k)) + Values(c[..i], k)
      {
        tags.PushBack(c[i].key, c[i].value);
        forall k ensures Values(c[..i + 1], k) == Values(c[..i], k) + (if c[i].key == k then [c[i].value] else []) {
          ValuesSnoc(c, i, k);
        }
        i := i + 1;
      }
      assert c[..i] == c;
      forall k ensures k in tags.KeySet() <==> k in old(tags.KeySet()) + EntryKeys(c) {
        tags.Bound(k);
        EntryKeysValues(c, k);
      }
    }

    /**
     * HandleOKCallback: a recorded exception fills the error argument and
     * leaves the data argument null; otherwise a non-empty tag map becomes an
     * object with one property per key, and an empty one leaves data null.
     */
    method HandleOKCallback() returns (err: Option<string>, data: Option<seq<Property>>)
      requires tags.Valid()
      ensures err == ErrorArgument(exifException)
      ensures err.Some? ==> data == None
      ensures err == None && tags.bindings == [] ==> data == None
      ensures err == None && tags.bindings != [] ==> data == Some(Emit(tags.bindings))
    {
      err, data := None, None;
      if exifException != "" {
        err := Some(exifException);
      } else if tags.bindings != [] {
        var bs := tags.bindings;
        var hash: seq<Property> := [];
        var i := 0;
        while i < |bs|
          invariant 0 <= i <= |bs|
          invariant |hash| == i
          invariant forall j :: 0 <= j < i ==> hash[j] == Property(bs[j].key, Shape(bs[j].values))
        {
          assert bs[i].values != [];
          var value := bs[i].values;
          if |value| > 1 {
            var list: seq<string> := [];
            var index := 0;
            while index < |value|
              invariant 0 <= index <= |value|
              invariant list == value[..index]
            {
              list := list + [value[index]];
              index := index + 1;
            }
            assert list == value;
            hash := hash + [Property(bs[i].key, JsArray(list))];
          } else {
            hash := hash + [Property(bs[i].key, JsString(value[0]))];
          }
          i := i + 1;
        }
        assert hash == Emit(bs);
        data := Some(hash);
      }
    }
  }

  lemma ValuesSnoc(c: seq<Entry>, i: nat, k: string)
    requires i < |c|
    ensures Values(c[..i + 1], k) == Values(c[..i], k) + (if c[i].key == k then [c[i].value] else [])
  {
    assert c[..i + 1] == c[..i] + [c[i]];
    ValuesAppend(c[..i], [c[i]], k);
    assert [c[i]][1..] == [];
  }

  /** A key is carried by some entry exactly when it has some value. */
  lemma EntryKeysValues(c: seq<Entry>, k: string)
    ensures k in EntryKeys(c) <==> Values(c, k) != []
  {
    HasKeyValues(c, k);
    if HasKey(c, k) {
      var i :| 0 <= i < |c| && c[i].key == k;
      assert c[i].key in EntryKeys(c);
    }
  }

  // ---------------------------------------------------------------------
  // Assigning tags

  /**
   * The state of a container while the assignments run: sorted by key up to
   * p, and every entry from p on carries a key that has been assigned already.
   */
  ghost predicate Layout(c: seq<Entry>, p: nat, done: set<string>) {
    SortedUpTo(c, p) && forall m :: p <= m < |c| ==> c[m].key in done
  }

  class SetTagsWorker {
    var tags: TagMap
    var exifException: string

    constructor ()
      ensures fresh(tags) && tags.Valid() && tags.bindings == [] && exifException == ""
    {
      tags := new TagMap();
      exifException := "";
    }

    /**
     * Execute: the three containers are sorted by key, then each binding of
     * the tag map, in key order, is assigned to the container its prefix names.
     * The ghost results are the containers just after sorting, whose order
     * among equal keys the library decides.
     */
    method Execute(failure: Option<string>, exifData: Container, iptcData: Container, xmpData: Container)
      returns (ghost sortedExif: seq<Entry>, ghost sortedIptc: seq<Entry>, ghost sortedXmp: seq<Entry>)
      requires tags.Valid()
      requires exifData != iptcData && exifData != xmpData && iptcData != xmpData
      modifies this`exifException, exifData, iptcData, xmpData
      ensures failure.Some? ==> exifException == old(exifException) + failure.value
      ensures failure.Some? ==>
        && exifData.entries == old(exifData.entries)
        && iptcData.entries == old(iptcData.entries)
        && xmpData.entries == old(xmpData.entries)
      ensures failure.None? ==> exifException == old(exifException)
      ensures failure.None? ==>
        && SortedByKey(sortedExif) && multiset(sortedExif) == multiset(old(exifData.entries))
        && SortedByKey(sortedIptc) && multiset(sortedIptc) == multiset(old(iptcData.entries))
        && SortedByKey(sortedXmp) && multiset(sortedXmp) == multiset(old(xmpData.entries))
      ensures failure.None? ==>
        && AllNonEmpty(tags.bindings)
        && exifData.entries == ApplyEdits(sortedExif, tags.bindings, Exif)
        && iptcData.entries == ApplyEdits(sortedIptc, tags.bindings, Iptc)
        && xmpData.entries == ApplyEdits(sortedXmp, tags.bindings, Xmp)
    {
      if failure.Some? {
        exifException := exifException + failure.value;
        sortedExif, sortedIptc, sortedXmp := exifData.entries, iptcData.entries, xmpData.entries;
        return;
      }
      exifData.SortByKey();
      iptcData.SortByKey();
      xmpData.SortByKey();
      sortedExif, sortedIptc, sortedXmp := exifData.entries, iptcData.entries, xmpData.entries;
      ghost var pE: nat, pI: nat, pX: nat := |sortedExif|, |sortedIptc|, |sortedXmp|;

      var bs := tags.bindings;
      var i := 0;
      while i < |bs|
        invariant 0 <= i <= |bs|
        invariant exifException == old(exifException)
        invariant AllNonEmpty(bs[..i])
        invariant exifData.entries == ApplyEdits(sortedExif, bs[..i], Exif)
        invariant iptcData.entries == ApplyEdits(sortedIptc, bs[..i], Iptc)
        invariant xmpData.entries == ApplyEdits(sortedXmp, bs[..i], Xmp)
        invariant Layout(exifData.entries, pE, BoundKeys(bs[..i]))
        invariant Layout(iptcData.entries, pI, BoundKeys(bs[..i]))
        invariant Layout(xmpData.entries, pX, BoundKeys(bs[..i]))
      {
        ghost var done := BoundKeys(bs[..i]);
        NextBinding(bs, i);
        pE, pI, pX := Assign(exifData, iptcData, xmpData, bs[i], pE, pI, pX, done);
        i := i + 1;
      }
      assert bs[..i] == bs;
    }

    /** HandleOKCallback: the error argument is the recorded exception, or null. */
    method HandleOKCallback() returns (err: Option<string>)
      ensures err == ErrorArgument(exifException)
    {
      err := None;
      if exifException != "" {
        err := Some(exifException);
      }
    }
  }

  /** Facts about the binding the loop of SetTagsWorker.Execute takes next. */
  lemma NextBinding(bs: seq<Binding>, i: nat)
    requires StrictlySorted(bs) && AllNonEmpty(bs) && i < |bs|
    ensures bs[i].values != []
    ensures AllNonEmpty(bs[..i + 1])
    ensures bs[..i + 1][..i] == bs[..i] && bs[..i + 1][i] == bs[i]
    ensures bs[i].key !in BoundKeys(bs[..i])
    ensures BoundKeys(bs[..i + 1]) == BoundKeys(bs[..i]) + {bs[i].key}
  {
    assert bs[..i + 1][..i] == bs[..i];
    OnlyOneBinding(bs, i);
    var a, b := bs[..i + 1], bs[..i];
    forall x ensures x in BoundKeys(a) <==> x in BoundKeys(b) + {bs[i].key} {
      if x in BoundKeys(a) {
        var j :| 0 <= j < |a| && a[j].key == x;
        if j < i {
          assert b[j].key == x;
        }
      }
      if x in BoundKeys(b) {
        var j :| 0 <= j < |b| && b[j].key == x;
        assert a[j].key == x;
      }
      if x == bs[i].key {
        assert a[i].key == x;
      }
    }
  }

  /**
   * The body of the assignment loop for one binding: several values replace
   * every entry of the key in the family's container (IPTC then writes the
   * first value once more onto the first entry); one value overwrites the
   * first entry or creates it; a key of no family is skipped.
   */
  method Assign(exifData: Container, iptcData: Container, xmpData: Container, b: Binding,
                ghost pE: nat, ghost pI: nat, ghost pX: nat, ghost done: set<string>)
    returns (ghost pE': nat, ghost pI': nat, ghost pX': nat)
    requires exifData != iptcData && exifData != xmpData && iptcData != xmpData
    requires b.values != [] && b.key !in done
    requires Layout(exifData.entries, pE, done) && Layout(iptcData.entries, pI, done) && Layout(xmpData.entries, pX, done)
    modifies exifData, iptcData, xmpData
    ensures exifData.entries == ApplyEdit(old(exifData.entries), b, Exif)
    ensures iptcData.entries == ApplyEdit(old(iptcData.entries), b, Iptc)
    ensures xmpData.entries == ApplyEdit(old(xmpData.entries), b, Xmp)
    ensures Layout(exifData.entries, pE', done + {b.key})
    ensures Layout(iptcData.entries, pI', done + {b.key})
    ensures Layout(xmpData.entries, pX', done + {b.key})
  {
    var key, val := b.key, b.values;
    pE', pI', pX' := pE, pI, pX;
    LayoutGrows(exifData.entries, pE, done, key);
    LayoutGrows(iptcData.entries, pI, done, key);
    LayoutGrows(xmpData.entries, pX, done, key);
    if |val| > 1 {
      // multiple entries, replace all matching properties
      if CompareHead(key, 5, "Exif.") {
        pE' := ReplaceAllIn(exifData, key, val, pE, done);
      } else if CompareHead(key, 5, "Iptc.") {
        pI' := ReplaceAllIn(iptcData, key, val, pI, done);
        ghost var replaced := iptcData.entries;
        SetFirstAfterReplaceAll(old(iptcData.entries), key, val);
        AssignFirst(iptcData, key, val[0]);
        assert iptcData.entries == replaced;
      } else if CompareHead(key, 4, "Xmp.") {
        pX' := ReplaceAllIn(xmpData, key, val, pX, done);
      }
    } else {
      if CompareHead(key, 5, "Exif.") {
        AssignFirst(exifData, key, val[0]);
        LayoutAfterSetFirst(old(exifData.entries), pE, done, key, val[0]);
      } else if CompareHead(key, 5, "Iptc.") {
        AssignFirst(iptcData, key, val[0]);
        LayoutAfterSetFirst(old(iptcData.entries), pI, done, key, val[0]);
      } else if CompareHead(key, 4, "Xmp.") {
        AssignFirst(xmpData, key, val[0]);
        LayoutAfterSetFirst(old(xmpData.entries), pX, done, key, val[0]);
      } else {
        // a key of no family is skipped
      }
    }
  }

  /**
   * The replacement of every entry of key by one entry per value: the erase
   * loop, then the add loop.  On a container laid out as Layout says, with
   * key not yet assigned, the erase loop removes every entry carrying key.
   */
  method ReplaceAllIn(data: Container, key: string, val: seq<string>, ghost p: nat, ghost done: set<string>)
    returns (ghost p': nat)
    requires Layout(data.entries, p, done) && key !in done
    modifies data
    ensures data.entries == ReplaceAll(old(data.entries), key, val)
    ensures Layout(data.entries, p', done + {key})
  {
    ghost var c := data.entries;
    EraseRunIn(data, key);
    p' := LayoutAfterEraseRun(c, p, done, key);
    EraseRunRemovesAll(c, key, p);
    LayoutGrows(data.entries, p', done, key);
    AddAll(data, key, val);
    LayoutAppendFill(Others(c, key), p', done + {key}, key, val);
  }

  /** `it = data.findKey(key)`, then erase while the entry at it carries key. */
  method EraseRunIn(data: Container, key: string)
    modifies data
    ensures data.entries == EraseRun(old(data.entries), key)
  {
    ghost var c := data.entries;
    var it: nat := data.FindKey(key);
    FirstIndexUnique(c, key, it);
    ghost var first := it;
    ghost var n: nat := 0;
    while it < |data.entries| && data.entries[it].key == key
      invariant it == first && it + n <= |c|
      invariant forall m :: it <= m < it + n ==> c[m].key == key
      invariant data.entries == c[..it] + c[it + n..]
      decreases |c| - n
    {
      EraseStep(c, it, n);
      it := data.Erase(it);
      n := n + 1;
    }
    EraseLoopDone(c, it, key, n);
  }

  /** The position findKey returns is the first index of the key. */
  lemma FirstIndexUnique(c: seq<Entry>, k: string, it: nat)
    requires it <= |c| && (it < |c| ==> c[it].key == k)
    requires forall j :: 0 <= j < it ==> c[j].key != k
    ensures it == FirstIndex(c, k)
  {
  }

  /** Erasing at it from the remainder of an erase loop removes the next entry of c. */
  lemma EraseStep(c: seq<Entry>, it: nat, n: nat)
    requires it + n < |c|
    ensures var d := c[..it] + c[it + n..];
      d[it] == c[it + n] && d[..it] + d[it + 1..] == c[..it] + c[it + n + 1..]
  {
  }

  /** When the erase loop stops, it has removed the run of k at its first index. */
  lemma EraseLoopDone(c: seq<Entry>, i: nat, k: string, n: nat)
    requires i == FirstIndex(c, k) && i + n <= |c|
    requires forall m :: i <= m < i + n ==> c[m].key == k
    requires i + n == |c| || c[i + n].key != k
    ensures c[..i] + c[i + n..] == EraseRun(c, k)
  {
    RunLengthIs(c, i, k, n);
  }

  /** A run of n entries of k followed by the end or another key has length n. */
  lemma RunLengthIs(c: seq<Entry>, i: nat, k: string, n: nat)
    requires i + n <= |c|
    requires forall m :: i <= m < i + n ==> c[m].key == k
    requires i + n == |c| || c[i + n].key != k
    ensures n == RunLength(c, i, k)
  {
  }

  /** `data.add(key, v)` for each value in order. */
  method AddAll(data: Container, key: string, val: seq<string>)
    modifies data
    ensures data.entries == old(data.entries) + Fill(key, val)
  {
    var l := 0;
    while l < |val|
      invariant 0 <= l <= |val|
      invariant data.entries == old(data.entries) + Fill(key, val[..l])
    {
      data.Add(key, val[l]);
      assert Fill(key, val[..l + 1]) == Fill(key, val[..l]) + [Entry(key, val[l])];
      l := l + 1;
    }
    assert val[..l] == val;
  }

  /** `data[key].setValue(v)`: overwrite the first entry carrying key, created if missing. */
  method AssignFirst(data: Container, key: string, v: string)
    modifies data
    ensures data.entries == SetFirst(old(data.entries), key, v)
  {
    var it := data.Subscript(key);
    data.SetValue(it, v);
  }

  // ---------------------------------------------------------------------
  // The layout during the assignments

  lemma LayoutGrows(c: seq<Entry>, p: nat, done: set<string>, k: string)
    requires Layout(c, p, done)
    ensures Layout(c, p, done + {k})
  {
  }

  lemma LayoutAppendFill(c: seq<Entry>, p: nat, done: set<string>, k: string, vals: seq<string>)
    requires Layout(c, p, done) && k in done
    ensures Layout(c + Fill(k, vals), p, done)
  {
    var r := c + Fill(k, vals);
    forall m | p <= m < |r| ensures r[m].key in done {
      if m < |c| {
        assert r[m] == c[m];
      } else {
        assert r[m] == Fill(k, vals)[m - |c|];
      }
    }
    forall i, j | 0 <= i < j < p ensures LessEq(r[i].key, r[j].key) {
      assert r[i] == c[i] && r[j] == c[j];
    }
  }

  lemma LayoutAppend(c: seq<Entry>, p: nat, done: set<string>, e: Entry)
    requires Layout(c, p, done) && e.key in done
    ensures Layout(c + [e], p, done)
  {
    var r := c + [e];
    forall m | p <= m < |r| ensures r[m].key in done {
      if m < |c| {
        assert r[m] == c[m];
      }
    }
    forall i, j | 0 <= i < j < p ensures LessEq(r[i].key, r[j].key) {
      assert r[i] == c[i] && r[j] == c[j];
    }
  }

  /** The erase loop takes its run from the sorted part, which stays sorted. */
  lemma LayoutAfterEraseRun(c: seq<Entry>, p: nat, done: set<string>, k: string) returns (p': nat)
    requires Layout(c, p, done) && k !in done
    ensures Layout(EraseRun(c, k), p', done)
  {
    var i := FirstIndex(c, k);
    var n := RunLength(c, i, k);
    var r := EraseRun(c, k);
    if n == 0 {
      assert r == c;
      p' := p;
    } else {
      assert c[i + n - 1].key == k;
      assert i + n <= p;
      p' := p - n;
      CutSorted(c, i, n, p);
      CutTail(c, i, n, p, done);
    }
  }

  /** Cutting n entries out of the sorted part leaves it sorted, n entries shorter. */
  lemma CutSorted(c: seq<Entry>, i: nat, n: nat, p: nat)
    requires SortedUpTo(c, p) && i + n <= p
    ensures SortedUpTo(c[..i] + c[i + n..], p - n)
  {
    var r := c[..i] + c[i + n..];
    forall a, b | 0 <= a < b < p - n ensures LessEq(r[a].key, r[b].key) {
      var a', b' := if a < i then a else a + n, if b < i then b else b + n;
      assert r[a] == c[a'] && r[b] == c[b'];
    }
  }

  /** Cutting n entries out of the sorted part keeps the tail as it was. */
  lemma CutTail(c: seq<Entry>, i: nat, n: nat, p: nat, done: set<string>)
    requires i + n <= p <= |c|
    requires forall m :: p <= m < |c| ==> c[m].key in done
    ensures var r := c[..i] + c[i + n..]; forall m :: p - n <= m < |r| ==> r[m].key in done
  {
    var r := c[..i] + c[i + n..];
    forall m | p - n <= m < |r| ensures r[m].key in done {
      assert r[m] == c[m + n];
    }
  }

  /** Overwriting the first entry keeps its key; creating one puts it after the sorted part. */
  lemma LayoutAfterSetFirst(c: seq<Entry>, p: nat, done: set<string>, k: string, v: string)
    requires Layout(c, p, done)
    ensures Layout(SetFirst(c, k, v), p, done + {k})
  {
  }

  // ---------------------------------------------------------------------
  // Deleting tags

  class DeleteTagsWorker {
    var tags: seq<string>
    var exifException: string

    constructor ()
      ensures tags == [] && exifException == ""
    {
      tags := [];
      exifException := "";
    }

    /**
     * Execute: each key with a known prefix erases the first entry carrying it
     * from its family's container; other keys are skipped.  A key of a family
     * must be present at its turn: erasing at the end position is left to the
     * library.
     */
    method Execute(failure: Option<string>, exifData: Container, iptcData: Container, xmpData: Container)
      requires exifData != iptcData && exifData != xmpData && iptcData != xmpData
      requires failure.None? ==>
        && DeleteAll(exifData.entries, tags, Exif).Some?
        && DeleteAll(iptcData.entries, tags, Iptc).Some?
        && DeleteAll(xmpData.entries, tags, Xmp).Some?
      modifies this`exifException, exifData, iptcData, xmpData
      ensures failure.Some? ==> exifException == old(exifException) + failure.value
      ensures failure.Some? ==>
        && exifData.entries == old(exifData.entries)
        && iptcData.entries == old(iptcData.entries)
        && xmpData.entries == old(xmpData.entries)
      ensures failure.None? ==>
        && exifException == old(exifException)
        && Some(exifData.entries) == DeleteAll(old(exifData.entries), tags, Exif)
        && Some(iptcData.entries) == DeleteAll(old(iptcData.entries), tags, Iptc)
        && Some(xmpData.entries) == DeleteAll(old(xmpData.entries), tags, Xmp)
    {
      if failure.Some? {
        exifException := exifException + failure.value;
        return;
      }
      var i := 0;
      while i < |tags|
        invariant 0 <= i <= |tags|
        invariant exifException == old(exifException)
        invariant Some(exifData.entries) == DeleteAll(old(exifData.entries), tags[..i], Exif)
        invariant Some(iptcData.entries) == DeleteAll(old(iptcData.entries), tags[..i], Iptc)
        invariant Some(xmpData.entries) == DeleteAll(old(xmpData.entries), tags[..i], Xmp)
      {
        var key := tags[i];
        assert tags[..i + 1][..i] == tags[..i] && tags[..i + 1][i] == key;
        DeletePrefixDefined(old(exifData.entries), tags, Exif, i + 1);
        DeletePrefixDefined(old(iptcData.entries), tags, Iptc, i + 1);
        DeletePrefixDefined(old(xmpData.entries), tags, Xmp, i + 1);
        if CompareHead(key, 5, "Exif.") {
          EraseFirstIn(exifData, key);
        } else if CompareHead(key, 5, "Iptc.") {
          EraseFirstIn(iptcData, key);
        } else if CompareHead(key, 4, "Xmp.") {
          EraseFirstIn(xmpData, key);
        } else {
          // a key of no family is skipped
        }
        i := i + 1;
      }
      assert tags[..i] == tags;
    }

    /** HandleOKCallback: the error argument is the recorded exception, or null. */
    method HandleOKCallback() returns (err: Option<string>)
      ensures err == ErrorArgument(exifException)
    {
      err := None;
      if exifException != "" {
        err := Some(exifException);
      }
    }
  }

  /** DeleteImageTags: the worker's key list is every element of the key array, in order. */
  method DeleteImageTags(keys: seq<string>) returns (worker: DeleteTagsWorker)
    ensures fresh(worker) && worker.tags == keys && worker.exifException == ""
  {
    worker := new DeleteTagsWorker();
    var i := 0;
    while i < |keys|
      invariant 0 <= i <= |keys|
      invariant worker.tags == keys[..i] && worker.exifException == ""
    {
      worker.tags := worker.tags + [keys[i]];
      assert keys[..i + 1] == keys[..i] + [keys[i]];
      i := i + 1;
    }
    assert keys[..i] == keys;
  }

  /** `data.erase(data.findKey(key))` for a key that is present. */
  method EraseFirstIn(data: Container, key: string)
    requires HasKey(data.entries, key)
    modifies data
    ensures data.entries == EraseFirst(old(data.entries), key)
  {
    var it := data.FindKey(key);
    assert it == FirstIndex(data.entries, key);
    var _ := data.Erase(it);
  }

  // ---------------------------------------------------------------------
  // Converting the JavaScript tag object

  /**
   * SetImageTags: for each property of the tag object, in order, an array
   * pushes each of its elements onto the list of the property's name and any
   * other value pushes that one value.
   */
  method SetImageTags(props: seq<Property>) returns (worker: SetTagsWorker)
    ensures fresh(worker) && fresh(worker.tags) && worker.tags.Valid() && worker.exifException == ""
    ensures forall k :: worker.tags.Get(k) == Collected(props, k)
    ensures forall k :: k in worker.tags.KeySet() <==> Collected(props, k) != []
  {
    worker := new SetTagsWorker();
    var tags := worker.tags;
    var i := 0;
    while i < |props|
      invariant 0 <= i <= |props|
      invariant tags == worker.tags && tags.Valid()
      invariant forall k :: tags.Get(k) == Collected(props[..i], k)
      modifies tags
    {
      var key := props[i].name;
      assert props[..i + 1][..i] == props[..i] && props[..i + 1][i] == props[i];
      match props[i].value {
        case JsArray(items) =>
          PushAll(tags, key, items);
        case JsString(s) =>
          tags.PushBack(key, s);
      }
      i := i + 1;
    }
    assert props[..i] == props;
    forall k ensures k in tags.KeySet() <==> Collected(props, k) != [] {
      tags.Bound(k);
    }
  }

  /** The array branch of SetImageTags: push each element, in order, onto the list of key. */
  method PushAll(tags: TagMap, key: string, items: seq<string>)
    requires tags.Valid()
    modifies tags
    ensures tags.Valid()
    ensures tags.Get(key) == old(tags.Get(key)) + items
    ensures forall k :: k != key ==> tags.Get(k) == old(tags.Get(k))
  {
    var j := 0;
    while j < |items|
      invariant 0 <= j <= |items|
      invariant tags.Valid()
      invariant tags.Get(key) == old(tags.Get(key)) + items[..j]
      invariant forall k :: k != key ==> tags.Get(k) == old(tags.Get(k))
    {
      tags.PushBack(key, items[j]);
      assert items[..j + 1] == items[..j] + [items[j]];
      j := j + 1;
    }
    assert items[..j] == items;
  }

  // ---------------------------------------------------------------------
  // Properties across the operations

  /** Converting the callback's object back as setImageTags does gives the tag map read. */
  lemma {:induction false} EmitThenCollect(bs: seq<Binding>, k: string)
    requires AllNonEmpty(bs) && StrictlySorted(bs)
    ensures Collected(Emit(bs), k) == Lookup(bs, k)
    decreases |bs|
  {
    if bs != [] {
      var front := bs[..|bs| - 1];
      var last := bs[|bs| - 1];
      assert AllNonEmpty(front) && StrictlySorted(front);
      assert Emit(bs)[..|bs| - 1] == Emit(front);
      EmitThenCollect(front, k);
      if last.key == k {
        LookupAt(bs, |bs| - 1);
        assert k !in BoundKeys(front) by {
          forall j | 0 <= j < |front| ensures front[j].key != k {
            LessIrreflexive(k);
          }
        }
        LookupMissing(front, k);
      } else {
        LookupWithoutLast(bs, k);
      }
    }
  }

  lemma LookupWithoutLast(bs: seq<Binding>, k: string)
    requires StrictlySorted(bs) && bs != [] && bs[|bs| - 1].key != k
    ensures Lookup(bs, k) == Lookup(bs[..|bs| - 1], k)
  {
    var front := bs[..|bs| - 1];
    assert StrictlySorted(front);
    if j :| 0 <= j < |front| && front[j].key == k {
      LookupAt(bs, j);
      LookupAt(front, j);
    } else {
      assert k !in BoundKeys(bs) by {
        forall j | 0 <= j < |bs| ensures bs[j].key != k {
          if j < |front| {
            assert front[j] == bs[j];
          }
        }
      }
      LookupMissing(bs, k);
      LookupMissing(front, k);
    }
  }

  /** For an object whose property names are unique, the list under a name is that property's value converted. */
  lemma {:induction false} CollectedOfObject(props: seq<Property>, i: nat)
    requires i < |props|
    requires forall a, b :: 0 <= a < b < |props| ==> props[a].name != props[b].name
    ensures Collected(props, props[i].name) == ToList(props[i].value)
    decreases |props|
  {
    var k := props[i].name;
    var front := props[..|props| - 1];
    if i < |props| - 1 {
      CollectedOfObject(front, i);
    } else {
      NameAbsent(front, k);
    }
  }

  lemma {:induction false} NameAbsent(props: seq<Property>, k: string)
    requires forall j :: 0 <= j < |props| ==> props[j].name != k
    ensures Collected(props, k) == []
  {
    if props != [] {
      NameAbsent(props[..|props| - 1], k);
    }
  }

  /** A one-element array is collected exactly as the string it holds. */
  lemma {:induction false} SingletonArrayIsScalar(props: seq<Property>, i: nat, s: string, k: string)
    requires i < |props|
    ensures Collected(props[i := Property(props[i].name, JsArray([s]))], k)
         == Collected(props[i := Property(props[i].name, JsString(s))], k)
    decreases |props|
  {
    var a := props[i := Property(props[i].name, JsArray([s]))];
    var b := props[i := Property(props[i].name, JsString(s))];
    if i < |props| - 1 {
      SingletonArrayIsScalar(props[..|props| - 1], i, s, k);
      assert a[..|a| - 1] == props[..|props| - 1][i := Property(props[i].name, JsArray([s]))];
      assert b[..|b| - 1] == props[..|props| - 1][i := Property(props[i].name, JsString(s))];
    } else {
      assert a[..|a| - 1] == b[..|b| - 1];
    }
  }

  /** A container holding only keys of family g holds no entry for a key of another family. */
  lemma ForeignKeyAbsent(c: seq<Entry>, g: Family, k: string)
    requires OfFamily(c, g) && Classify(k) != Some(g)
    ensures Values(c, k) == []
  {
    assert !HasKey(c, k);
    AbsentKey(c, k);
  }

  /**
   * Reading after assigning several values to a key of a known family gives
   * exactly those values, in order, however many entries the key had before.
   */
  lemma ReadAfterWrite(exif: seq<Entry>, iptc: seq<Entry>, xmp: seq<Entry>, bs: seq<Binding>, j: nat)
    requires OfFamily(exif, Exif) && OfFamily(iptc, Iptc) && OfFamily(xmp, Xmp)
    requires AllNonEmpty(bs) && StrictlySorted(bs) && j < |bs|
    requires |bs[j].values| > 1 && Classify(bs[j].key).Some?
    ensures Aggregate(ApplyEdits(exif, bs, Exif), ApplyEdits(iptc, bs, Iptc), ApplyEdits(xmp, bs, Xmp), bs[j].key)
         == bs[j].values
  {
    var k, f := bs[j].key, Classify(bs[j].key).value;
    var e, i, x := ApplyEdits(exif, bs, Exif), ApplyEdits(iptc, bs, Iptc), ApplyEdits(xmp, bs, Xmp);
    EditsStayInFamily(exif, bs, Exif);
    EditsStayInFamily(iptc, bs, Iptc);
    EditsStayInFamily(xmp, bs, Xmp);
    FamilyAggregate(e, i, x, k);
    var own := if f == Exif then exif else if f == Iptc then iptc else xmp;
    AssignedKeyValues(own, bs, j, f);
  }

  /** With every container holding only its own family, a key's list is its values in its family's container. */
  lemma FamilyAggregate(exif: seq<Entry>, iptc: seq<Entry>, xmp: seq<Entry>, k: string)
    requires OfFamily(exif, Exif) && OfFamily(iptc, Iptc) && OfFamily(xmp, Xmp)
    requires Classify(k).Some?
    ensures Classify(k) == Some(Exif) ==> Aggregate(exif, iptc, xmp, k) == Values(exif, k)
    ensures Classify(k) == Some(Iptc) ==> Aggregate(exif, iptc, xmp, k) == Values(iptc, k)
    ensures Classify(k) == Some(Xmp) ==> Aggregate(exif, iptc, xmp, k) == Values(xmp, k)
  {
    if Classify(k) != Some(Exif) {
      ForeignKeyAbsent(exif, Exif, k);
    }
    if Classify(k) != Some(Iptc) {
      ForeignKeyAbsent(iptc, Iptc, k);
    }
    if Classify(k) != Some(Xmp) {
      ForeignKeyAbsent(xmp, Xmp, k);
    }
  }

  /** Reading after assigning gives the old list for every key the tag map does not name. */
  lemma ReadUnassigned(exif: seq<Entry>, iptc: seq<Entry>, xmp: seq<Entry>, bs: seq<Binding>, k: string)
    requires AllNonEmpty(bs) && k !in BoundKeys(bs)
    ensures Aggregate(ApplyEdits(exif, bs, Exif), ApplyEdits(iptc, bs, Iptc), ApplyEdits(xmp, bs, Xmp), k)
         == Aggregate(exif, iptc, xmp, k)
  {
    UnnamedKeyKeepsValues(exif, bs, Exif, k);
    UnnamedKeyKeepsValues(iptc, bs, Iptc, k);
    UnnamedKeyKeepsValues(xmp, bs, Xmp, k);
  }

  /**
   * Reading after assigning one value to a key of a known family yields that
   * value first; the values the key had after the first, if any, follow
   * unchanged.
   */
  lemma ReadAfterSetOne(exif: seq<Entry>, iptc: seq<Entry>, xmp: seq<Entry>, bs: seq<Binding>, j: nat)
    requires OfFamily(exif, Exif) && OfFamily(iptc, Iptc) && OfFamily(xmp, Xmp)
    requires AllNonEmpty(bs) && StrictlySorted(bs) && j < |bs|
    requires |bs[j].values| == 1 && Classify(bs[j].key).Some?
    ensures var before := Aggregate(exif, iptc, xmp, bs[j].key);
      Aggregate(ApplyEdits(exif, bs, Exif), ApplyEdits(iptc, bs, Iptc), ApplyEdits(xmp, bs, Xmp), bs[j].key)
      == [bs[j].values[0]] + (if before == [] then [] else before[1..])
  {
    var k, f := bs[j].key, Classify(bs[j].key).value;
    var e, i, x := ApplyEdits(exif, bs, Exif), ApplyEdits(iptc, bs, Iptc), ApplyEdits(xmp, bs, Xmp);
    EditsStayInFamily(exif, bs, Exif);
    EditsStayInFamily(iptc, bs, Iptc);
    EditsStayInFamily(xmp, bs, Xmp);
    FamilyAggregate(e, i, x, k);
    FamilyAggregate(exif, iptc, xmp, k);
    if f == Exif {
      SetOneValues(exif, bs, j, f);
    } else if f == Iptc {
      SetOneValues(iptc, bs, j, f);
    } else {
      SetOneValues(xmp, bs, j, f);
    }
  }

  /**
   * ReadUnassigned against the containers as they were before the sort: a
   * key the tag map does not name reads back the same values, in the order
   * the sort left them.
   */
  lemma ReadUnassignedUnsorted(exif: seq<Entry>, iptc: seq<Entry>, xmp: seq<Entry>,
                               sortedExif: seq<Entry>, sortedIptc: seq<Entry>, sortedXmp: seq<Entry>,
                               bs: seq<Binding>, k: string)
    requires multiset(sortedExif) == multiset(exif)
    requires multiset(sortedIptc) == multiset(iptc)
    requires multiset(sortedXmp) == multiset(xmp)
    requires AllNonEmpty(bs) && k !in BoundKeys(bs)
    ensures multiset(Aggregate(ApplyEdits(sortedExif, bs, Exif), ApplyEdits(sortedIptc, bs, Iptc),
                               ApplyEdits(sortedXmp, bs, Xmp), k))
         == multiset(Aggregate(exif, iptc, xmp, k))
  {
    ReadUnassigned(sortedExif, sortedIptc, sortedXmp, bs, k);
    SortKeepsValues(sortedExif, exif, k);
    SortKeepsValues(sortedIptc, iptc, k);
    SortKeepsValues(sortedXmp, xmp, k);
  }
}
