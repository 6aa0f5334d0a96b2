/**
 * The contents of one Exiv2 metadata container (ExifData, IptcData or
 * XmpData) as an ordered sequence of (key, value) entries, with the
 * operations the tag-editing rules are specified by.
 */
module Entries {
  import opened Keys

  /** One metadatum: its key in canonical form and its value as text. */
  datatype Entry = Entry(key: string, value: string)

  predicate HasKey(c: seq<Entry>, k: string) {
    exists i :: 0 <= i < |c| && c[i].key == k
  }

  /** The keys carried by some entry. */
  function EntryKeys(c: seq<Entry>): set<string> {
    set i | 0 <= i < |c| :: c[i].key
  }

  /** The values of the entries carrying k, in container order. */
  function Values(c: seq<Entry>, k: string): seq<string> {
    if c == [] then []
    else (if c[0].key == k then [c[0].value] else []) + Values(c[1..], k)
  }

  /** The values under k occur as often as the entries carrying k and that value. */
  lemma {:induction false} ValuesCount(c: seq<Entry>, k: string, v: string)
    ensures multiset(Values(c, k))[v] == multiset(c)[Entry(k, v)]
  {
    if c != [] {
      ValuesCount(c[1..], k, v);
      assert c == [c[0]] + c[1..];
    }
  }

  /** Reordering the entries keeps, under every key, the same values (as a multiset). */
  lemma SortKeepsValues(s: seq<Entry>, c: seq<Entry>, k: string)
    requires multiset(s) == multiset(c)
    ensures multiset(Values(s, k)) == multiset(Values(c, k))
  {
    forall v ensures multiset(Values(s, k))[v] == multiset(Values(c, k))[v] {
      ValuesCount(s, k, v);
      ValuesCount(c, k, v);
    }
  }

  /** The entries whose key is not k, in container order. */
  function Others(c: seq<Entry>, k: string): seq<Entry> {
    if c == [] then []
    else (if c[0].key == k then [] else [c[0]]) + Others(c[1..], k)
  }

  /** The position of the first entry carrying k, or |c| (the end) when there is none. */
  function FirstIndex(c: seq<Entry>, k: string): (i: nat)
    ensures i <= |c|
    ensures i < |c| <==> HasKey(c, k)
    ensures i < |c| ==> c[i].key == k
    ensures forall j :: 0 <= j < i ==> c[j].key != k
  {
    if c == [] then 0
    else if c[0].key == k then 0
    else 1 + FirstIndex(c[1..], k)
  }

  /** One entry (k, v) per value, in the order given. */
  function Fill(k: string, vals: seq<string>): seq<Entry> {
    seq(|vals|, j requires 0 <= j < |vals| => Entry(k, vals[j]))
  }

  /** Every entry carrying k removed, then one entry per value appended in order. */
  function ReplaceAll(c: seq<Entry>, k: string, vals: seq<string>): seq<Entry> {
    Others(c, k) + Fill(k, vals)
  }

  /**
   * `data[k].setValue(v)`: the first entry carrying k takes the value v; when
   * there is none, one entry (k, v) is appended.
   */
  function SetFirst(c: seq<Entry>, k: string, v: string): seq<Entry> {
    var i := FirstIndex(c, k);
    if i < |c| then c[i := Entry(k, v)] else c + [Entry(k, v)]
  }

  /** `data.erase(data.findKey(k))` for a key that is present. */
  function EraseFirst(c: seq<Entry>, k: string): seq<Entry>
    requires HasKey(c, k)
  {
    var i := FirstIndex(c, k);
    c[..i] + c[i + 1..]
  }

  /**
   * The number of consecutive entries carrying k from position i on: the
   * entries the loop `while (it != end && it->key() == key) it = erase(it)`
   * removes when it starts at i.
   */
  function RunLength(c: seq<Entry>, i: nat, k: string): (n: nat)
    requires i <= |c|
    ensures i + n <= |c|
    ensures forall m :: i <= m < i + n ==> c[m].key == k
    ensures i + n == |c| || c[i + n].key != k
    decreases |c| - i
  {
    if i < |c| && c[i].key == k then 1 + RunLength(c, i + 1, k) else 0
  }

  /** The container after the erase loop started at the first entry carrying k. */
  function EraseRun(c: seq<Entry>, k: string): seq<Entry> {
    var i := FirstIndex(c, k);
    c[..i] + c[i + RunLength(c, i, k)..]
  }

  /** Keys in non-decreasing order up to position p. */
  predicate SortedUpTo(c: seq<Entry>, p: nat) {
    p <= |c| && forall i, j :: 0 <= i < j < p ==> LessEq(c[i].key, c[j].key)
  }

  predicate SortedByKey(c: seq<Entry>) {
    SortedUpTo(c, |c|)
  }

  /** Inserts e before the first entry whose key is not below e's. */
  function InsertByKey(e: Entry, c: seq<Entry>): seq<Entry> {
    if c == [] || LessEq(e.key, c[0].key) then [e] + c
    else [c[0]] + InsertByKey(e, c[1..])
  }

  /** A stable insertion sort by key, standing in for the library's sortByKey. */
  function SortByKey(c: seq<Entry>): seq<Entry> {
    if c == [] then [] else InsertByKey(c[0], SortByKey(c[1..]))
  }

  // ---------------------------------------------------------------------
  // Values and Others over concatenation

  lemma {:induction false} ValuesAppend(a: seq<Entry>, b: seq<Entry>, k: string)
    ensures Values(a + b, k) == Values(a, k) + Values(b, k)
  {
    if a == [] {
      assert a + b == b;
    } else {
      assert (a + b)[1..] == a[1..] + b;
      ValuesAppend(a[1..], b, k);
    }
  }

  lemma {:induction false} OthersAppend(a: seq<Entry>, b: seq<Entry>, k: string)
    ensures Others(a + b, k) == Others(a, k) + Others(b, k)
  {
    if a == [] {
      assert a + b == b;
    } else {
      assert (a + b)[1..] == a[1..] + b;
      OthersAppend(a[1..], b, k);
    }
  }

  lemma {:induction false} AbsentKey(c: seq<Entry>, k: string)
    requires !HasKey(c, k)
    ensures Values(c, k) == [] && Others(c, k) == c
  {
    if c != [] {
      assert !HasKey(c[1..], k) by {
        forall i | 0 <= i < |c[1..]| ensures c[1..][i].key != k {
          assert c[1..][i] == c[i + 1];
        }
      }
      AbsentKey(c[1..], k);
      assert c == [c[0]] + c[1..];
    }
  }

  lemma {:induction false} OnlyKey(c: seq<Entry>, k: string)
    requires forall i :: 0 <= i < |c| ==> c[i].key == k
    ensures Others(c, k) == []
    ensures |Values(c, k)| == |c|
  {
    if c != [] {
      OnlyKey(c[1..], k);
    }
  }

  /** The values under k of a run of (k, v) entries are the v's, and no other key has any. */
  lemma {:induction false} FillValues(k: string, vals: seq<string>, k': string)
    ensures Values(Fill(k, vals), k') == if k' == k then vals else []
    ensures Others(Fill(k, vals), k) == []
    ensures k' != k ==> Others(Fill(k, vals), k') == Fill(k, vals)
  {
    if vals != [] {
      FillValues(k, vals[1..], k');
      assert Fill(k, vals)[1..] == Fill(k, vals[1..]);
      assert vals == [vals[0]] + vals[1..];
    }
  }

  lemma {:induction false} OthersValues(c: seq<Entry>, k: string, k': string)
    ensures Values(Others(c, k), k') == if k' == k then [] else Values(c, k')
    ensures !HasKey(Others(c, k), k)
  {
    OthersDropsKey(c, k);
    if c != [] {
      OthersValues(c[1..], k, k');
      var head := if c[0].key == k then [] else [c[0]];
      ValuesAppend(head, Others(c[1..], k), k');
    }
  }

  lemma {:induction false} OthersDropsKey(c: seq<Entry>, k: string)
    ensures !HasKey(Others(c, k), k)
  {
    if c != [] {
      OthersDropsKey(c[1..], k);
      var head := if c[0].key == k then [] else [c[0]];
      var o, t := Others(c, k), Others(c[1..], k);
      assert o == head + t;
      forall i | 0 <= i < |o| ensures o[i].key != k {
        if i >= |head| {
          assert o[i] == t[i - |head|];
        }
      }
    }
  }

  // ---------------------------------------------------------------------
  // The edits, stated over values

  /**
   * Replacing with several values: afterwards k carries exactly vals in order,
   * every other key keeps its values, and the entries with other keys are the
   * same entries in the same order.
   */
  lemma ReplaceAllValues(c: seq<Entry>, k: string, vals: seq<string>, k': string)
    ensures Values(ReplaceAll(c, k, vals), k) == vals
    ensures k' != k ==> Values(ReplaceAll(c, k, vals), k') == Values(c, k')
    ensures Others(ReplaceAll(c, k, vals), k) == Others(c, k)
  {
    ValuesAppend(Others(c, k), Fill(k, vals), k);
    ValuesAppend(Others(c, k), Fill(k, vals), k');
    OthersAppend(Others(c, k), Fill(k, vals), k);
    OthersValues(c, k, k);
    OthersValues(c, k, k');
    FillValues(k, vals, k);
    FillValues(k, vals, k');
    AbsentKey(Others(c, k), k);
  }

  /** The split of a container around its first entry carrying k. */
  lemma SplitAtFirst(c: seq<Entry>, k: string)
    requires HasKey(c, k)
    ensures var i := FirstIndex(c, k);
      && c == c[..i] + [c[i]] + c[i + 1..]
      && Values(c[..i], k) == [] && Others(c[..i], k) == c[..i]
  {
    var i := FirstIndex(c, k);
    assert c == c[..i] + [c[i]] + c[i + 1..];
    AbsentKey(c[..i], k);
  }

  /** Values and Others of a container cut into three pieces. */
  lemma Split3(a: seq<Entry>, x: seq<Entry>, b: seq<Entry>, k: string)
    ensures Values(a + x + b, k) == Values(a, k) + Values(x, k) + Values(b, k)
    ensures Others(a + x + b, k) == Others(a, k) + Others(x, k) + Others(b, k)
  {
    ValuesAppend(a + x, b, k);
    ValuesAppend(a, x, k);
    OthersAppend(a + x, b, k);
    OthersAppend(a, x, k);
  }

  /**
   * Setting one value: only the first entry carrying k changes (to value v),
   * or a single entry (k, v) is appended when k is absent; every other key
   * keeps its values, and the later duplicates of k keep theirs.
   */
  lemma SetFirstValues(c: seq<Entry>, k: string, v: string, k': string)
    ensures HasKey(c, k) ==>
      && |SetFirst(c, k, v)| == |c|
      && (forall j :: 0 <= j < |c| && j != FirstIndex(c, k) ==> SetFirst(c, k, v)[j] == c[j])
    ensures !HasKey(c, k) ==> SetFirst(c, k, v) == c + [Entry(k, v)]
    ensures HasKey(c, k) ==> |Values(c, k)| > 0 && Values(SetFirst(c, k, v), k) == [v] + Values(c, k)[1..]
    ensures !HasKey(c, k) ==> Values(SetFirst(c, k, v), k) == [v]
    ensures k' != k ==> Values(SetFirst(c, k, v), k') == Values(c, k')
    ensures Others(SetFirst(c, k, v), k) == Others(c, k)
  {
    if HasKey(c, k) {
      SetFirstPresent(c, k, v, k');
    } else {
      var e := Entry(k, v);
      ValuesAppend(c, [e], k);
      ValuesAppend(c, [e], k');
      OthersAppend(c, [e], k);
      AbsentKey(c, k);
    }
  }

  lemma SetFirstPresent(c: seq<Entry>, k: string, v: string, k': string)
    requires HasKey(c, k)
    ensures |Values(c, k)| > 0 && Values(SetFirst(c, k, v), k) == [v] + Values(c, k)[1..]
    ensures k' != k ==> Values(SetFirst(c, k, v), k') == Values(c, k')
    ensures Others(SetFirst(c, k, v), k) == Others(c, k)
  {
    var e := Entry(k, v);
    var i := FirstIndex(c, k);
    var front, rest := c[..i], c[i + 1..];
    SplitAtFirst(c, k);
    assert SetFirst(c, k, v) == front + [e] + rest;
    Split3(front, [c[i]], rest, k);
    Split3(front, [e], rest, k);
    Split3(front, [c[i]], rest, k');
    Split3(front, [e], rest, k');
  }

  /** Applying the same single-value edit twice gives what applying it once gives. */
  lemma SetFirstIdempotent(c: seq<Entry>, k: string, v: string)
    ensures SetFirst(SetFirst(c, k, v), k, v) == SetFirst(c, k, v)
  {
    var r := SetFirst(c, k, v);
    var i := FirstIndex(c, k);
    assert r[i] == Entry(k, v);
    assert forall j :: 0 <= j < i ==> r[j].key != k;
    assert FirstIndex(r, k) == i;
  }

  /**
   * After the replacement with several values, `data[k].setValue(vals[0])`
   * changes nothing: the first entry carrying k is the first one appended, and
   * it already holds vals[0].
   */
  lemma SetFirstAfterReplaceAll(c: seq<Entry>, k: string, vals: seq<string>)
    requires vals != []
    ensures SetFirst(ReplaceAll(c, k, vals), k, vals[0]) == ReplaceAll(c, k, vals)
  {
    var o := Others(c, k);
    var r := ReplaceAll(c, k, vals);
    OthersValues(c, k, k);
    assert r[|o|] == Entry(k, vals[0]);
    assert forall j :: 0 <= j < |o| ==> r[j] == o[j];
    assert FirstIndex(r, k) == |o|;
  }

  /**
   * Deleting a present key removes exactly the first entry carrying it: the
   * later duplicates keep their values and every other key keeps its values;
   * the entries with other keys are the same entries in the same order.
   */
  lemma EraseFirstValues(c: seq<Entry>, k: string, k': string)
    requires HasKey(c, k)
    ensures |EraseFirst(c, k)| == |c| - 1
    ensures |Values(c, k)| > 0 && Values(EraseFirst(c, k), k) == Values(c, k)[1..]
    ensures k' != k ==> Values(EraseFirst(c, k), k') == Values(c, k')
    ensures Others(EraseFirst(c, k), k) == Others(c, k)
  {
    var i := FirstIndex(c, k);
    var front, rest := c[..i], c[i + 1..];
    SplitAtFirst(c, k);
    assert EraseFirst(c, k) == front + [] + rest;
    Split3(front, [c[i]], rest, k);
    Split3(front, [], rest, k);
    Split3(front, [c[i]], rest, k');
    Split3(front, [], rest, k');
  }

  // ---------------------------------------------------------------------
  // The erase loop and the sort that makes it complete

  /**
   * On a container sorted by key up to p, with no entry from p on carrying k,
   * no entry after the run of k at its first occurrence carries k.
   */
  lemma NothingAfterRun(c: seq<Entry>, k: string, p: nat)
    requires SortedUpTo(c, p)
    requires forall m :: p <= m < |c| ==> c[m].key != k
    ensures var i := FirstIndex(c, k); !HasKey(c[i + RunLength(c, i, k)..], k)
  {
    var i := FirstIndex(c, k);
    var n := RunLength(c, i, k);
    var rest := c[i + n..];
    forall m | 0 <= m < |rest| ensures rest[m].key != k {
      var a := i + n + m;
      assert rest[m] == c[a];
      if a < p {
        // n > 0: entry i carries k, entry i + n does not, and the keys from i on rise
        var b := c[i + n].key;
        assert LessEq(k, b) && k != b;
        assert LessEq(b, c[a].key);
        LessEqTransitive(k, b, c[a].key);
        LessIrreflexive(k);
      }
    }
  }

  /**
   * When the container is sorted by key up to p and no entry from p on
   * carries k, the erase loop started at the first entry carrying k removes
   * every entry carrying k, and nothing else.
   */
  lemma EraseRunRemovesAll(c: seq<Entry>, k: string, p: nat)
    requires SortedUpTo(c, p)
    requires forall m :: p <= m < |c| ==> c[m].key != k
    ensures EraseRun(c, k) == Others(c, k)
  {
    var i := FirstIndex(c, k);
    var n := RunLength(c, i, k);
    NothingAfterRun(c, k, p);
    CutRunOthers(c, i, n, k);
  }

  /** Removing the entries carrying k from three pieces of which only the middle one carries k. */
  lemma OthersOfPieces(a: seq<Entry>, x: seq<Entry>, b: seq<Entry>, k: string)
    requires Others(a, k) == a && Others(x, k) == [] && Others(b, k) == b
    ensures Others(a + x + b, k) == a + b
  {
    Split3(a, x, b, k);
  }

  lemma CutInThree(c: seq<Entry>, i: nat, n: nat)
    requires i + n <= |c|
    ensures c == c[..i] + c[i..i + n] + c[i + n..]
  {
  }

  /** Cutting out a run of k preceded and followed by no k leaves exactly the entries not carrying k. */
  lemma CutRunOthers(c: seq<Entry>, i: nat, n: nat, k: string)
    requires i + n <= |c|
    requires forall j :: 0 <= j < i ==> c[j].key != k
    requires forall m :: i <= m < i + n ==> c[m].key == k
    requires !HasKey(c[i + n..], k)
    ensures Others(c, k) == c[..i] + c[i + n..]
  {
    var a, x, b := c[..i], c[i..i + n], c[i + n..];
    assert Others(a, k) == a by {
      assert !HasKey(a, k);
      AbsentKey(a, k);
    }
    assert Others(x, k) == [] by {
      OnlyKey(x, k);
    }
    AbsentKey(b, k);
    OthersOfPieces(a, x, b, k);
    CutInThree(c, i, n);
  }

  lemma EraseRunOnSorted(c: seq<Entry>, k: string)
    requires SortedByKey(c)
    ensures EraseRun(c, k) == Others(c, k)
  {
    EraseRunRemovesAll(c, k, |c|);
  }

  /**
   * Without the sort the erase loop stops at the first entry with another key
   * and leaves later entries carrying k in place.
   */
  lemma EraseRunNeedsSort()
    ensures var c := [Entry("Exif.Image.Artist", "a"), Entry("Exif.Image.Make", "m"), Entry("Exif.Image.Artist", "b")];
      HasKey(EraseRun(c, "Exif.Image.Artist"), "Exif.Image.Artist")
  {
    var c := [Entry("Exif.Image.Artist", "a"), Entry("Exif.Image.Make", "m"), Entry("Exif.Image.Artist", "b")];
    var k := "Exif.Image.Artist";
    assert FirstIndex(c, k) == 0;
    assert c[1].key != k;
    assert RunLength(c, 0, k) == 1;
    assert EraseRun(c, k)[1] == c[2];
  }

  lemma {:induction false} InsertByKeyPermutes(e: Entry, c: seq<Entry>)
    ensures multiset(InsertByKey(e, c)) == multiset(c) + multiset{e}
  {
    if c != [] && !LessEq(e.key, c[0].key) {
      InsertByKeyPermutes(e, c[1..]);
      assert c == [c[0]] + c[1..];
    }
  }

  lemma SortedTail(c: seq<Entry>)
    requires SortedByKey(c) && c != []
    ensures SortedByKey(c[1..])
  {
  }

  lemma SortedCons(x: Entry, s: seq<Entry>)
    requires SortedByKey(s)
    requires forall m :: 0 <= m < |s| ==> LessEq(x.key, s[m].key)
    ensures SortedByKey([x] + s)
  {
  }

  /** The stand-in sort yields a key-sorted permutation of its input. */
  lemma {:induction false} InsertByKeySorted(e: Entry, c: seq<Entry>)
    requires SortedByKey(c)
    ensures SortedByKey(InsertByKey(e, c))
    ensures multiset(InsertByKey(e, c)) == multiset(c) + multiset{e}
  {
    InsertByKeyPermutes(e, c);
    if c == [] || LessEq(e.key, c[0].key) {
      forall m | 0 <= m < |c| ensures LessEq(e.key, c[m].key) {
        if m > 0 {
          LessEqTransitive(e.key, c[0].key, c[m].key);
        }
      }
      SortedCons(e, c);
    } else {
      var t := c[1..];
      SortedTail(c);
      InsertByKeySorted(e, t);
      var s := InsertByKey(e, t);
      LessTotal(e.key, c[0].key);
      forall m | 0 <= m < |s| ensures LessEq(c[0].key, s[m].key) {
        var x := s[m];
        assert x in multiset(s);
        if x != e {
          assert x in multiset(t);
          var j :| 0 <= j < |t| && t[j] == x;
          assert c[j + 1] == x;
        }
      }
      SortedCons(c[0], s);
    }
  }

  lemma {:induction false} SortByKeySorted(c: seq<Entry>)
    ensures SortedByKey(SortByKey(c))
    ensures multiset(SortByKey(c)) == multiset(c)
  {
    if c != [] {
      SortByKeySorted(c[1..]);
      InsertByKeySorted(c[0], SortByKey(c[1..]));
      assert multiset(c) == multiset(c[1..]) + multiset{c[0]} by {
        assert c == [c[0]] + c[1..];
      }
    }
  }
}
