/**
 * One Exiv2 metadata container (ExifData, IptcData or XmpData) as an object
 * whose list of entries the library calls update in place.  The method bodies
 * stand in for library code that is not part of this model: their contracts
 * state what the tag-editing rules rely on.
 */
module Containers {
  import opened Entries

  class Container {
    var entries: seq<Entry>

    constructor (es: seq<Entry>)
      ensures entries == es
    {
      entries := es;
    }

    /**
     * sortByKey(): the entries in key order.  Only the key order and the
     * permutation are promised; which of two entries with equal keys comes
     * first is left to the library.
     */
    method SortByKey()
      modifies this
      ensures SortedByKey(entries)
      ensures multiset(entries) == old(multiset(entries))
    {
      SortByKeySorted(entries);
      entries := Entries.SortByKey(entries);
    }

    /** findKey(key): the position of the first entry carrying key, or the end. */
    method FindKey(key: string) returns (it: nat)
      ensures it <= |entries|
      ensures it < |entries| ==> entries[it].key == key
      ensures forall j :: 0 <= j < it ==> entries[j].key != key
    {
      it := 0;
      while it < |entries| && entries[it].key != key
        invariant it <= |entries|
        invariant forall j :: 0 <= j < it ==> entries[j].key != key
      {
        it := it + 1;
      }
    }

    /** erase(it): removes the entry at it and returns the position of the one after it. */
    method Erase(it: nat) returns (next: nat)
      requires it < |entries|
      modifies this
      ensures entries == old(entries[..it] + entries[it + 1..])
      ensures next == it
    {
      entries := entries[..it] + entries[it + 1..];
      next := it;
    }

    /** add(key, value): appends one entry. */
    method Add(key: string, value: string)
      modifies this
      ensures entries == old(entries) + [Entry(key, value)]
    {
      entries := entries + [Entry(key, value)];
    }

    /**
     * operator[](key): the first entry carrying key; when there is none, an
     * entry with that key and no value is appended first and that one is used.
     */
    method Subscript(key: string) returns (it: nat)
      modifies this
      ensures it < |entries| && entries[it].key == key
      ensures old(HasKey(entries, key)) ==> entries == old(entries) && it == FirstIndex(entries, key)
      ensures !old(HasKey(entries, key)) ==> entries == old(entries) + [Entry(key, "")] && it == old(|entries|)
    {
      it := FindKey(key);
      if it == |entries| {
        Add(key, "");
      }
    }

    /** setValue(v) on the entry at it: its key stays, its value becomes v. */
    method SetValue(it: nat, v: string)
      requires it < |entries|
      modifies this
      ensures entries == old(entries[it := Entry(entries[it].key, v)])
    {
      entries := entries[it := Entry(entries[it].key, v)];
    }
  }
}
