# exiv2node tag-editing rules, in Dafny

This project models the rules that the Node.js binding `exiv2node` applies when a
script reads, assigns or deletes image metadata tags. Parsing and writing Exif,
IPTC and XMP happens inside the Exiv2 library and is not modelled. Each of the
three metadata containers (ExifData, IptcData, XmpData) is modelled as an
ordered sequence of `(key, value)` entries, and the binding's `tag_map_t`
(`std::map<std::string, std::list<std::string>>`) as a key-ordered map from a
key to its list of values.

Modules:

- `Optional` (optional.dfy): the `Option` datatype for absent results and the
  JavaScript `null` slots.
- `Keys` (keys.dfy): the byte-wise string order that `std::map` and `sortByKey` use,
  and the family test `key.compare(0, n, prefix) == 0` (`CompareHead`, `Classify`).
- `Entries` (entries.dfy): a container's contents as a sequence, plus the
  specification functions:
  - `Values` and `Others` give the entries of one key and the rest;
  - `ReplaceAll`, `SetFirst`, `EraseFirst` and `EraseRun` are the edits;
  - a stable insertion sort by key is the reference for `sortByKey`.
- `Containers` (container.dfy): `Container` is a class whose `entries` field
  the library calls `sortByKey`, `findKey`, `erase`, `add`, `operator[]` and
  `setValue` update in place.
- `TagMaps` (tagmap.dfy): `TagMap` is a class over a strictly key-sorted
  sequence of bindings. Its `PushBack` is `tags[key].push_back(value)`.
- `Edits` (edits.dfy): what the assignment loop and the delete loop do to one
  family's container, as folds over the tag map (`ApplyEdits`) and the key list
  (`DeleteAll`), with their properties.
- `Exiv2Node` (exiv2node.dfy): covers:
  - the three workers (`GetTagsWorker`, `SetTagsWorker`, `DeleteTagsWorker`) with their `Execute` and `HandleOKCallback`;
  - the conversion of the JavaScript tag object in `SetImageTags` and of the key array in `DeleteImageTags`;
  - the properties that relate a read to an earlier assignment.

Open and read failures are modelled by a parameter `failure: Option<string>` of
each `Execute`. When it is `Some(message)`, the worker appends the message to its
exception text and changes nothing else.

The sort in `SetTagsWorker::Execute` is specified only as "sorted by key and a
permutation". The library sorts IPTC and XMP data with an unstable sort, so
the order of equal keys after the sort is not fixed. `SetTagsWorker.Execute`
therefore returns the sorted containers as ghost results and states the final
containers in terms of them.

The IPTC branch for several values ends with an extra
`iptcData[key].setValue(val.front())` (exiv2node.cc:177). This can look like a
defect. `Entries.SetFirstAfterReplaceAll` proves that it changes nothing: after the replace, the first
entry of the key already holds the first value.

## Model

| member | source | states |
|---|---|---|
| Keys.Classify | exiv2node.cc:161-196 | a key belongs to a family exactly when it starts with that family's prefix ("Exif.", "Iptc.", "Xmp."); a key shorter than every prefix, or with another prefix, belongs to none |
| Keys.LessTotal | exiv2node.cc:19 | the key order of the tag map is total |
| Keys.LessTransitive | exiv2node.cc:19 | the key order of the tag map is transitive |
| Keys.LessEqTransitive | exiv2node.cc:151-153 | the non-strict key order used by the sort is transitive, and strict as soon as one step is strict |
| Entries.FirstIndex | exiv2node.cc:162 | the position findKey returns: the first entry carrying the key, or the end exactly when no entry carries it |
| Entries.RunLength | exiv2node.cc:163 | the number of entries the erase loop removes: every entry from the first match on carries the key, and the next one does not (or is the end) |
| Entries.ValuesAppend | exiv2node.cc:51-73 | the values of a key in a concatenation are the values in the first part, then in the second |
| Entries.ReplaceAllValues | exiv2node.cc:159-186 | after replacing a key by several values, the key's values are exactly those values in order, every other key keeps its values, and the entries of other keys are unchanged in order |
| Entries.SetFirstValues | exiv2node.cc:187-193 | a single-value set overwrites only the first entry of the key (later duplicates keep their values) or appends one new entry when there is none; other keys are unchanged |
| Entries.SetFirstIdempotent | exiv2node.cc:187-193 | applying the same single-value set twice gives the same container as once |
| Entries.SetFirstAfterReplaceAll | exiv2node.cc:169-177 | the extra setValue of the IPTC branch leaves the replaced container as it is |
| Entries.EraseFirstValues | exiv2node.cc:280-292 | deleting a present key removes one entry, the first value of that key; other keys and the order of the rest are unchanged |
| Entries.EraseRunRemovesAll | exiv2node.cc:163 | on a container sorted up to some point, with no entry of the key after it, the erase loop removes every entry of the key and nothing else |
| Entries.CutRunOthers | exiv2node.cc:163 | cutting out a run of a key with no entry of the key before or after it leaves exactly the entries of other keys, in order |
| Entries.EraseRunOnSorted | exiv2node.cc:151-163 | on a key-sorted container the erase loop removes every entry of the key and nothing else |
| Entries.EraseRunNeedsSort | exiv2node.cc:151-163 | without the sort the erase loop can leave an entry of the key behind (a concrete container) |
| Entries.SortByKeySorted | exiv2node.cc:151-153 | the reference sort yields a key-sorted permutation of the container |
| Entries.ValuesCount | exiv2node.cc:51-73 | a value occurs under a key exactly as often as the container holds an entry with that key and that value |
| Entries.SortKeepsValues | exiv2node.cc:151-153 | a permutation of the container, such as the sorted one, holds the same values under every key, counted with repetition |
| Entries.InsertByKeySorted | exiv2node.cc:151-153 | inserting one entry into a sorted container keeps it sorted and adds exactly that entry |
| Entries.InsertByKeyPermutes | exiv2node.cc:151-153 | one insertion step of the reference sort adds exactly the inserted entry |
| Entries.OthersValues | exiv2node.cc:163 | removing every entry of a key leaves no entry of it and keeps every other key's values |
| Containers.Container.SortByKey | exiv2node.cc:151-153 | sortByKey leaves the container sorted by key and a permutation of what it held |
| Containers.Container.FindKey | exiv2node.cc:162 | findKey returns the first position whose entry carries the key, or the end when none does |
| Containers.Container.Erase | exiv2node.cc:163 | erase removes exactly the entry at the position and returns the position of its successor |
| Containers.Container.Add | exiv2node.cc:167 | add appends one entry at the end |
| Containers.Container.Subscript | exiv2node.cc:189 | operator[] returns the first entry of the key when there is one, and otherwise appends an entry of the key with an empty value |
| Containers.Container.SetValue | exiv2node.cc:189 | setValue changes the value of that entry and nothing else |
| TagMaps.LookupAt | exiv2node.cc:19 | in a key-sorted map the list of a bound key is the one bound to it |
| TagMaps.LookupMissing | exiv2node.cc:19 | an unbound key has the empty list |
| TagMaps.TagMap.Bound | exiv2node.cc:19 | a key is in the map exactly when its list is non-empty |
| TagMaps.TagMap.PushBack | exiv2node.cc:55 | `tags[key].push_back(value)` appends the value to the key's list, creates the key when missing, leaves every other key's list unchanged and keeps the map key-sorted |
| TagMaps.InsertSorted | exiv2node.cc:55 | inserting a new key at its place keeps the bindings strictly sorted |
| TagMaps.InsertLookup | exiv2node.cc:55 | inserting a new key binds it to the one value and changes no other key's list |
| Edits.ApplyEditsAppend | exiv2node.cc:156 | assigning the tag map in two parts is assigning the first part, then the second |
| Edits.ForeignEditsIgnored | exiv2node.cc:161-196 | bindings whose key is not of the family leave the family's container unchanged |
| Edits.UnnamedKeyKeepsValues | exiv2node.cc:156-196 | a key the tag map does not name keeps its values in every container |
| Edits.EditsStayInFamily | exiv2node.cc:161-196 | a container holding only keys of its family still does after the assignments |
| Edits.AssignedKeyValues | exiv2node.cc:156-196 | after all the assignments, a key assigned several values has exactly those values in its family's container; one assigned a single value has it in place of its first value, or as its only value when it had none |
| Edits.SetOneValues | exiv2node.cc:187-193 | after all the assignments, a key assigned a single value has it as its first value, followed by the key's earlier values after the first |
| Edits.ApplyEditIdempotent | exiv2node.cc:159-196 | assigning the same binding twice gives the same container as once |
| Edits.HasKeyValues | exiv2node.cc:51-73 | a container holds a key exactly when that key has some value |
| Edits.ForeignDeletesIgnored | exiv2node.cc:280-295 | keys not of the family leave the family's container unchanged on delete |
| Edits.DeleteOne | exiv2node.cc:280-292 | deleting one present key removes exactly the first entry of that key, and the key loses its first value |
| Edits.DeletePrefixDefined | exiv2node.cc:280 | when the whole key list can be deleted, so can every prefix of it |
| Edits.DeleteCount | exiv2node.cc:280-292 | after the delete loop, a key of the family has lost exactly its first n values, n being the number of times the key list names it, and the list never names it more often than the container holds it; a key of another family keeps all its values |
| Edits.DeleteUnnamed | exiv2node.cc:280-292 | a key the key list does not name keeps all its values |
| Exiv2Node.Shape | exiv2node.cc:91-104 | a list with more than one value is emitted as an array and a list with one value as a string, and either way the emitted value converts back to the same list |
| Exiv2Node.ErrorArgument | exiv2node.cc:84-88 | the error argument is set exactly when the exception text is non-empty, and holds that text |
| Exiv2Node.GetTagsWorker.Execute | exiv2node.cc:45-77 | every key's list grows by its Exif values, then its IPTC values, then its XMP values, each in container order; the keys added are exactly those some entry carries; a failure appends its message and reads nothing |
| Exiv2Node.GetTagsWorker.AddEntries | exiv2node.cc:52-57 | one read loop appends each entry's value to its key's list in container order and binds exactly the keys of the container |
| Exiv2Node.EntryKeysValues | exiv2node.cc:51-73 | a key is carried by some entry exactly when it has some value, so the read binds exactly the keys present in the containers |
| Exiv2Node.GetTagsWorker.HandleOKCallback | exiv2node.cc:81-110 | an exception fills the error argument and leaves data null; otherwise an empty map leaves data null and a non-empty one yields one property per key in key order, shaped as Shape says |
| Exiv2Node.SetTagsWorker.Execute | exiv2node.cc:141-208 | the three containers are sorted (a key-sorted permutation each), then each holds the result of assigning the tag map's bindings in key order to its family; a failure appends its message and changes no container |
| Exiv2Node.SetTagsWorker.HandleOKCallback | exiv2node.cc:212-221 | the error argument is ErrorArgument of the exception text: set exactly when that text is non-empty, and holding it |
| Exiv2Node.Assign | exiv2node.cc:157-196 | one pass of the assignment loop changes each container exactly as the binding's edit for that family says, and only the family's own container |
| Exiv2Node.ReplaceAllIn | exiv2node.cc:162-168 | the erase loop and the add loop together replace every entry of the key by one entry per value, in order |
| Exiv2Node.EraseRunIn | exiv2node.cc:162-163 | the erase loop removes the run of entries of the key that starts at the first one |
| Exiv2Node.RunLengthIs | exiv2node.cc:163 | the erase loop stops exactly at the end of the run: a run of the key followed by the end or another key is the whole run |
| Exiv2Node.AddAll | exiv2node.cc:164-168 | the add loop appends one entry per value in order |
| Exiv2Node.AssignFirst | exiv2node.cc:189 | `data[key].setValue(v)` overwrites the first entry of the key, or appends one when there is none |
| Exiv2Node.LayoutAfterEraseRun | exiv2node.cc:163 | erasing the run of a key not yet assigned keeps the sorted part sorted and the tail made of assigned keys |
| Exiv2Node.LayoutAfterSetFirst | exiv2node.cc:189-193 | a single-value set keeps the sorted part sorted and puts any new entry in the tail |
| Exiv2Node.DeleteTagsWorker.Execute | exiv2node.cc:269-306 | each key with a family prefix removes the first entry of that key from its family's container, in key-list order; other keys are skipped; a failure appends its message and changes nothing |
| Exiv2Node.DeleteTagsWorker.HandleOKCallback | exiv2node.cc:310-321 | the error argument is ErrorArgument of the exception text: set exactly when that text is non-empty, and holding it |
| Exiv2Node.DeleteImageTags | exiv2node.cc:336-340 | the worker's key list is the key array, in order |
| Exiv2Node.EraseFirstIn | exiv2node.cc:282-284 | `erase(findKey(key))` on a present key removes the first entry of the key |
| Exiv2Node.SetImageTags | exiv2node.cc:240-250 | each key's list is the values of the properties of that name in property order (an array gives its elements, anything else one value), and a key is bound exactly when that list is non-empty, so an empty array binds nothing |
| Exiv2Node.PushAll | exiv2node.cc:243-246 | the array branch appends the elements to the key's list in order and leaves every other key's list unchanged |
| Exiv2Node.EmitThenCollect | exiv2node.cc:91-104 | converting the object the read callback emits, as setImageTags does, gives back the tag map's list for every key |
| Exiv2Node.CollectedOfObject | exiv2node.cc:240-250 | for an object whose property names are unique, a key's list is its property's value converted |
| Exiv2Node.NameAbsent | exiv2node.cc:240-250 | a name no property carries gets the empty list |
| Exiv2Node.SingletonArrayIsScalar | exiv2node.cc:243-248 | a one-element array is converted exactly as the string it holds, so the assignment treats it as a single value |
| Exiv2Node.ForeignKeyAbsent | exiv2node.cc:161-196 | a container holding only keys of its family holds no values for a key of another family |
| Exiv2Node.FamilyAggregate | exiv2node.cc:51-73 | when each container holds only its own family's keys, the list read for a key of a family is its values in that family's container alone |
| Exiv2Node.ReadAfterWrite | exiv2node.cc:51-73 | reading after assigning several values to a key of a known family yields exactly those values in order, however many entries the key had before |
| Exiv2Node.ReadAfterSetOne | exiv2node.cc:51-73 | reading after assigning one value to a key of a known family yields that value first, followed by the values after the first that the key had after the sort |
| Exiv2Node.ReadUnassigned | exiv2node.cc:51-73 | reading after assigning yields, for every key the tag map does not name, the list read from the containers as they were after the sort |
| Exiv2Node.ReadUnassignedUnsorted | exiv2node.cc:51-73 | against the containers as they were before the sort: a key the tag map does not name reads back the same values, counted with repetition (the sort may reorder duplicates) |

## Left out

- Opening the image, `readMetadata`, `setExifData`/`setIptcData`/`setXmpData` and `writeMetadata` are file I/O in the library. A failure of open or read is the `failure` parameter. The write is not modelled, so the containers after `SetTagsWorker.Execute` and `DeleteTagsWorker.Execute` are the state the binding would write.
- Value typing and conversion (`value().toString()`, `AsciiValue::read`, the type coercion in `setValue`) are library code. Values are opaque strings.
- Key canonicalisation by the `ExifKey`, `IptcKey` and `XmpKey` constructors, and the exceptions they throw for malformed keys in the middle of a loop, are library code. Keys are taken to be canonical and are compared as plain strings.
- Exiv2Node.DeleteTagsWorker.Execute: requires every key of a family to be present in its container at its turn. `erase(findKey(k))` on an absent key erases at the end position, and what that does is up to the library.
- The library bodies of `sortByKey`, `findKey`, `erase`, `add`, `operator[]` and `setValue` are not part of this model. `Containers.Container` implements them with the behaviour its contracts state, and `SortByKey` uses a stable insertion sort that stands for any sort by key.
- The `std::map` of the tag map is a sorted sequence searched linearly. Only its contents and iteration order are modelled, not the tree or its cost.
- V8 and NAN marshaling are not modelled: argument-count checks, `NanUtf8String`, the cut of a string at an embedded NUL by `c_str()`, property enumeration and callback invocation. `SetImageTags` takes the object as a sequence of properties in enumeration order, and a non-array value as the string it converts to.
- Threading of `NanAsyncWorker` is not modelled: the split of `Execute` and `HandleOKCallback` across threads.
- Preview extraction (`GetPreviewsWorker`, `GetImagePreviews`, exiv2node.cc:348-446) is library code plus a buffer copy, outside the tag-editing rules.
