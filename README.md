# hprof2db in Dafny

hprof2db converts a Java heap dump in the HPROF format into an SQLite
database. It makes two passes over the records. The first pass
(`map_ids`) gives every class and every name string a small surrogate
number. The second pass (`parse_records`) writes one row per header, name,
class, field, instance, field reference, object array, array item and
primitive array. A companion script, `track_roots.py`, reads that database:
starting from the instances of a class, it counts which classes refer to
them, then which classes refer to those, level by level.

This project models both programs and proves what they promise:

- `IdMapping`: the first pass. It covers `ensure_id`, `insert_id` and
  `map_ids`. A class id that recurs keeps its number, and class numbers
  run densely from 1. A name id that recurs takes a fresh number, which
  can collide with a later name.
- `TypeTags`: the type codes of the `field` and `primitive_array` tables.
  It also covers field-value decoding and `field_value_tuple`.
- `Text`: UTF-8 and UTF-16 decoding with their round trips, and
  `primitive_array_text`.
- `Loader`: the second pass as functions over a `Store`. A `Store` holds
  the class table, the two row-id counters and the log of inserted rows.
  An `unwrap` or map lookup that panics, and an error propagated with `?`,
  become `Err` values.
- `Conversion`: the second pass as the source writes it. `Context` is a
  class whose methods update its fields step by step. Each method is
  proved equal to the `Loader` function it implements.
- `LoaderFacts` and `Integrity`: what the second pass does to the tables:
  - which rows each record writes, and when a record aborts;
  - how a class row depends on the order of its two observations;
  - how many bytes the walk over an instance's fields consumes;
  - that every object surrogate and field id a committed row refers to
    names a row that exists.
- `InstanceFields`: the exact `field_value` rows of an instance. They are
  defined from the offset of each field in the raw field bytes, and proved
  equal to what the cursor-walking loop of `process_instance` writes.
- `TrackRoots`: `report`, the pruning of big groups, `get_refs` and the
  `run` loop. The counts are sorted in place in an array, by insertion
  sort.

The model follows the code, including these behaviours:

- A class whose definition comes before its `LoadClass` record gets the
  surrogate `len + 1` of the second pass's own class table. Its name id
  is `-1`, and the load writes a second class row with that `-1` name
  (`LoaderFacts.DefinitionThenLoad`, `LoaderFacts.ClassRowDependsOnOrder`).
  The load fills in a name only when the name id is `0`, which never
  happens.
- A class defined twice appends a second run of field ids to the first
  (`LoaderFacts.RedefinitionAppendsFieldIds`).
- `insert_id` numbers a name by the size of the map. So a name id that
  occurs twice makes two names share a surrogate
  (`IdMapping.RepeatedNameCollides`).
- `field_value.obj_id` and `obj_array_item.obj_id` hold native HPROF ids,
  not surrogates.

## Model

| member | source | states |
|---|---|---|
| IdMapping.EnsuredFacts | src/main.rs:76-80 | `ensure_id` adds the id when it is missing, numbered one past the map's size, and leaves every existing entry unchanged |
| IdMapping.InsertedFacts | src/main.rs:82-84 | `insert_id` always renumbers the id to one past the map's size and keeps the other entries; on a new id it agrees with `ensure_id` |
| IdMapping.IdMap.EnsureId | src/main.rs:76-80 | the map after the call is the map `ensure_id` produces from the old one |
| IdMapping.IdMap.InsertId | src/main.rs:82-84 | the map after the call is the map `insert_id` produces from the old one |
| IdMapping.EnsureAllNumbersFirstOccurrences | src/main.rs:76-80 | after `ensure_id` over a stream, the ids are numbered 1, 2, … in the order of their first occurrence |
| IdMapping.EnsureAllDense | src/main.rs:115-152 | the class map numbers exactly the ids of the stream, bijectively onto 1..n |
| IdMapping.InsertAllDistinct | src/main.rs:82-84 | over a stream without repeats, `insert_id` builds the same map as `ensure_id`, one entry per id |
| IdMapping.InsertAllDistinctDense | src/main.rs:115-152 | with distinct name ids, the name map is numbered bijectively onto 1..n |
| IdMapping.RepeatedNameCollides | src/main.rs:82-84 | for the name stream a, b, a, c the names a and c get the same surrogate, so the name map is neither injective nor dense |
| IdMapping.EnsureSegmentClassIds | src/main.rs:126-137 | the sub-record loop of a segment leaves the class map equal to `ensure_id` over the class ids seen so far followed by the segment's |
| IdMapping.MapRecord | src/main.rs:124-147 | one record extends the class map by its class ids and the name map by its Utf8 id, and by nothing else |
| IdMapping.NotDenseStaysNotDense | src/main.rs:82-84 | once the name map is not numbered bijectively onto 1..n, a further `insert_id` never makes it so |
| IdMapping.RepeatBreaksDensity | src/main.rs:82-84 | a name stream with any repeated id leaves the name map not numbered bijectively onto 1..n |
| IdMapping.InsertAllDenseIffDistinct | src/main.rs:82-84 | the name map is numbered bijectively onto 1..n exactly when no name id repeats |
| IdMapping.MapIds | src/main.rs:115-152 | the two maps are the folds of `ensure_id` and `insert_id` over the class and name streams; the class map is dense over exactly the class ids; the name map is dense if and only if no name id repeats |
| Hprof.IdBytes | src/main.rs:182-185 | the header's identifier width is 4 or 8 bytes |
| TypeTags.FieldTypeId | src/main.rs:358-370 | the `field.type_id` code identifies the field type (the code decodes back to the type) |
| TypeTags.PrimitiveArrayTypeId | src/main.rs:386-397 | an array's element code equals the field code of the same primitive type and is never the reference code |
| TypeTags.FieldWidth | src/main.rs:339-342 | every field value takes at least one byte of the instance's field bytes |
| TypeTags.ParseValue | src/main.rs:339-343 | decoding succeeds exactly when enough bytes remain; the value has the field's type, the cursor advances by exactly the field width, and the value lies in its Java range |
| TypeTags.DecodedValueInRange | src/main.rs:339-342 | every decoded value lies in the range of its Java type |
| TypeTags.FieldValueTuple | src/main.rs:372-384 | float and double fill only the float slot, with their own bits; integral types fill only the integer slot with their own value (booleans as 1 or 0), within the i64 range; a non-null reference fills only the object slot with its own id |
| TypeTags.AtMostOneSlot | src/main.rs:372-384 | at most one of the three slots is filled, and a null reference fills none |
| Text.DecodeUtf8Valid | src/main.rs:420-423 | the UTF-8 decoder accepts exactly the byte strings of the UTF-8 grammar |
| Text.DecodeUtf8ThenEncode | src/main.rs:420-421 | a decoded text encodes back to exactly the bytes it came from |
| Text.EncodeUtf8ThenDecode | src/main.rs:420-421 | every text decodes back from its own UTF-8 encoding |
| Text.DecodeUtf16Valid | src/main.rs:426-427 | the UTF-16 decoder accepts exactly the unit sequences with every surrogate correctly paired |
| Text.DecodeUtf16ThenEncode | src/main.rs:426-427 | a decoded text encodes back to exactly the units it came from |
| Text.EncodeUtf16ThenDecode | src/main.rs:426-427 | every text decodes back from its own UTF-16 encoding |
| Text.PrimitiveArrayText | src/main.rs:412-432 | a byte array yields text iff it is valid UTF-8, otherwise no text; a char array yields text iff it is valid UTF-16 and aborts otherwise; any text encodes back to the array; other arrays yield no text |
| Conversion.Context.NextInstanceId | src/main.rs:96-102 | one `hprof_obj_id` row is written, and the returned surrogate is the new counter value |
| Conversion.Context.InsertClass | src/main.rs:105-113 | writes the class row with the superclass mapped through the first pass's class table; aborts, writing nothing, when the superclass is missing |
| Conversion.Context.LoadClass | src/main.rs:207-231 | the new state and the abort are those of the `LoadClass` arm's specification |
| Conversion.Context.RegisterClassInfo | src/main.rs:291-310 | the class entry is created or updated and its row written, as the first half of `process_class` specifies |
| Conversion.Context.AddFields | src/main.rs:311-325 | aborts exactly when a field name is missing from the name table; otherwise appends one `field` row per descriptor, and the new field ids |
| Conversion.Context.ProcessClass | src/main.rs:290-326 | the new state and the abort are those of `process_class`'s specification |
| Conversion.Context.InsertFieldValue | src/main.rs:345-350 | writes a `field_value` row exactly for a non-null reference, and aborts when its id does not fit in i64 or the field has no id |
| Conversion.Context.ReadField | src/main.rs:339-350 | decodes one field at the cursor and writes its row as the field step specifies, returning the rest of the cursor |
| Conversion.Context.DecodeClassFields | src/main.rs:338-352 | the loop over one class's fields writes the rows and leaves the cursor that the field fold specifies |
| Conversion.Context.WalkFields | src/main.rs:334-354 | the superclass walk writes exactly the rows of the walk's specification, or aborts with its error |
| Conversion.Context.ProcessInstance | src/main.rs:328-356 | the new state and the abort are those of `process_instance`'s specification |
| Conversion.Context.ObjectArray | src/main.rs:259-274 | the new state and the abort are those of the ObjectArray arm's specification |
| Conversion.Context.PrimitiveArray | src/main.rs:275-283 | the new state and the abort are those of the PrimitiveArray arm's specification |
| Conversion.Context.ProcessSubRecord | src/main.rs:253-285 | each sub-record is dispatched to its arm; other kinds change nothing |
| Conversion.Context.ParseDumpRecords | src/main.rs:249-288 | the sub-records are processed in order; the first abort stops the segment; the returned count is the number of instance dumps |
| Conversion.Context.InsertName | src/main.rs:233-239 | a Utf8 record writes one `name` row holding its raw bytes and changes nothing else |
| Conversion.ParseRecords | src/main.rs:154-247 | the committed rows, or the reason for the abort, are exactly those of the specification `Load` |
| Loader.RecordStepsAbortIsFinal | src/main.rs:198-242 | once a record aborts, the run ends with that error whatever follows |
| LoaderFacts.ProcessClassSucceeds | src/main.rs:290-326 | a class definition goes through iff all its field names are mapped and, for a class already loaded, its superclass is mapped |
| LoaderFacts.FirstDefinition | src/main.rs:297-324 | a first definition records surrogate `len + 1`, name id -1 and no superclass; it numbers its field ids after the last `field` row and writes one `field` row per descriptor, in order, and no class row |
| LoaderFacts.RedefinitionAppendsFieldIds | src/main.rs:311-324 | defining a class twice leaves twice as many field ids as fields |
| LoaderFacts.DefinitionThenLoad | src/main.rs:209-216 | after a first definition, the load always writes exactly one class row, with name id -1 and no superclass |
| LoaderFacts.LoadThenDefinition | src/main.rs:217-229 | a first load writes nothing and records the first pass's surrogate and name; the definition then writes one class row with the mapped superclass, then its field rows |
| LoaderFacts.ClassRowDependsOnOrder | src/main.rs:207-231 | the class row's name id is -1 when the definition comes first and the class's name surrogate (at least 1) when the load comes first |
| LoaderFacts.DecodeFieldsFacts | src/main.rs:338-352 | decoding one class's fields consumes exactly the sum of their widths and writes at most one row per reference field, keyed by that field's id |
| LoaderFacts.DecodeWalkWidth | src/main.rs:334-354 | a successful walk follows an acyclic superclass chain to a root and consumes exactly the field widths along it |
| LoaderFacts.DecodeWalkRows | src/main.rs:334-354 | the walk writes only `field_value` rows of this instance, at most one per reference field along the chain |
| LoaderFacts.InstanceRows | src/main.rs:328-356 | an instance goes through only when its class chain is defined and its bytes cover the fields; it writes the surrogate row, the instance row and then only its own `field_value` rows |
| InstanceFields.FieldStepExact | src/main.rs:339-351 | one field decoded at the cursor goes through iff its bytes are there and, for a non-null reference, the id fits i64 and the class has a field id at that index; it writes a row exactly for a non-null reference, holding the decoded id |
| InstanceFields.DecodeFieldsExact | src/main.rs:338-352 | one class's field loop goes through iff all its fields are decodable, writes exactly one row per non-null reference field in declaration order, keyed by that field's id and holding the id decoded at the field's offset, and leaves the bytes after the last field |
| InstanceFields.DecodeWalkExact | src/main.rs:334-354 | the walk goes through iff the superclass chain is defined and acyclic and each class is decodable from the bytes its predecessors leave; its rows are those of the own class, then of each superclass in turn |
| InstanceFields.InstanceStepExact | src/main.rs:328-356 | an instance goes through iff its class is defined, its chain is acyclic and its field bytes are decodable along the chain; it writes exactly the surrogate row, the instance row and the chain's reference rows |
| LoaderFacts.ObjectArrayRows | src/main.rs:259-274 | the arm goes through iff the array class is defined; it writes the surrogate row, the array row with its length, and one item row per element, in order |
| LoaderFacts.PrimitiveArrayRows | src/main.rs:275-283 | the arm aborts exactly on a char array that is not valid UTF-16; otherwise it writes the surrogate row and one array row with the type code, length and text |
| Integrity.RecordStepsKeepConsistent | src/main.rs:198-242 | every record keeps the counters equal to the rows of their tables and every reference within them, and only appends rows |
| Integrity.LoadKeepsReferences | src/main.rs:154-247 | a committed run starts with the header row, and every object or field surrogate a row uses names a row that exists |
| TrackRoots.TallyFacts | scripts/track_roots.py:156 | the counter has one entry per distinct pair; the pairs are exactly those present; each count is the pair's number of occurrences (at least 1); the counts add up to the number of instances |
| TrackRoots.SortByCountDescending | scripts/track_roots.py:162 | the array ends up ordered by non-increasing count and is a permutation of what it held |
| TrackRoots.Report | scripts/track_roots.py:155-169 | the items are a permutation of the tally of class pairs, ordered by non-increasing count; an item is marked iff its count reaches the limit |
| TrackRoots.ReportLines | scripts/track_roots.py:156-161 | each reported pair occurs once, the pairs are exactly those of the instances, each count is the pair's occurrences, and the counts sum to the instances |
| TrackRoots.PruneKeeps | scripts/track_roots.py:184-186 | pruning keeps, in order, exactly the instances whose pair is not big |
| TrackRoots.KeptAreBelowLimit | scripts/track_roots.py:183-186 | every kept instance's pair occurs fewer than `limit` times |
| TrackRoots.BelowLimitNotBig | scripts/track_roots.py:183 | a pair occurring fewer than `limit` times is not big |
| TrackRoots.NotBigIsKept | scripts/track_roots.py:184-186 | an instance whose pair is not big survives pruning |
| TrackRoots.BackRefsKeys | scripts/track_roots.py:49-51 | the back-reference table has exactly the instance ids as keys |
| TrackRoots.BackRefsLast | scripts/track_roots.py:49-51 | a repeated instance id maps to the class name of its last occurrence |
| TrackRoots.GetRefsArray | scripts/track_roots.py:53-55 | each array hit becomes a ref labelled with the class name of the instance it refers to |
| TrackRoots.GetRefsField | scripts/track_roots.py:77-80 | each field hit becomes a ref with no array length, labelled with the class name of the instance it refers to |
| TrackRoots.GetRefs | scripts/track_roots.py:84-87 | the refs are the array refs followed by the field refs |
| TrackRoots.GetRefsMeaning | scripts/track_roots.py:35-87 | one ref per hit, in order, keeping the hit's class, instance and array length, and labelled by the last instance with the referred id |
| TrackRoots.Run | scripts/track_roots.py:172-188 | `run` reports max(depth_max, 0) + 1 levels: the first level is the starters, and each later level is the references to the pruned previous level |

## Left out

- `main`, `now`, `build_schema`, the schema and index SQL files, and the
  final `vacuum`: these are process set-up and SQL text, with no logic of
  their own.
- The memory map, `parse_hprof` and record framing. These belong to the
  `jvm_hprof` library. Records arrive as decoded values, and a record that
  fails to decode is not modelled.
- SQLite: every insert is a row appended to a log. `last_insert_rowid` on
  the fresh `hprof_obj_id` and `field` tables is a counter.
  `Integrity.RecordStepsKeepConsistent` justifies reading it that way: it
  keeps each counter equal to the number of rows of its table. An insert
  fails only where a bound id is out of the i64 range, as the next lines
  say; any other database error is not modelled.
- The transaction: an aborted run is an `Err` and commits nothing; the
  rows written before the abort are not kept.
- The `println!` of the instance count.
- Floating-point values are kept as opaque bit patterns. Nothing is stated
  about their conversion to `f64`.
- `primitive_array_length` is the element count of the decoded array; the
  library's element iterators are not modelled.
- Integer widths: surrogates, counters and `len() + 1` are unbounded
  integers. The i64 conversions of `ensure_id`, `insert_id` and
  `process_class` cannot fail below 2^63 entries. An object id above the
  i64 range in `field_value_tuple` is modelled as an abort. Two more
  bindings of a raw u64 id can fail the same way; the model does not
  capture them, as the next two lines say.
- Loader.NextInstance: `next_instance_id` (src/main.rs:96-99) binds the
  raw u64 object id of an instance, an object array or a primitive array.
  An id above 2^63 - 1 makes the SQLite binding fail, `execute` returns an
  error, and the run aborts with nothing committed. The model accepts
  every id and writes the `hprof_obj_id` row. The same holds for
  `Conversion.Context.NextInstanceId` and for the instance and array steps
  that call it.
- Loader.ItemRows: an object-array element id (src/main.rs:268-272) is
  bound as a raw u64 too. An element id above 2^63 - 1 makes that insert
  fail and the run abort. The model writes the `obj_array_item` row for
  every id.
- A superclass cycle: the source's walk goes round the cycle until the
  field bytes run out and `parse_value(...).unwrap()` panics, or, when no
  class on the cycle has fields, loops forever. The model stops at the
  first class met twice with the error `SuperCycle`, or with `Panic` when
  the bytes ran out before that. Either way the run commits nothing.
- Bytes are integers 0..255 and UTF-16 units are integers 0..65535.
- In `track_roots.py`: `get_starters` and the two SQL queries of
  `get_refs_array`/`get_refs_field` become input functions, since they are
  database reads. The depth line and the report lines are printed text
  and are not modelled. `.decode("utf-8")` of class names is not modelled
  either; names are strings. So are argument parsing and the commented-out
  `get_roots`.
- TrackRoots.SortByCountDescending: does not state that items with equal
  counts keep their relative order, as Python's stable `sort` does; the
  insertion sort only moves an item past strictly smaller counts, but the
  contract states only the order by count and the permutation.
- TrackRoots.Report: does not state that items with equal counts keep the
  counter's first-occurrence order, as Python's stable sort does. The
  model sorts by count only.
- The Python dictionaries that `get_refs_array` and `get_refs_field`
  update in place are modelled as values.
