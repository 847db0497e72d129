# Time-delta field type of the midgard dataset container

This project models `TimeDeltaField`, the duration column type of midgard's
columnar dataset. A field owns one backing time-delta array. The model covers
four parts of it:

- **Construction.** `_post_init` validates the construction arguments in a fixed order.
- **Structural mutations.** Prepend-empty, append-empty, subset and extend each
  replace the backing array with a newly built one.
- **The memo.** It is shared by every field in one top-level operation. It
  makes sure that an array referenced by several fields is copied only once.
- **Persistence.** Reading derives the field name from the stored dotted name.
  Writing is handed over to the array.

Modules:

- `Wrappers`: `Option` and `Result`. A raised exception is modelled as an `Err` value.
- `DottedNames`: splitting a dotted name at its dots and joining it back. Also
  the read-back name, which is the last component of the stored name.
- `TimeDeltaArrays`: the capability contract of the backing array, stated abstractly.
  - An array is its durations along the observation axis (integer
    microseconds), its rank `ndim`, and an explicit identity handle.
  - Insert is the splice `a[..pos] + b + a[pos..]`.
  - Subset is the selection `seq(|idx|, i => a[idx[i]])`.
  - The memo is a `map<Key, Array>`. A key is either an array identity or a
    stored field name, because the source's dictionary is keyed both ways.
- `TimeDeltaFields`: the field itself, its error cases, the four mutations, read and write.

Assumptions about the array class and the `FieldType` base class:

- **Memo-threaded insert.** If either operand's identity is already in the
  memo, the recorded copy is reused. Otherwise the splice is built as a new
  array and recorded under both operands' identities.
- **Memo-threaded subset.** If the array's identity is in the memo, the
  recorded copy is reused. Otherwise an out-of-range position fails, and a
  successful selection is recorded under the array's identity.
- **Array reader.** Reading a group that is not memoised builds a new array,
  with a new identity, from the durations and rank the writer stored.
- **`num_obs` after a mutation.** It becomes the length of the new data. This
  is the bookkeeping of the `FieldType` base class.

The properties are proved only under these assumptions.

Error cases:

- Extend raises `ValueError` when the two ranks differ. The message names the
  other field's rank first.
- A `unit` given for a time-delta field raises an initialization error.

## Model

| member | source | states |
|---|---|---|
| `TimeDeltaFields.Init` | midgard/data/fieldtypes/time_delta.py:18-49 | Construction succeeds exactly when (1) the value is already an array, or a scale and a format are both given, (2) no unit is given and (3) the length equals `num_obs`. A raw value without a scale fails naming `'scale'`, even when the format is missing too. A raw value with a scale but no format fails naming `'fmt'`. A given unit fails naming `'unit'`. A wrong length fails with both lengths. On success the unit is `None`, `num_obs` equals the data length, and the data is exactly the validated array. |
| `TimeDeltaFields.InitArrayIgnoresConfiguration` | midgard/data/fieldtypes/time_delta.py:20-21 | A value that is already an array gives the same outcome with any configuration, including none. |
| `TimeDeltaFields.PrependEmpty` | midgard/data/fieldtypes/time_delta.py:62-66 | The empty array's identity never remains in the memo. Other entries are unchanged, except the entry for the field's own array. No other key is added. When neither array is memoised, the data becomes `n` zeros followed by the old observations in order, and `num_obs` grows by `n`. When the field's array is memoised, the recorded copy is reused and the memo comes back unchanged apart from losing the empty array's identity. |
| `TimeDeltaFields.AppendEmpty` | midgard/data/fieldtypes/time_delta.py:68-72 | The same memo guarantees as prepend, including an unchanged memo, apart from the empty array's identity, when the field's array is memoised. When neither array is memoised, the data becomes the old observations followed by `n` zeros, and `num_obs` grows by `n`. |
| `TimeDeltaFields.EmptyIdentityNotReused` | midgard/data/fieldtypes/time_delta.py:62-66 | After prepend-empty, take a later insert whose target array is not memoised and whose source array reuses the throwaway array's identity. That insert builds a new splice. It does not return a stale memo entry. |
| `TimeDeltaFields.PrependEmptyExample` | midgard/data/fieldtypes/time_delta.py:62-65 | Prepending one empty observation to durations 0 s, 10 s and 20 s gives 0 s, 0 s, 10 s and 20 s, with four observations. |
| `TimeDeltaFields.Subset` | midgard/data/fieldtypes/time_delta.py:74-75 | When the array is not memoised, subset fails exactly when some position is out of range. The error names such a position and the array length. Otherwise the result has `\|idx\|` observations, observation `i` is the old observation at `idx[i]`, and the memo records the result under the old array's identity. A memoised array is reused and the memo is not touched. |
| `TimeDeltaFields.SubsetRoundTrip` | midgard/data/fieldtypes/time_delta.py:74-75 | Subsetting by a reordering of all positions, then by its inverse, restores the original observations and count. This holds when neither the field's array nor the first result's identity is memoised. A memoised copy would be reused instead. |
| `TimeDeltaFields.Extend` | midgard/data/fieldtypes/time_delta.py:77-84 | Extend fails exactly when the two ranks differ. The error names the field and both ranks, the other field's rank first, and there is no partial mutation. When neither array is memoised, the data becomes this field's observations followed by the other field's. `num_obs` becomes the sum of both counts. The memo records the result under both identities. When either array is already memoised, the memo comes back unchanged, and a memoised copy of this field's array is reused. |
| `TimeDeltaFields.Read` | midgard/data/fieldtypes/time_delta.py:86-94 | An array memoised under the stored name is reused and the group's contents are ignored. Otherwise the field holds a new array with the stored durations and rank. The field's `num_obs` is the array's length and its unit is `None`. Its name is the last dotted component of the stored name. By `DottedNames.ReadName` it has no dot, and it is either the whole stored name or follows the stored name's last dot. |
| `TimeDeltaFields.Write` | midgard/data/fieldtypes/time_delta.py:96-98 | Writing hands exactly the field's own array to the array's writer: same identity, durations and rank. |
| `TimeDeltaFields.WriteReadBareName` | midgard/data/fieldtypes/time_delta.py:86-98 | Take a valid field whose unit is `None` and whose name has no dot, stored under that bare name. Writing it and reading it back with nothing memoised under that name gives the same field, except that its array has the reader's new identity. |
| `TimeDeltaFields.ReadSharesMemoisedArray` | midgard/data/fieldtypes/time_delta.py:89-94 | Two groups stored under one memoised name read back as identical fields sharing the memoised array, whatever they store. |
| `TimeDeltaFields.WriteReadRoundTrip` | midgard/data/fieldtypes/time_delta.py:86-98 | Take a valid field whose unit is `None` and whose name has no dot, stored under `prefix.name`. Writing it and reading it back with nothing memoised under that name gives the same field, except that its array has the reader's new identity. |
| `DottedNames.SplitDots` | midgard/data/fieldtypes/time_delta.py:94 | Splitting at dots always gives at least one component, and no component contains a dot. |
| `DottedNames.JoinSplit` | midgard/data/fieldtypes/time_delta.py:94 | Joining the components of a split with dots gives back the original name. |
| `DottedNames.SplitJoin` | midgard/data/fieldtypes/time_delta.py:94 | Splitting a dot-joined list of dot-free components gives back the list. |
| `DottedNames.ReadName` | midgard/data/fieldtypes/time_delta.py:94 | The last component has no dot and ends the stored name. It is either the whole name or comes right after the name's last dot. |
| `DottedNames.ReadNameOfQualified` | midgard/data/fieldtypes/time_delta.py:94 | The leaf of `prefix.leaf` is `leaf`. A dot-free name is its own leaf. |
| `TimeDeltaArrays.FirstOutOfRange` | midgard/data/fieldtypes/time_delta.py:75 | There is no out-of-range position exactly when every position is below the length. A reported position occurs in the index list and is at least the length. |
| `TimeDeltaArrays.SpliceEnds` | midgard/data/fieldtypes/time_delta.py:84 | Inserting at position `0` prepends. Inserting at the length appends. |
| `TimeDeltaArrays.SelectRoundTrip` | midgard/data/fieldtypes/time_delta.py:75 | Selecting by a reordering and then by its inverse restores the original values. |

## Left out

- `plot_values` (time_delta.py:51-60): it converts to `datetime.timedelta` values and looks up array attributes by name, so it is presentation only.
- Internals of the time-delta array class: scale and format conversion, floating-point storage and the HDF5 reader and writer. The `TimeDelta` factory is modelled as always building an array with the given durations and a new identity. Its own errors, for example an unknown scale or format, are not modelled. Configuration values other than the presence of `scale` and `fmt` are not modelled.
- The identity-keyed "write a shared array once" behaviour belongs to the array's writer and is not modelled.
- Subset positions are natural numbers. numpy's negative positions and boolean masks are not modelled.
- The plugin registry (`@plugins.register`) and the `FieldType` base class are not part of this model. They supply `num_obs`, `name` and `unit`, and they update `num_obs` after a mutation.
- Object identity (`id(...)`) is an explicit handle. Python guarantees that two live objects have different identities. The model states this where it is needed, as `emptyId != f.data.id`.
- Extend: when only the other field's array is memoised, the contract does not say which copy is reused. The reuse rule for that case is an assumption about the array class, not a promise of the field code.
