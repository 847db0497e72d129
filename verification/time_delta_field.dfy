/**
 The time-delta field type: a named column of durations inside a dataset.
 A field validates its construction arguments, replaces its backing array on
 every structural mutation (prepend-empty, append-empty, subset, extend), and
 reads and writes itself through the array's own reader and writer, sharing
 one memo per top-level operation.

 Raised exceptions are modelled as `Err` results; object identity is an
 explicit handle (`newId` for the array an operation creates, `emptyId` for
 the throwaway empty array).
 */
module TimeDeltaFields {
  import opened Wrappers
  import opened DottedNames
  import opened TimeDeltaArrays

  datatype Field = Field(name: string, numObs: nat, unit: Option<string>, data: Array)

  /** The observation count always matches the backing array. */
  predicate Valid(f: Field) {
    f.numObs == |f.data.values|
  }

  datatype Error =
    | InitializationError(param: string)
    | LengthMismatch(name: string, given: nat, expected: nat)
    | RankMismatch(name: string, otherNdim: nat, ownNdim: nat)
    | OutOfRange(index: nat, size: nat)

  /** What a field is constructed from: an existing time-delta array, or raw
      durations that the time-delta factory must convert. */
  datatype Value = ArrayValue(given: Array) | RawValue(values: seq<int>, ndim: nat)

  /** A field after a mutation, together with the memo as the operation leaves it. */
  datatype Mutation = Mutation(field: Field, memo: Memo)

  /** One stored field group: its `fieldname` attribute (the fully qualified
      dotted name) and the durations and rank the array's writer stored in it. */
  datatype Group = Group(fieldname: string, values: seq<int>, ndim: nat)

  function ValueLength(val: Value): nat {
    match val
    case ArrayValue(a) => |a.values|
    case RawValue(v, _) => |v|
  }

  /** The configuration suffices to obtain an array: an array value needs
      nothing, raw values need both a scale and a format. */
  predicate Convertible(val: Value, args: map<string, string>) {
    val.ArrayValue? || ("scale" in args && "fmt" in args)
  }

  /** Obtain the backing array: take an array as it is, otherwise demand the
      scale, then the format, and let the factory build a new array. */
  function ToArray(val: Value, args: map<string, string>, newId: Handle): Result<Array, Error> {
    match val
    case ArrayValue(a) => Ok(a)
    case RawValue(v, d) =>
      if "scale" !in args then Err(InitializationError("scale"))
      else if "fmt" !in args then Err(InitializationError("fmt"))
      else Ok(Array(newId, v, d))
  }

  /** Construction of a time-delta field from `num_obs`, `name`, an optional
      display `unit`, the value and the remaining configuration. */
  function Init(numObs: nat, name: string, unit: Option<string>, val: Value,
                args: map<string, string>, newId: Handle): (r: Result<Field, Error>)
    ensures r.Ok? <==> Convertible(val, args) && unit.None? && ValueLength(val) == numObs
    ensures r.Ok? ==> Valid(r.value) && r.value.numObs == numObs
    ensures r.Ok? ==> r.value.name == name && r.value.unit.None?
    ensures r.Ok? && val.ArrayValue? ==> r.value.data == val.given
    ensures r.Ok? && val.RawValue? ==>
      r.value.data == Array(newId, val.values, val.ndim)
    ensures val.RawValue? && "scale" !in args ==> r == Err(InitializationError("scale"))
    ensures val.RawValue? && "scale" in args && "fmt" !in args ==>
      r == Err(InitializationError("fmt"))
    ensures Convertible(val, args) && unit.Some? ==> r == Err(InitializationError("unit"))
    ensures Convertible(val, args) && unit.None? && ValueLength(val) != numObs ==>
      r == Err(LengthMismatch(name, ValueLength(val), numObs))
  {
    var data :- ToArray(val, args, newId);
    if unit.Some? then Err(InitializationError("unit"))
    else if |data.values| != numObs then Err(LengthMismatch(name, |data.values|, numObs))
    else Ok(Field(name, numObs, None, data))
  }

  /** The field with its data replaced; the observation count follows the
      new data, which is the base class's bookkeeping after each mutation. */
  function WithData(f: Field, data: Array): (g: Field)
    ensures Valid(g)
  {
    f.(data := data, numObs := |data.values|)
  }

  /** Insert `n` empty observations in front of the field. */
  function PrependEmpty(f: Field, n: nat, memo: Memo, emptyId: Handle, newId: Handle): (m: Mutation)
    requires emptyId != f.data.id
    ensures Valid(m.field)
    ensures m.field.name == f.name && m.field.unit == f.unit
    ensures Identity(emptyId) !in m.memo
    ensures forall k :: k in memo && k != Identity(emptyId) && k != Identity(f.data.id) ==>
      k in m.memo && m.memo[k] == memo[k]
    ensures forall k :: k in m.memo ==> k in memo || k == Identity(f.data.id)
    ensures Identity(f.data.id) in memo ==> m.field.data == memo[Identity(f.data.id)]
    ensures Identity(f.data.id) in memo ==> m.memo == memo - {Identity(emptyId)}
    ensures Identity(f.data.id) !in memo && Identity(emptyId) !in memo ==>
      && m.field.data == Array(newId, Zeros(n) + f.data.values, f.data.ndim)
      && m.field.numObs == |f.data.values| + n
      && Identity(f.data.id) in m.memo && m.memo[Identity(f.data.id)] == m.field.data
  {
    var empty := Array(emptyId, Zeros(n), 1);
    var step := MemoInsert(memo, f.data, 0, empty, newId);
    SpliceEnds(f.data.values, Zeros(n));
    Mutation(WithData(f, step.result), step.memo - {Identity(emptyId)})
  }

  /** Insert `n` empty observations after the last observation of the field. */
  function AppendEmpty(f: Field, n: nat, memo: Memo, emptyId: Handle, newId: Handle): (m: Mutation)
    requires Valid(f)
    requires emptyId != f.data.id
    ensures Valid(m.field)
    ensures m.field.name == f.name && m.field.unit == f.unit
    ensures Identity(emptyId) !in m.memo
    ensures forall k :: k in memo && k != Identity(emptyId) && k != Identity(f.data.id) ==>
      k in m.memo && m.memo[k] == memo[k]
    ensures forall k :: k in m.memo ==> k in memo || k == Identity(f.data.id)
    ensures Identity(f.data.id) in memo ==> m.field.data == memo[Identity(f.data.id)]
    ensures Identity(f.data.id) in memo ==> m.memo == memo - {Identity(emptyId)}
    ensures Identity(f.data.id) !in memo && Identity(emptyId) !in memo ==>
      && m.field.data == Array(newId, f.data.values + Zeros(n), f.data.ndim)
      && m.field.numObs == f.numObs + n
      && Identity(f.data.id) in m.memo && m.memo[Identity(f.data.id)] == m.field.data
  {
    var empty := Array(emptyId, Zeros(n), 1);
    var step := MemoInsert(memo, f.data, f.numObs, empty, newId);
    SpliceEnds(f.data.values, Zeros(n));
    Mutation(WithData(f, step.result), step.memo - {Identity(emptyId)})
  }

  /** Keep only the observations at the positions `idx`, in the order of `idx`. */
  function Subset(f: Field, idx: seq<nat>, memo: Memo, newId: Handle): (r: Result<Mutation, Error>)
    ensures r.Err? <==> Identity(f.data.id) !in memo && !InRange(idx, |f.data.values|)
    ensures r.Err? ==>
      && r.error.OutOfRange?
      && r.error.index in idx
      && r.error.index >= |f.data.values| == r.error.size
    ensures r.Ok? ==> Valid(r.value.field)
    ensures r.Ok? ==> r.value.field.name == f.name && r.value.field.unit == f.unit
    ensures r.Ok? && Identity(f.data.id) in memo ==>
      r.value.field.data == memo[Identity(f.data.id)] && r.value.memo == memo
    ensures r.Ok? && Identity(f.data.id) !in memo ==>
      && r.value.field.data.id == newId
      && r.value.field.data.ndim == f.data.ndim
      && |r.value.field.data.values| == |idx|
      && (forall i :: 0 <= i < |idx| ==> r.value.field.data.values[i] == f.data.values[idx[i]])
      && r.value.memo == memo[Identity(f.data.id) := r.value.field.data]
  {
    match MemoSubset(memo, f.data, idx, newId)
    case Err(IndexError(i, size)) => Err(OutOfRange(i, size))
    case Ok(step) => Ok(Mutation(WithData(f, step.result), step.memo))
  }

  /** Append all observations of `other` after those of `f`; the two backing
      arrays must have the same rank. */
  function Extend(f: Field, other: Field, memo: Memo, newId: Handle): (r: Result<Mutation, Error>)
    requires Valid(f)
    ensures r.Err? <==> other.data.ndim != f.data.ndim
    ensures r.Err? ==> r.error == RankMismatch(f.name, other.data.ndim, f.data.ndim)
    ensures r.Ok? ==> Valid(r.value.field)
    ensures r.Ok? ==> r.value.field.name == f.name && r.value.field.unit == f.unit
    ensures r.Ok? && Identity(f.data.id) in memo ==> r.value.field.data == memo[Identity(f.data.id)]
    ensures r.Ok? && (Identity(f.data.id) in memo || Identity(other.data.id) in memo) ==>
      r.value.memo == memo
    ensures r.Ok? && Identity(f.data.id) !in memo && Identity(other.data.id) !in memo ==>
      && r.value.field.data == Array(newId, f.data.values + other.data.values, f.data.ndim)
      && r.value.field.numObs == f.numObs + |other.data.values|
      && r.value.memo == memo[Identity(f.data.id) := r.value.field.data]
                             [Identity(other.data.id) := r.value.field.data]
  {
    if other.data.ndim != f.data.ndim then
      Err(RankMismatch(f.name, other.data.ndim, f.data.ndim))
    else
      var step := MemoInsert(memo, f.data, f.numObs, other.data, newId);
      SpliceEnds(f.data.values, other.data.values);
      Ok(Mutation(WithData(f, step.result), step.memo))
  }

  /** Read a field back from a stored group. An array already materialised
      under the stored name is reused instead of reading the group; otherwise
      the array reader builds a new array (identity `newId`) from the stored
      durations. The field is named by the last component of the stored name. */
  function Read(g: Group, memo: Memo, newId: Handle): (f: Field)
    ensures Valid(f) && f.unit.None?
    ensures FieldName(g.fieldname) in memo ==> f.data == memo[FieldName(g.fieldname)]
    ensures FieldName(g.fieldname) !in memo ==> f.data == Array(newId, g.values, g.ndim)
    ensures f.name == ReadName(g.fieldname)
  {
    var time := if FieldName(g.fieldname) in memo then memo[FieldName(g.fieldname)]
                else Array(newId, g.values, g.ndim);
    var r := Init(|time.values|, ReadName(g.fieldname), None, ArrayValue(time), map[], time.id);
    r.value
  }

  /** Writing is delegated to the array's own writer: it receives the field's
      own array, whose identity lets a shared array be written only once. */
  function Write(f: Field): (payload: Array)
    ensures payload == f.data
  {
    f.data
  }

  /** The group the array's writer produces for a field stored under `path`. */
  function Stored(f: Field, path: string): Group {
    Group(path, Write(f).values, Write(f).ndim)
  }

  /** A field read back equals the written one in everything but the identity
      of its array, which the reader creates anew. */
  predicate SameButIdentity(r: Field, f: Field, newId: Handle) {
    r == f.(data := f.data.(id := newId))
  }

  /** An array value is accepted whatever scale, format or other configuration
      accompanies it: none of it is consulted. */
  lemma InitArrayIgnoresConfiguration(numObs: nat, name: string, unit: Option<string>, a: Array,
                                      args: map<string, string>, newId: Handle)
    ensures Init(numObs, name, unit, ArrayValue(a), args, newId)
         == Init(numObs, name, unit, ArrayValue(a), map[], a.id)
  {
  }

  /** Writing a field whose name is the leaf of a qualified stored name and
      reading it back, with nothing memoised under that name, gives the same
      field up to the identity of its new array. */
  lemma WriteReadRoundTrip(f: Field, prefix: string, memo: Memo, newId: Handle)
    requires Valid(f) && f.unit.None? && DotFree(f.name)
    requires FieldName(prefix + [Dot] + f.name) !in memo
    ensures SameButIdentity(Read(Stored(f, prefix + [Dot] + f.name), memo, newId), f, newId)
  {
    ReadNameOfQualified(prefix, f.name);
  }

  /** The same round trip for a field stored under its bare name. */
  lemma WriteReadBareName(f: Field, memo: Memo, newId: Handle)
    requires Valid(f) && f.unit.None? && DotFree(f.name)
    requires FieldName(f.name) !in memo
    ensures SameButIdentity(Read(Stored(f, f.name), memo, newId), f, newId)
  {
    SplitDotFree(f.name);
  }

  /** Two groups stored under the same name, once that name is memoised,
      read back as identical fields sharing one array, whatever they store. */
  lemma ReadSharesMemoisedArray(g1: Group, g2: Group, memo: Memo, id1: Handle, id2: Handle)
    requires g1.fieldname == g2.fieldname
    requires FieldName(g1.fieldname) in memo
    ensures Read(g1, memo, id1).data == Read(g2, memo, id2).data == memo[FieldName(g1.fieldname)]
    ensures Read(g1, memo, id1) == Read(g2, memo, id2)
  {
  }

  /** Because the throwaway empty array's identity is dropped from the memo, a
      later insert of an unrelated array that happens to reuse that identity
      is computed afresh instead of returning the stale copy. */
  lemma EmptyIdentityNotReused(f: Field, n: nat, memo: Memo, emptyId: Handle, newId: Handle,
                               a: Array, pos: nat, c: Array, newId2: Handle)
    requires emptyId != f.data.id
    requires c.id == emptyId
    requires pos <= |a.values|
    requires Identity(a.id) !in PrependEmpty(f, n, memo, emptyId, newId).memo
    ensures MemoInsert(PrependEmpty(f, n, memo, emptyId, newId).memo, a, pos, c, newId2).result
         == Array(newId2, Splice(a.values, pos, c.values), a.ndim)
  {
  }

  /** Subsetting by a reordering of all observations and then by its inverse
      restores the original observations, when neither array was memoised. */
  lemma SubsetRoundTrip(f: Field, p: seq<nat>, q: seq<nat>, memo: Memo, id1: Handle, id2: Handle)
    requires Valid(f)
    requires InRange(p, |f.data.values|) && |p| == |f.data.values|
    requires IsInverse(p, q) && |q| == |p|
    requires Identity(f.data.id) !in memo && Identity(id1) !in memo && id1 != f.data.id
    ensures Subset(f, p, memo, id1).Ok?
    ensures
      var m1 := Subset(f, p, memo, id1).value;
      var r2 := Subset(m1.field, q, m1.memo, id2);
      r2.Ok? && r2.value.field.data.values == f.data.values && r2.value.field.numObs == f.numObs
  {
    var m1 := Subset(f, p, memo, id1).value;
    assert m1.field.data.values == Select(f.data.values, p);
    SelectRoundTrip(f.data.values, p, q);
    var r2 := Subset(m1.field, q, m1.memo, id2);
    assert r2.value.field.data.values == Select(Select(f.data.values, p), q);
  }

  /** The worked example: three durations 0 s, 10 s and 20 s (in microseconds)
      with one empty observation prepended. */
  lemma PrependEmptyExample(memo: Memo)
    requires Identity(1) !in memo && Identity(2) !in memo
    ensures
      var f := Field("epoch", 3, None, Array(1, [0, 10000000, 20000000], 1));
      var m := PrependEmpty(f, 1, memo, 2, 3);
      m.field.numObs == 4 && m.field.data.values == [0, 0, 10000000, 20000000]
  {
    var f := Field("epoch", 3, None, Array(1, [0, 10000000, 20000000], 1));
    assert Zeros(1) + f.data.values == [0, 0, 10000000, 20000000];
  }
}
