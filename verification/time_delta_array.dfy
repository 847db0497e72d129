/**
 The capability contract a field expects of its backing time-delta array,
 stated abstractly. The concrete array class (scale and format conversion,
 floating-point storage, the binary reader and writer) is not part of this
 model: an array here is its durations along the observation axis, in integer
 microseconds, together with its rank and an explicit identity handle that
 stands for the object identity the memo is keyed by.
 */
module TimeDeltaArrays {
  import opened Wrappers

  /** Object identity of an array value, made explicit. */
  type Handle = nat

  datatype Array = Array(id: Handle, values: seq<int>, ndim: nat)

  /** The memo dictionary is keyed both by array identity (during mutation and
      writing) and by a stored dotted field name (during reading). */
  datatype Key = Identity(handle: Handle) | FieldName(name: string)

  type Memo = map<Key, Array>

  /** The result of a memo-threaded operation: the produced array and the memo after it. */
  datatype Step = Step(result: Array, memo: Memo)

  datatype IndexError = IndexError(index: nat, size: nat)

  /** `n` zero durations: the "empty" time-delta value. */
  function Zeros(n: nat): seq<int>
  {
    seq(n, _ => 0)
  }

  /** Abstract insert: the values of `b` placed in front of position `pos` of `a`. */
  function Splice(a: seq<int>, pos: nat, b: seq<int>): seq<int>
    requires pos <= |a|
  {
    a[..pos] + b + a[pos..]
  }

  predicate InRange(idx: seq<nat>, n: nat) {
    forall i :: 0 <= i < |idx| ==> idx[i] < n
  }

  /** Abstract subset: the values at the given positions, in the order of `idx`. */
  function Select(a: seq<int>, idx: seq<nat>): seq<int>
    requires InRange(idx, |a|)
  {
    seq(|idx|, i requires 0 <= i < |idx| => a[idx[i]])
  }

  /** The first index of `idx` that is out of range for a length-`n` array, if any. */
  function FirstOutOfRange(idx: seq<nat>, n: nat): (r: Option<nat>)
    ensures r.None? <==> InRange(idx, n)
    ensures r.Some? ==> r.value in idx && r.value >= n
    decreases |idx|
  {
    if |idx| == 0 then None
    else if idx[0] >= n then Some(idx[0])
    else
      var rest := FirstOutOfRange(idx[1..], n);
      assert rest.None? ==> InRange(idx, n) by {
        if rest.None? {
          forall i | 0 <= i < |idx| ensures idx[i] < n {
            if i > 0 { assert idx[i] == idx[1..][i - 1]; }
          }
        }
      }
      assert rest.Some? ==> rest.value in idx by {
        if rest.Some? { assert forall x :: x in idx[1..] ==> x in idx; }
      }
      rest
  }

  /** The memo-threaded insert of the array contract. If either operand was
      already copied in this operation, its recorded replacement is reused so
      that every reference resolves to the same copy; otherwise the splice is
      built as a new array (identity `newId`) and recorded under both
      operands' identities. */
  function MemoInsert(memo: Memo, a: Array, pos: nat, b: Array, newId: Handle): Step
    requires pos <= |a.values|
  {
    if Identity(a.id) in memo then Step(memo[Identity(a.id)], memo)
    else if Identity(b.id) in memo then Step(memo[Identity(b.id)], memo)
    else
      var r := Array(newId, Splice(a.values, pos, b.values), a.ndim);
      Step(r, memo[Identity(a.id) := r][Identity(b.id) := r])
  }

  /** The memo-threaded subset of the array contract: reuse a recorded copy of
      `a`, fail on the first out-of-range position, or select and record. */
  function MemoSubset(memo: Memo, a: Array, idx: seq<nat>, newId: Handle): Result<Step, IndexError>
  {
    if Identity(a.id) in memo then Ok(Step(memo[Identity(a.id)], memo))
    else
      match FirstOutOfRange(idx, |a.values|)
      case Some(bad) => Err(IndexError(bad, |a.values|))
      case None =>
        var r := Array(newId, Select(a.values, idx), a.ndim);
        Ok(Step(r, memo[Identity(a.id) := r]))
  }

  /** Inserting at the front is prepending; inserting at the end is appending. */
  lemma SpliceEnds(a: seq<int>, b: seq<int>)
    ensures Splice(a, 0, b) == b + a
    ensures Splice(a, |a|, b) == a + b
  {
    assert a[..0] == [] && a[0..] == a;
    assert a[..|a|] == a && a[|a|..] == [];
  }

  /** `q` undoes the reordering `p`: position `j` of the result of `p` comes back to `j`. */
  predicate IsInverse(p: seq<nat>, q: seq<nat>) {
    && InRange(q, |p|)
    && forall j :: 0 <= j < |q| ==> p[q[j]] == j
  }

  /** Selecting by a reordering and then by its inverse gives the original values back. */
  lemma SelectRoundTrip(a: seq<int>, p: seq<nat>, q: seq<nat>)
    requires InRange(p, |a|)
    requires IsInverse(p, q)
    requires |q| == |a|
    ensures InRange(q, |Select(a, p)|)
    ensures Select(Select(a, p), q) == a
  {
    var s := Select(a, p);
    var t := Select(s, q);
    forall j | 0 <= j < |a| ensures t[j] == a[j] {
      assert t[j] == s[q[j]] == a[p[q[j]]];
    }
  }
}
