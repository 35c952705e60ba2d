/**
 Batched execution of `list_filter` and `list_transform`
 (extension/core_functions/lambda_functions.cpp).

 The elements of all lists are gathered into batches of at most `vectorSize` elements, the lambda
 is evaluated one batch at a time, and the results are scattered back into one list entry per row.
 The specification knows nothing of batches: a row's result is the filter, or the map, of that
 row's own elements.
 */
module LambdaFunctions {
  import opened Wrappers

  // ---------------------------------------------------------------- data

  /** A captured column: constant vectors are referenced, all others are sliced by row. */
  datatype Column<V> = Constant(value: V) | Inconstant(values: seq<V>)

  /** The arguments of one evaluation of the lambda. */
  datatype Call<V> = Call(index: Option<nat>, element: V, captured: seq<V>)

  /** The lambda expression, and how a value reads as a boolean (`None` is NULL). */
  datatype Lambda<!V> = Lambda(apply: Call<V> -> V, truth: V -> Option<bool>)

  datatype Functor = ListTransform | ListFilter

  /** The list column (with its selection vector), its child vector, and the captured columns. */
  datatype Input<V> = Input(
    sel: seq<nat>, entries: seq<ListEntry>, validity: seq<bool>, child: seq<V>,
    columns: seq<Column<V>>, hasIndex: bool)
  {
    function RowCount(): nat { |sel| }

    /** Entries may overlap and come in any order; only valid ones point into the child vector. */
    ghost predicate WellFormed() {
      && |entries| == |validity|
      && (forall r | 0 <= r < |sel| :: sel[r] < |entries|)
      && (forall r | 0 <= r < |sel| && validity[sel[r]] ::
            entries[sel[r]].offset + entries[sel[r]].length <= |child|)
      && (forall c | 0 <= c < |columns| && columns[c].Inconstant? :: |columns[c].values| == |sel|)
    }

    predicate RowIsValid(row: nat)
      requires WellFormed() && row < RowCount()
    {
      validity[sel[row]]
    }

    /** The values of the captured columns in a row. */
    function Captured(row: nat): seq<V>
      requires WellFormed() && row < RowCount()
    {
      seq(|columns|, c requires 0 <= c < |columns| =>
        if columns[c].Constant? then columns[c].value else columns[c].values[row])
    }

    /** The length of a row's list; a NULL list has no elements. */
    function RowLength(row: nat): nat
      requires WellFormed() && row < RowCount()
    {
      if RowIsValid(row) then entries[sel[row]].length else 0
    }

    /** Element `k` of a row, with its 1-based position and the row's own captured columns. */
    function RowCall(row: nat, k: nat): Call<V>
      requires WellFormed() && row < RowCount() && k < RowLength(row)
    {
      Call(if hasIndex then Some(k + 1) else None,
           child[entries[sel[row]].offset + k], Captured(row))
    }

    ghost function RowCalls(row: nat): seq<Call<V>>
      requires WellFormed() && row < RowCount()
    {
      seq(RowLength(row), k requires 0 <= k < RowLength(row) => RowCall(row, k))
    }

    /** The calls of the first `n` rows, in order. */
    ghost function Calls(n: nat): seq<Call<V>>
      requires WellFormed() && n <= RowCount()
    {
      if n == 0 then [] else Calls(n - 1) + RowCalls(n - 1)
    }
  }

  // ---------------------------------------------------------------- specification

  /** The elements of the calls for which the lambda is true; NULL counts as false. */
  ghost function Kept<V>(lambda: Lambda<V>, calls: seq<Call<V>>): seq<V> {
    if calls == [] then [] else
      var last := calls[|calls| - 1];
      Kept(lambda, calls[..|calls| - 1]) +
      (if lambda.truth(lambda.apply(last)) == Some(true) then [last.element] else [])
  }

  ghost function Mapped<V>(lambda: Lambda<V>, calls: seq<Call<V>>): seq<V> {
    seq(|calls|, i requires 0 <= i < |calls| => lambda.apply(calls[i]))
  }

  /** What a functor makes of a sequence of calls. */
  ghost function Outcome<V>(f: Functor, lambda: Lambda<V>, calls: seq<Call<V>>): seq<V> {
    match f
    case ListTransform => Mapped(lambda, calls)
    case ListFilter => Kept(lambda, calls)
  }

  /** What one row contributes to the result. */
  ghost function RowResult<V>(f: Functor, lambda: Lambda<V>, input: Input<V>, row: nat): seq<V>
    requires input.WellFormed() && row < input.RowCount()
  {
    Outcome(f, lambda, input.RowCalls(row))
  }

  /** The results of the first `n` rows, one after the other. */
  ghost function RowResults<V>(f: Functor, lambda: Lambda<V>, input: Input<V>, n: nat): seq<V>
    requires input.WellFormed() && n <= input.RowCount()
  {
    if n == 0 then [] else RowResults(f, lambda, input, n - 1) + RowResult(f, lambda, input, n - 1)
  }

  /** The entry of a row: where its results start in the result's child vector, and how many. */
  ghost function RowEntry<V>(f: Functor, lambda: Lambda<V>, input: Input<V>, row: nat): ListEntry
    requires input.WellFormed() && row < input.RowCount()
  {
    ListEntry(|RowResults(f, lambda, input, row)|, |RowResult(f, lambda, input, row)|)
  }

  // ---------------------------------------------------------------- lemmas on the specification

  lemma {:induction false} KeptConcat<V>(lambda: Lambda<V>, a: seq<Call<V>>, b: seq<Call<V>>)
    ensures Kept(lambda, a + b) == Kept(lambda, a) + Kept(lambda, b)
    decreases |b|
  {
    if b == [] {
      assert a + b == a;
    } else {
      var n := |b| - 1;
      assert (a + b)[..|a + b| - 1] == a + b[..n];
      KeptConcat(lambda, a, b[..n]);
    }
  }

  lemma KeptNothing<V>(lambda: Lambda<V>)
    ensures Kept(lambda, []) == []
  {
  }

  lemma KeptPush<V>(lambda: Lambda<V>, calls: seq<Call<V>>, c: Call<V>)
    ensures Kept(lambda, calls + [c]) == Kept(lambda, calls) +
      (if lambda.truth(lambda.apply(c)) == Some(true) then [c.element] else [])
  {
    assert (calls + [c])[..|calls|] == calls;
  }

  lemma MappedConcat<V>(lambda: Lambda<V>, a: seq<Call<V>>, b: seq<Call<V>>)
    ensures Mapped(lambda, a + b) == Mapped(lambda, a) + Mapped(lambda, b)
  {
  }

  /** Filtering or mapping all calls at once gives the rows' results one after the other. */
  lemma {:induction false} ResultsOfCalls<V>(f: Functor, lambda: Lambda<V>, input: Input<V>, n: nat)
    requires input.WellFormed() && n <= input.RowCount()
    ensures Outcome(f, lambda, input.Calls(n)) == RowResults(f, lambda, input, n)
  {
    if n == 0 {
    } else {
      ResultsOfCalls(f, lambda, input, n - 1);
      if f == ListFilter {
        KeptConcat(lambda, input.Calls(n - 1), input.RowCalls(n - 1));
      } else {
        MappedConcat(lambda, input.Calls(n - 1), input.RowCalls(n - 1));
      }
    }
  }

  /** Every row's entry cuts exactly that row's result out of the result's child vector. */
  lemma {:induction false} EntriesAreSlices<V>(f: Functor, lambda: Lambda<V>, input: Input<V>, row: nat, n: nat)
    requires input.WellFormed() && row < n <= input.RowCount()
    ensures var e := RowEntry(f, lambda, input, row);
            && e.offset + e.length <= |RowResults(f, lambda, input, n)|
            && RowResults(f, lambda, input, n)[e.offset..e.offset + e.length]
               == RowResult(f, lambda, input, row)
  {
    var e := RowEntry(f, lambda, input, row);
    var before, last := RowResults(f, lambda, input, n - 1), RowResult(f, lambda, input, n - 1);
    if row < n - 1 {
      EntriesAreSlices(f, lambda, input, row, n - 1);
      SliceOfPrefix(before, last, e.offset, e.offset + e.length);
    } else {
      SliceOfSuffix(before, last);
    }
  }

  lemma SliceOfPrefix<V>(a: seq<V>, b: seq<V>, i: nat, j: nat)
    requires i <= j <= |a|
    ensures (a + b)[i..j] == a[i..j]
  {
  }

  lemma SliceOfSuffix<V>(a: seq<V>, b: seq<V>)
    ensures (a + b)[|a|..|a| + |b|] == b
  {
  }

  // ---------------------------------------------------------------- the results, element by element

  /** These are the values of the captured columns in a row: a constant's value, or the row's own. */
  ghost predicate AreCaptured<V>(input: Input<V>, row: nat, values: seq<V>) {
    && |values| == |input.columns|
    && forall c | 0 <= c < |values| ::
         match input.columns[c]
         case Constant(v) => values[c] == v
         case Inconstant(vs) => row < |vs| && values[c] == vs[row]
  }

  /** `v` is what the lambda makes of element `k` of a row's list, its 1-based position, and the row's captured values. */
  ghost predicate IsApplied<V(!new)>(lambda: Lambda<V>, input: Input<V>, row: nat, k: nat, v: V)
    requires row < |input.sel| && input.sel[row] < |input.entries|
    requires input.entries[input.sel[row]].offset + k < |input.child|
  {
    exists values ::
      && AreCaptured(input, row, values)
      && v == lambda.apply(Call(if input.hasIndex then Some(k + 1) else None,
                                input.child[input.entries[input.sel[row]].offset + k], values))
  }

  /** The lambda is true for element `k` of a row's list. */
  ghost predicate IsTrueAt<V(!new)>(lambda: Lambda<V>, input: Input<V>, row: nat, k: nat)
    requires row < |input.sel| && input.sel[row] < |input.entries|
    requires input.entries[input.sel[row]].offset + k < |input.child|
  {
    exists v :: IsApplied(lambda, input, row, k, v) && lambda.truth(v) == Some(true)
  }

  /** The entry cuts out a list as long as the row's own, of what the lambda makes of each of its elements. */
  ghost predicate IsTransformed<V(!new)>(lambda: Lambda<V>, input: Input<V>, row: nat, child: seq<V>, e: ListEntry)
    requires input.WellFormed() && row < |input.sel| && input.validity[input.sel[row]]
  {
    && e.length == input.entries[input.sel[row]].length && e.offset + e.length <= |child|
    && var list := child[e.offset..e.offset + e.length];
    forall k | 0 <= k < |list| :: IsApplied(lambda, input, row, k, list[k])
  }

  /** The positions are increasing, and just those of the row's elements for which the lambda is true. */
  ghost predicate ArePositionsOfTrue<V(!new)>(lambda: Lambda<V>, input: Input<V>, row: nat, positions: seq<nat>)
    requires input.WellFormed() && row < |input.sel| && input.validity[input.sel[row]]
  {
    var n := input.entries[input.sel[row]].length;
    && (forall i, j | 0 <= i < j < |positions| :: positions[i] < positions[j])
    && (forall i | 0 <= i < |positions| :: positions[i] < n)
    && forall k | 0 <= k < n :: k in positions <==> IsTrueAt(lambda, input, row, k)
  }

  /** The entry cuts out the elements of the row's list for which the lambda is true, in their order. */
  ghost predicate IsFiltered<V(!new)>(lambda: Lambda<V>, input: Input<V>, row: nat, child: seq<V>, e: ListEntry)
    requires input.WellFormed() && row < |input.sel| && input.validity[input.sel[row]]
  {
    && e.offset + e.length <= |child|
    && exists positions ::
         && ArePositionsOfTrue(lambda, input, row, positions) && |positions| == e.length
         && forall j | 0 <= j < e.length ::
              child[e.offset + j] == input.child[input.entries[input.sel[row]].offset + positions[j]]
  }

  /** What the result says of one row. */
  ghost predicate RowIsRight<V(!new)>(f: Functor, lambda: Lambda<V>, input: Input<V>, row: nat, child: seq<V>, e: ListEntry)
    requires input.WellFormed() && row < |input.sel|
  {
    if !input.validity[input.sel[row]] then f == ListFilter ==> e.length == 0
    else if f == ListTransform then IsTransformed(lambda, input, row, child, e)
    else IsFiltered(lambda, input, row, child, e)
  }

  /** The row has an entry in the result: a transform leaves the entries of NULL rows alone. */
  predicate HasEntry<V>(f: Functor, input: Input<V>, row: nat)
    requires row < |input.sel| && input.sel[row] < |input.validity|
  {
    f == ListFilter || input.validity[input.sel[row]]
  }

  /** The entries cut the child vector into pieces, in the order of the rows and without a gap. */
  ghost predicate RowsTile<V>(f: Functor, input: Input<V>, child: seq<V>, entries: seq<ListEntry>)
    requires input.WellFormed() && |entries| == |input.sel|
  {
    && (forall r, s | 0 <= r < s < |entries| && HasEntry(f, input, r) && HasEntry(f, input, s) ::
          entries[r].offset + entries[r].length <= entries[s].offset)
    && forall p | 0 <= p < |child| :: IsInSomeEntry(f, input, entries, p)
  }

  ghost predicate IsInSomeEntry<V>(f: Functor, input: Input<V>, entries: seq<ListEntry>, p: int)
    requires input.WellFormed() && |entries| == |input.sel|
  {
    exists r :: 0 <= r < |entries| && HasEntry(f, input, r) && entries[r].offset <= p < entries[r].offset + entries[r].length
  }

  lemma {:induction false} ResultsGrow<V>(f: Functor, lambda: Lambda<V>, input: Input<V>, r: nat, s: nat)
    requires input.WellFormed() && r <= s <= input.RowCount()
    ensures |RowResults(f, lambda, input, r)| <= |RowResults(f, lambda, input, s)|
    decreases s
  {
    if r == s {
    } else {
      ResultsGrow(f, lambda, input, r, s - 1);
    }
  }

  /** Each place of the results is in the piece of some row. */
  lemma {:induction false} PieceOf<V>(f: Functor, lambda: Lambda<V>, input: Input<V>, n: nat, p: nat) returns (r: nat)
    requires input.WellFormed() && n <= input.RowCount() && p < |RowResults(f, lambda, input, n)|
    ensures r < n
    ensures var e := RowEntry(f, lambda, input, r); e.offset <= p < e.offset + e.length
    decreases n
  {
    r := n - 1;
    if p < |RowResults(f, lambda, input, r)| {
      r := PieceOf(f, lambda, input, r, p);
    }
  }

  lemma AllRowsTile<V>(f: Functor, lambda: Lambda<V>, input: Input<V>, child: seq<V>, entries: seq<ListEntry>)
    requires input.WellFormed() && |entries| == input.RowCount() && child == RowResults(f, lambda, input, input.RowCount())
    requires forall r | 0 <= r < |entries| && (f == ListFilter || input.RowIsValid(r)) :: entries[r] == RowEntry(f, lambda, input, r)
    ensures RowsTile(f, input, child, entries)
  {
    forall r, s | 0 <= r < s < |entries| && HasEntry(f, input, r) && HasEntry(f, input, s)
      ensures entries[r].offset + entries[r].length <= entries[s].offset
    {
      ResultsGrow(f, lambda, input, r + 1, s);
    }
    forall p | 0 <= p < |child|
      ensures IsInSomeEntry(f, input, entries, p)
    {
      var r := PieceOf(f, lambda, input, input.RowCount(), p);
      if !input.validity[input.sel[r]] {
        NullIsEmpty(f, lambda, input, r);
      }
    }
  }

  lemma CallIsApplied<V(!new)>(lambda: Lambda<V>, input: Input<V>, row: nat, k: nat)
    requires input.WellFormed() && row < input.RowCount() && k < input.RowLength(row)
    ensures IsApplied(lambda, input, row, k, lambda.apply(input.RowCall(row, k)))
    ensures forall v :: IsApplied(lambda, input, row, k, v) ==> v == lambda.apply(input.RowCall(row, k))
  {
    assert AreCaptured(input, row, input.Captured(row));
    forall values | AreCaptured(input, row, values)
      ensures values == input.Captured(row)
    {
    }
  }

  lemma TransformedRow<V(!new)>(lambda: Lambda<V>, input: Input<V>, row: nat, child: seq<V>, e: ListEntry)
    requires input.WellFormed() && row < input.RowCount() && input.RowIsValid(row)
    requires e.offset + e.length <= |child| && child[e.offset..e.offset + e.length] == RowResult(ListTransform, lambda, input, row)
    ensures IsTransformed(lambda, input, row, child, e)
  {
    var list := child[e.offset..e.offset + e.length];
    forall k | 0 <= k < |list|
      ensures k < input.RowLength(row) && IsApplied(lambda, input, row, k, list[k])
    {
      assert list[k] == lambda.apply(input.RowCall(row, k));
      CallIsApplied(lambda, input, row, k);
    }
  }

  /** The positions of the calls for which the lambda is true, among the first `n`. */
  lemma {:induction false} KeptPositions<V>(lambda: Lambda<V>, calls: seq<Call<V>>) returns (positions: seq<nat>)
    ensures |positions| == |Kept(lambda, calls)|
    ensures forall i, j | 0 <= i < j < |positions| :: positions[i] < positions[j]
    ensures forall i | 0 <= i < |positions| :: positions[i] < |calls| && Kept(lambda, calls)[i] == calls[positions[i]].element
    ensures forall k | 0 <= k < |calls| :: k in positions <==> lambda.truth(lambda.apply(calls[k])) == Some(true)
    decreases |calls|
  {
    positions := [];
    if calls == [] {
    } else {
      var n := |calls| - 1;
      positions := KeptPositions(lambda, calls[..n]);
      if lambda.truth(lambda.apply(calls[n])) == Some(true) {
        positions := positions + [n];
      }
    }
  }

  lemma FilteredRow<V(!new)>(lambda: Lambda<V>, input: Input<V>, row: nat, child: seq<V>, e: ListEntry)
    requires input.WellFormed() && row < input.RowCount() && input.RowIsValid(row)
    requires e.offset + e.length <= |child| && child[e.offset..e.offset + e.length] == RowResult(ListFilter, lambda, input, row)
    ensures IsFiltered(lambda, input, row, child, e)
  {
    var calls := input.RowCalls(row);
    var positions := KeptPositions(lambda, calls);
    forall k | 0 <= k < |calls|
      ensures k in positions <==> IsTrueAt(lambda, input, row, k)
    {
      CallIsApplied(lambda, input, row, k);
    }
    forall j | 0 <= j < e.length
      ensures child[e.offset + j] == input.child[input.entries[input.sel[row]].offset + positions[j]]
    {
      assert child[e.offset..e.offset + e.length][j] == calls[positions[j]].element;
    }
    assert ArePositionsOfTrue(lambda, input, row, positions);
  }

  lemma AllRowsAreRight<V(!new)>(f: Functor, lambda: Lambda<V>, input: Input<V>, child: seq<V>, entries: seq<ListEntry>)
    requires input.WellFormed() && |entries| == input.RowCount() && child == RowResults(f, lambda, input, input.RowCount())
    requires forall r | 0 <= r < |entries| && (f == ListFilter || input.RowIsValid(r)) :: entries[r] == RowEntry(f, lambda, input, r)
    ensures forall r | 0 <= r < |entries| :: RowIsRight(f, lambda, input, r, child, entries[r])
  {
    hide RowResults, RowEntry;
    forall r | 0 <= r < |entries|
      ensures RowIsRight(f, lambda, input, r, child, entries[r])
    {
      if f == ListFilter || input.RowIsValid(r) {
        hide RowIsRight;
        RowsAreRight(f, lambda, input, r, child);
      }
    }
  }

  /** What the specification says of a row is what its elements say. */
  lemma RowsAreRight<V(!new)>(f: Functor, lambda: Lambda<V>, input: Input<V>, row: nat, child: seq<V>)
    requires input.WellFormed() && row < input.RowCount() && child == RowResults(f, lambda, input, input.RowCount())
    ensures RowIsRight(f, lambda, input, row, child, RowEntry(f, lambda, input, row))
  {
    hide IsTransformed, IsFiltered, RowResults, RowResult;
    EntriesAreSlices(f, lambda, input, row, input.RowCount());
    var e := RowEntry(f, lambda, input, row);
    if !input.validity[input.sel[row]] {
      NullIsEmpty(f, lambda, input, row);
    } else if f == ListTransform {
      TransformedRow(lambda, input, row, child, e);
    } else {
      FilteredRow(lambda, input, row, child, e);
    }
  }

  lemma NullIsEmpty<V>(f: Functor, lambda: Lambda<V>, input: Input<V>, row: nat)
    requires input.WellFormed() && row < input.RowCount() && !input.validity[input.sel[row]]
    ensures RowResult(f, lambda, input, row) == []
  {
    assert input.RowCalls(row) == [];
  }

  // ---------------------------------------------------------------- state

  /** The result vector: its entries, its validity mask, and its growing child vector. */
  class ResultVector<V> {
    const entries: array<ListEntry>
    const validity: array<bool>
    var child: seq<V>

    constructor (rows: nat)
      ensures fresh(entries) && fresh(validity)
      ensures entries.Length == validity.Length == rows
      ensures child == [] && forall r | 0 <= r < rows :: validity[r]
    {
      entries := new ListEntry[rows](_ => ListEntry(0, 0));
      validity := new bool[rows](_ => true);
      child := [];
    }
  }

  /** The cursor of `list_filter`; it survives from one batch to the next. */
  class ListFilterInfo {
    var entryLengths: seq<nat>
    var length: nat
    var offset: nat
    var rowIdx: nat
    var srcLength: nat

    constructor ()
      ensures entryLengths == [] && length == offset == rowIdx == srcLength == 0
    {
      entryLengths, length, offset, rowIdx, srcLength := [], 0, 0, 0, 0;
    }
  }

  /** The chunk the lambda reads and the chunk it writes. */
  class LambdaExecuteInfo<V> {
    var inputChunk: seq<Call<V>>
    var lambdaChunk: seq<V>

    constructor () {
      inputChunk, lambdaChunk := [], [];
    }
  }

  /** The selection vectors and the index vector that describe the batch being gathered. */
  class Batch {
    const childSel: array<nat>
    const columnSel: array2<nat>
    const indexVector: array<nat>

    /** The buffers are three different ones, with `vectorSize` slots each. */
    ghost predicate WellFormed(vectorSize: nat, columns: nat) {
      && childSel != indexVector
      && childSel.Length == indexVector.Length == columnSel.Length1 == vectorSize
      && columnSel.Length0 == columns
    }

    constructor (vectorSize: nat, columns: nat)
      ensures fresh(childSel) && fresh(columnSel) && fresh(indexVector)
      ensures WellFormed(vectorSize, columns)
    {
      childSel := new nat[vectorSize](_ => 0);
      columnSel := new nat[columns, vectorSize]((_, _) => 0);
      indexVector := new nat[vectorSize](_ => 0);
    }

    /** Slot `i` of the batch selects `call`. */
    ghost predicate Selects<V>(input: Input<V>, i: nat, call: Call<V>)
      reads childSel, columnSel, indexVector
    {
      && i < childSel.Length && childSel.Length == indexVector.Length == columnSel.Length1
      && columnSel.Length0 == |input.columns| == |call.captured|
      && childSel[i] < |input.child| && call.element == input.child[childSel[i]]
      && call.index == (if input.hasIndex then Some(indexVector[i]) else None)
      && forall c | 0 <= c < |input.columns| ::
           match input.columns[c]
           case Constant(v) => call.captured[c] == v
           case Inconstant(vs) => columnSel[c, i] < |vs| && call.captured[c] == vs[columnSel[c, i]]
    }
  }

  // ---------------------------------------------------------------- one batch

  /** Slices the inputs by the batch's selection vectors and evaluates the lambda on each slot. */
  method ExecuteExpression<V>(elemCnt: nat, input: Input<V>, lambda: Lambda<V>, batch: Batch,
                              info: LambdaExecuteInfo<V>, ghost calls: seq<Call<V>>)
    requires |calls| == elemCnt
    requires forall i | 0 <= i < elemCnt :: batch.Selects(input, i, calls[i])
    modifies info
    ensures info.inputChunk == calls
    ensures info.lambdaChunk == Mapped(lambda, calls)
  {
    info.inputChunk := [];
    info.lambdaChunk := [];
    for i := 0 to elemCnt
      invariant info.inputChunk == calls[..i]
      invariant info.lambdaChunk == Mapped(lambda, calls[..i])
    {
      assert batch.Selects(input, i, calls[i]);
      var captured := [];
      for c := 0 to |input.columns|
        invariant captured == calls[i].captured[..c]
      {
        captured := captured + [
          match input.columns[c]
          case Constant(v) => v
          case Inconstant(vs) => vs[batch.columnSel[c, i]]];
      }
      var index := if input.hasIndex then Some(batch.indexVector[i]) else None;
      var call := Call(index, input.child[batch.childSel[i]], captured);
      assert call == calls[i];
      info.inputChunk := info.inputChunk + [call];
      info.lambdaChunk := info.lambdaChunk + [lambda.apply(call)];
      assert calls[..i + 1] == calls[..i] + [calls[i]];
    }
    assert calls[..elemCnt] == calls;
  }

  /** Where row `r` starts among the gathered calls. */
  ghost function Start(lengths: seq<nat>, r: nat): nat
    requires r <= |lengths|
  {
    if r == 0 then 0 else Start(lengths, r - 1) + lengths[r - 1]
  }

  lemma {:induction false} StartPush(lengths: seq<nat>, more: nat, r: nat)
    requires r <= |lengths|
    ensures Start(lengths + [more], r) == Start(lengths, r)
  {
    if r == 0 {
    } else {
      StartPush(lengths, more, r - 1);
    }
  }

  lemma {:induction false} StartMonotone(lengths: seq<nat>, r: nat, s: nat)
    requires r <= s <= |lengths|
    ensures Start(lengths, r) <= Start(lengths, s)
  {
    if r == s {
    } else {
      StartMonotone(lengths, r, s - 1);
    }
  }

  /** The entry that filtering gives row `r`, once the row's calls are all among `done`. */
  ghost predicate EntryIs<V>(lambda: Lambda<V>, lengths: seq<nat>, done: seq<Call<V>>, r: nat, e: ListEntry) {
    && r < |lengths| && Start(lengths, r + 1) <= |done|
    && e.offset == |Kept(lambda, done[..Start(lengths, r)])|
    && e.length == |Kept(lambda, done[Start(lengths, r)..Start(lengths, r + 1)])|
  }

  /** Every row before the cursor has its entry. */
  ghost predicate Written<V>(lambda: Lambda<V>, lengths: seq<nat>, done: seq<Call<V>>, entries: seq<ListEntry>) {
    && |entries| <= |lengths|
    && forall r | 0 <= r < |entries| :: EntryIs(lambda, lengths, done, r, entries[r])
  }

  /** Where the cursor stands after the calls `done`, and what it has counted. */
  ghost predicate Standing<V>(lambda: Lambda<V>, lengths: seq<nat>, done: seq<Call<V>>,
                              rowIdx: nat, srcLength: nat, offset: nat, length: nat)
  {
    && rowIdx <= |lengths|
    && Start(lengths, rowIdx) + srcLength == |done|
    && (srcLength > 0 ==> rowIdx < |lengths| && srcLength < lengths[rowIdx])
    && offset == |Kept(lambda, done[..Start(lengths, rowIdx)])|
    && length == |Kept(lambda, done[Start(lengths, rowIdx)..])|
  }

  /** What the cursor of `list_filter` means after the calls `done`. */
  ghost predicate CursorAt<V>(info: ListFilterInfo, entries: array<ListEntry>, lambda: Lambda<V>, done: seq<Call<V>>)
    reads info, entries
  {
    && |info.entryLengths| <= entries.Length
    && Standing(lambda, info.entryLengths, done, info.rowIdx, info.srcLength, info.offset, info.length)
    && Written(lambda, info.entryLengths, done, entries[..info.rowIdx])
  }

  lemma WrittenKeeps<V>(lambda: Lambda<V>, lengths: seq<nat>, done: seq<Call<V>>, more: seq<Call<V>>, entries: seq<ListEntry>)
    requires Written(lambda, lengths, done, entries)
    ensures Written(lambda, lengths, done + more, entries)
  {
    forall r | 0 <= r < |entries|
      ensures EntryIs(lambda, lengths, done + more, r, entries[r])
    {
      assert EntryIs(lambda, lengths, done, r, entries[r]);
      assert (done + more)[..Start(lengths, r)] == done[..Start(lengths, r)];
      assert (done + more)[Start(lengths, r)..Start(lengths, r + 1)] == done[Start(lengths, r)..Start(lengths, r + 1)];
    }
  }

  /** Empty lists are stepped over without consuming an element. */
  lemma StandingSkip<V>(lambda: Lambda<V>, lengths: seq<nat>, done: seq<Call<V>>,
                        rowIdx: nat, srcLength: nat, offset: nat, length: nat)
    requires Standing(lambda, lengths, done, rowIdx, srcLength, offset, length)
    requires rowIdx < |lengths| && lengths[rowIdx] == 0
    ensures Standing(lambda, lengths, done, rowIdx + 1, srcLength, offset, length)
    ensures EntryIs(lambda, lengths, done, rowIdx, ListEntry(offset, 0))
  {
    assert Start(lengths, rowIdx + 1) == Start(lengths, rowIdx);
  }

  /** Consuming one element of a list that has elements left. */
  lemma StandingStep<V>(lambda: Lambda<V>, lengths: seq<nat>, done: seq<Call<V>>, call: Call<V>,
                        rowIdx: nat, srcLength: nat, offset: nat, length: nat, length': nat)
    requires Standing(lambda, lengths, done, rowIdx, srcLength, offset, length)
    requires rowIdx < |lengths| && srcLength < lengths[rowIdx]
    requires length' == length + if lambda.truth(lambda.apply(call)) == Some(true) then 1 else 0
    ensures srcLength + 1 < lengths[rowIdx] ==>
              Standing(lambda, lengths, done + [call], rowIdx, srcLength + 1, offset, length')
    ensures srcLength + 1 == lengths[rowIdx] ==>
              && Standing(lambda, lengths, done + [call], rowIdx + 1, 0, offset + length', 0)
              && EntryIs(lambda, lengths, done + [call], rowIdx, ListEntry(offset, length'))
  {
    var start, now := Start(lengths, rowIdx), done + [call];
    assert now[..start] == done[..start];
    assert now[start..] == done[start..] + [call];
    KeptPush(lambda, done[start..], call);
    assert now == now[..start] + now[start..];
    KeptConcat(lambda, now[..start], now[start..]);
    if srcLength + 1 == lengths[rowIdx] {
      assert now[start..Start(lengths, rowIdx + 1)] == now[start..];
      assert now[..Start(lengths, rowIdx + 1)] == now;
    }
  }

  /** Gives the rows with an empty list at the cursor their entry, and steps over them. */
  method SkipEmptyLists<V>(info: ListFilterInfo, entries: array<ListEntry>, ghost lambda: Lambda<V>, ghost done: seq<Call<V>>)
    requires CursorAt(info, entries, lambda, done)
    modifies info`rowIdx, entries
    ensures CursorAt(info, entries, lambda, done)
    ensures info.rowIdx == |info.entryLengths| || info.srcLength < info.entryLengths[info.rowIdx]
  {
    while info.rowIdx < |info.entryLengths| && info.entryLengths[info.rowIdx] == 0
      invariant CursorAt(info, entries, lambda, done)
    {
      StandingSkip(lambda, info.entryLengths, done, info.rowIdx, info.srcLength, info.offset, info.length);
      ghost var before := entries[..info.rowIdx];
      entries[info.rowIdx] := ListEntry(info.offset, 0);
      info.rowIdx := info.rowIdx + 1;
      assert entries[..info.rowIdx] == before + [ListEntry(info.offset, 0)];
    }
  }

  /** Moves the cursor over one element and, at the end of its list, writes the list's entry. */
  method ConsumeElement<V>(info: ListFilterInfo, entries: array<ListEntry>, keep: bool,
                           ghost lambda: Lambda<V>, ghost done: seq<Call<V>>, ghost call: Call<V>)
    requires CursorAt(info, entries, lambda, done)
    requires info.rowIdx < |info.entryLengths| && info.srcLength < info.entryLengths[info.rowIdx]
    requires keep == (lambda.truth(lambda.apply(call)) == Some(true))
    modifies info, entries
    ensures info.entryLengths == old(info.entryLengths)
    ensures CursorAt(info, entries, lambda, done + [call])
  {
    StandingStep(lambda, info.entryLengths, done, call, info.rowIdx, info.srcLength, info.offset, info.length,
                 info.length + if keep then 1 else 0);
    WrittenKeeps(lambda, info.entryLengths, done, [call], entries[..info.rowIdx]);
    if keep {
      info.length := info.length + 1;
    }
    info.srcLength := info.srcLength + 1;
    if info.entryLengths[info.rowIdx] == info.srcLength {
      ghost var before := entries[..info.rowIdx];
      entries[info.rowIdx] := ListEntry(info.offset, info.length);
      info.offset := info.offset + info.length;
      info.rowIdx := info.rowIdx + 1;
      info.length := 0;
      info.srcLength := 0;
      assert entries[..info.rowIdx] == before + [entries[info.rowIdx - 1]];
    }
  }

  /** While elements are left to come, the cursor has not passed the last row. */
  lemma CursorIsNotAtEnd<V>(lambda: Lambda<V>, lengths: seq<nat>, done: seq<Call<V>>,
                            rowIdx: nat, srcLength: nat, offset: nat, length: nat)
    requires Standing(lambda, lengths, done, rowIdx, srcLength, offset, length)
    requires |done| < Start(lengths, |lengths|)
    ensures rowIdx < |lengths|
  {
  }

  /** The slice of the batch's elements by a selection vector. */
  function SelectedElements<V>(calls: seq<Call<V>>, sel: seq<nat>): seq<V>
    requires forall j | 0 <= j < |sel| :: sel[j] < |calls|
  {
    seq(|sel|, j requires 0 <= j < |sel| => calls[sel[j]].element)
  }

  /** `ListFilterFunctor::AppendResult`: appends the batch's kept elements and moves the cursor. */
  method AppendFiltered<V>(result: ResultVector<V>, info: ListFilterInfo, exec: LambdaExecuteInfo<V>,
                           elemCnt: nat, lambda: Lambda<V>, ghost done: seq<Call<V>>)
    requires elemCnt == |exec.inputChunk| && exec.lambdaChunk == Mapped(lambda, exec.inputChunk)
    requires CursorAt(info, result.entries, lambda, done)
    requires |done| + elemCnt <= Start(info.entryLengths, |info.entryLengths|)
    modifies info, result`child, result.entries
    ensures info.entryLengths == old(info.entryLengths)
    ensures CursorAt(info, result.entries, lambda, done + exec.inputChunk)
    ensures info.rowIdx == |info.entryLengths| || info.srcLength < info.entryLengths[info.rowIdx]
    ensures result.child == old(result.child) + Kept(lambda, exec.inputChunk)
  {
    hide Standing, Written, Kept, Start;
    ghost var calls := exec.inputChunk;
    var count := 0;
    var sel := new nat[elemCnt](_ => 0);
    assert done + calls[..0] == done;
    KeptNothing(lambda);
    for i := 0 to elemCnt
      invariant info.entryLengths == old(info.entryLengths) && result.child == old(result.child)
      invariant CursorAt(info, result.entries, lambda, done + calls[..i])
      invariant count <= i
      invariant forall j | 0 <= j < count :: sel[j] < elemCnt
      invariant SelectedElements(calls, sel[..count]) == Kept(lambda, calls[..i])
    {
      SkipEmptyLists(info, result.entries, lambda, done + calls[..i]);
      CursorIsNotAtEnd(lambda, info.entryLengths, done + calls[..i], info.rowIdx, info.srcLength, info.offset, info.length);
      var keep := lambda.truth(exec.lambdaChunk[i]) == Some(true);
      assert calls[..i + 1] == calls[..i] + [calls[i]];
      KeptPush(lambda, calls[..i], calls[i]);
      if keep {
        ghost var before := sel[..count];
        sel[count] := i;
        count := count + 1;
        assert sel[..count] == before + [i];
      }
      ConsumeElement(info, result.entries, keep, lambda, done + calls[..i], calls[i]);
      assert done + calls[..i] + [calls[i]] == done + calls[..i + 1];
    }
    assert calls[..elemCnt] == calls;
    SkipEmptyLists(info, result.entries, lambda, done + calls);
    result.child := result.child + SelectedElements(exec.inputChunk, sel[..count]);
  }

  // ---------------------------------------------------------------- all batches

  /** The calls gathered when `k` elements of row `row` have been put into batches. */
  ghost function Gathered<V>(input: Input<V>, row: nat, k: nat): seq<Call<V>>
    requires input.WellFormed() && row < input.RowCount() && k <= input.RowLength(row)
  {
    input.Calls(row) + input.RowCalls(row)[..k]
  }

  /** The lengths of the first `n` rows: what `list_filter` collects in `entryLengths`. */
  ghost function RowLengths<V>(input: Input<V>, n: nat): seq<nat>
    requires input.WellFormed() && n <= input.RowCount()
  {
    seq(n, r requires 0 <= r < n => input.RowLength(r))
  }

  lemma {:induction false} StartIsCallCount<V>(input: Input<V>, n: nat)
    requires input.WellFormed() && n <= input.RowCount()
    ensures Start(RowLengths(input, n), n) == |input.Calls(n)|
  {
    if n == 0 {
    } else {
      StartIsCallCount(input, n - 1);
      assert RowLengths(input, n) == RowLengths(input, n - 1) + [input.RowLength(n - 1)];
      StartPush(RowLengths(input, n - 1), input.RowLength(n - 1), n - 1);
    }
  }

  lemma {:induction false} StartLocal<V>(input: Input<V>, r: nat, n: nat)
    requires input.WellFormed() && r <= n <= input.RowCount()
    ensures Start(RowLengths(input, n), r) == |input.Calls(r)|
  {
    if r < n {
      StartLocal(input, r, n - 1);
      assert RowLengths(input, n) == RowLengths(input, n - 1) + [input.RowLength(n - 1)];
      StartPush(RowLengths(input, n - 1), input.RowLength(n - 1), r);
    } else {
      StartIsCallCount(input, n);
    }
  }

  /** The batch holds the calls `pending`, in order. */
  ghost predicate Holds<V>(batch: Batch, input: Input<V>, pending: seq<Call<V>>)
    reads batch.childSel, batch.columnSel, batch.indexVector
  {
    forall i | 0 <= i < |pending| :: batch.Selects(input, i, pending[i])
  }

  /** Puts one element into the next slot of the batch. */
  method GatherElement<V>(input: Input<V>, batch: Batch, elemCnt: nat, row: nat, childIdx: nat,
                          ghost pending: seq<Call<V>>)
    requires input.WellFormed() && row < input.RowCount() && childIdx < input.RowLength(row)
    requires elemCnt == |pending| && elemCnt < batch.childSel.Length
    requires batch.WellFormed(batch.childSel.Length, |input.columns|)
    requires Holds(batch, input, pending)
    modifies batch.childSel, batch.columnSel, batch.indexVector
    ensures Holds(batch, input, pending + [input.RowCall(row, childIdx)])
  {
    var entry := input.entries[input.sel[row]];
    batch.childSel[elemCnt] := entry.offset + childIdx;
    for c := 0 to |input.columns|
      invariant forall d, i | 0 <= d < |input.columns| && 0 <= i < elemCnt ::
                  batch.columnSel[d, i] == old(batch.columnSel[d, i])
      invariant batch.indexVector[..] == old(batch.indexVector[..])
      invariant forall d | 0 <= d < c && input.columns[d].Inconstant? :: batch.columnSel[d, elemCnt] == row
      invariant forall i | 0 <= i < batch.childSel.Length ::
                  batch.childSel[i] == if i == elemCnt then entry.offset + childIdx else old(batch.childSel[i])
    {
      if input.columns[c].Inconstant? {
        batch.columnSel[c, elemCnt] := row;
      }
    }
    if input.hasIndex {
      batch.indexVector[elemCnt] := childIdx + 1;
    }
    forall i | 0 <= i < |pending|
      ensures batch.Selects(input, i, pending[i])
    {
      assert old(batch.Selects(input, i, pending[i]));
    }
    assert batch.Selects(input, elemCnt, input.RowCall(row, childIdx));
  }

  /** The result so far, for the calls `done` of the batches executed so far. */
  ghost predicate Progress<V>(f: Functor, result: ResultVector<V>, info: ListFilterInfo, lambda: Lambda<V>, done: seq<Call<V>>)
    reads result, result.entries, info
  {
    && result.child == Outcome(f, lambda, done)
    && (f == ListFilter ==> CursorAt(info, result.entries, lambda, done))
  }

  /** Evaluates the lambda on the gathered batch and appends what the functor makes of it. */
  method ExecuteBatch<V>(f: Functor, result: ResultVector<V>, info: ListFilterInfo, exec: LambdaExecuteInfo<V>,
                         elemCnt: nat, input: Input<V>, lambda: Lambda<V>, batch: Batch,
                         ghost done: seq<Call<V>>, ghost pending: seq<Call<V>>)
    requires elemCnt == |pending| && Holds(batch, input, pending)
    requires Progress(f, result, info, lambda, done)
    requires f == ListFilter ==> |done| + elemCnt <= Start(info.entryLengths, |info.entryLengths|)
    modifies exec, info, result`child, result.entries
    ensures Progress(f, result, info, lambda, done + pending)
    ensures info.entryLengths == old(info.entryLengths)
    ensures f == ListTransform ==> result.entries[..] == old(result.entries[..])
    ensures f == ListFilter ==> info.rowIdx == |info.entryLengths| || info.srcLength < info.entryLengths[info.rowIdx]
  {
    ExecuteExpression(elemCnt, input, lambda, batch, exec, pending);
    match f {
      case ListFilter =>
        AppendFiltered(result, info, exec, elemCnt, lambda, done);
        KeptConcat(lambda, done, pending);
      case ListTransform =>
        result.child := result.child + exec.lambdaChunk;
        MappedConcat(lambda, done, pending);
    }
  }

  /** A new row of any length leaves the meaning of the cursor as it is. */
  lemma CursorKeepsOnPush<V>(lambda: Lambda<V>, lengths: seq<nat>, more: nat, done: seq<Call<V>>,
                             rowIdx: nat, srcLength: nat, offset: nat, length: nat, entries: seq<ListEntry>)
    requires Standing(lambda, lengths, done, rowIdx, srcLength, offset, length)
    requires Written(lambda, lengths, done, entries)
    ensures Standing(lambda, lengths + [more], done, rowIdx, srcLength, offset, length)
    ensures Written(lambda, lengths + [more], done, entries)
  {
    StartPush(lengths, more, rowIdx);
    forall r | 0 <= r < |entries|
      ensures EntryIs(lambda, lengths + [more], done, r, entries[r])
    {
      assert EntryIs(lambda, lengths, done, r, entries[r]);
      StartPush(lengths, more, r);
      StartPush(lengths, more, r + 1);
    }
  }

  lemma {:induction false} CallsPrefix<V>(input: Input<V>, r: nat, n: nat)
    requires input.WellFormed() && r < n <= input.RowCount()
    ensures |input.Calls(r)| + input.RowLength(r) <= |input.Calls(n)|
    ensures input.Calls(n)[..|input.Calls(r)|] == input.Calls(r)
    ensures input.Calls(n)[|input.Calls(r)|..|input.Calls(r)| + input.RowLength(r)] == input.RowCalls(r)
  {
    if r + 1 == n {
    } else {
      CallsPrefix(input, r, n - 1);
      SliceOfPrefix(input.Calls(n - 1), input.RowCalls(n - 1), 0, |input.Calls(r)|);
      SliceOfPrefix(input.Calls(n - 1), input.RowCalls(n - 1), |input.Calls(r)|, |input.Calls(r)| + input.RowLength(r));
    }
  }

  /** Once all calls are done, the written entries are the ones of the specification. */
  lemma WrittenIsRowEntry<V>(lambda: Lambda<V>, input: Input<V>, r: nat, e: ListEntry)
    requires input.WellFormed() && r < input.RowCount()
    requires EntryIs(lambda, RowLengths(input, input.RowCount()), input.Calls(input.RowCount()), r, e)
    ensures e == RowEntry(ListFilter, lambda, input, r)
  {
    var n := input.RowCount();
    StartLocal(input, r, n);
    StartLocal(input, r + 1, n);
    CallsPrefix(input, r, n);
    ResultsOfCalls(ListFilter, lambda, input, r);
  }

  /** A cursor with no element left to come has passed every row. */
  lemma CursorIsAtEnd<V>(lambda: Lambda<V>, lengths: seq<nat>, done: seq<Call<V>>,
                         rowIdx: nat, srcLength: nat, offset: nat, length: nat)
    requires Standing(lambda, lengths, done, rowIdx, srcLength, offset, length)
    requires rowIdx == |lengths| || srcLength < lengths[rowIdx]
    requires |done| == Start(lengths, |lengths|)
    ensures rowIdx == |lengths|
  {
    if rowIdx < |lengths| {
      StartMonotone(lengths, rowIdx + 1, |lengths|);
    }
  }

  /** Gathers the elements of one valid row, executing the batch whenever it is full. */
  method ExecuteRow<V>(f: Functor, result: ResultVector<V>, info: ListFilterInfo, exec: LambdaExecuteInfo<V>,
                       elemCnt: nat, input: Input<V>, lambda: Lambda<V>, batch: Batch, vectorSize: nat, row: nat,
                       ghost done: seq<Call<V>>, ghost pending: seq<Call<V>>)
    returns (elemCnt': nat, ghost done': seq<Call<V>>, ghost pending': seq<Call<V>>)
    requires input.WellFormed() && row < input.RowCount() && input.RowIsValid(row)
    requires 1 <= vectorSize && batch.WellFormed(vectorSize, |input.columns|)
    requires elemCnt == |pending| <= vectorSize && Holds(batch, input, pending)
    requires done + pending == input.Calls(row)
    requires Progress(f, result, info, lambda, done)
    requires f == ListFilter ==> info.entryLengths == RowLengths(input, row + 1)
    modifies exec, info, result`child, result.entries, batch.childSel, batch.columnSel, batch.indexVector
    ensures elemCnt' == |pending'| <= vectorSize && Holds(batch, input, pending')
    ensures done' + pending' == input.Calls(row + 1)
    ensures Progress(f, result, info, lambda, done')
    ensures info.entryLengths == old(info.entryLengths)
    ensures f == ListTransform ==> result.entries[..] == old(result.entries[..])
  {
    hide Progress, Holds, CursorAt;
    elemCnt', done', pending' := elemCnt, done, pending;
    var entry := input.entries[input.sel[row]];
    for childIdx := 0 to entry.length
      invariant elemCnt' == |pending'| <= vectorSize && Holds(batch, input, pending')
      invariant done' + pending' == Gathered(input, row, childIdx)
      invariant Progress(f, result, info, lambda, done')
      invariant info.entryLengths == old(info.entryLengths)
      invariant f == ListTransform ==> result.entries[..] == old(result.entries[..])
    {
      if elemCnt' == vectorSize {
        StartIsCallCount(input, row + 1);
        ExecuteBatch(f, result, info, exec, elemCnt', input, lambda, batch, done', pending');
        done', pending' := done' + pending', [];
        elemCnt' := 0;
      }
      GatherElement(input, batch, elemCnt', row, childIdx, pending');
      ghost var call := input.RowCall(row, childIdx);
      assert input.RowCalls(row)[..childIdx + 1] == input.RowCalls(row)[..childIdx] + [call];
      assert done' + (pending' + [call]) == done' + pending' + [call];
      assert done' + pending' + [call] == Gathered(input, row, childIdx + 1);
      pending' := pending' + [call];
      elemCnt' := elemCnt' + 1;
    }
    assert input.RowCalls(row)[..entry.length] == input.RowCalls(row);
  }

  /** The entries that `list_transform` has set for the first `n` rows; NULL rows are left alone. */
  ghost predicate TransformEntries<V>(lambda: Lambda<V>, input: Input<V>, n: nat, entries: seq<ListEntry>, before: seq<ListEntry>)
    requires input.WellFormed() && n <= input.RowCount() == |entries| == |before|
  {
    forall r | 0 <= r < |entries| ::
      entries[r] == if r < n && input.RowIsValid(r) then RowEntry(ListTransform, lambda, input, r) else before[r]
  }

  /** What each functor keeps about the first `row` rows. */
  ghost predicate RowsSet<V>(f: Functor, result: ResultVector<V>, info: ListFilterInfo, lambda: Lambda<V>,
                             input: Input<V>, row: nat, offset: nat, before: seq<ListEntry>)
    requires input.WellFormed() && row <= input.RowCount() == |before| == result.entries.Length
    reads info, result.entries
  {
    match f
    case ListFilter => info.entryLengths == RowLengths(input, row)
    case ListTransform =>
      && offset == |RowResults(ListTransform, lambda, input, row)|
      && TransformEntries(lambda, input, row, result.entries[..], before)
  }

  /** The head of the row loop: marks NULL rows, and records the length or the entry of the others. */
  method BeginRow<V>(f: Functor, result: ResultVector<V>, info: ListFilterInfo, lambda: Lambda<V>, input: Input<V>,
                     row: nat, offset: nat, ghost done: seq<Call<V>>, ghost before: seq<ListEntry>)
    returns (offset': nat)
    requires input.WellFormed() && row < input.RowCount()
    requires result.entries.Length == result.validity.Length == input.RowCount() == |before|
    requires Progress(f, result, info, lambda, done)
    requires RowsSet(f, result, info, lambda, input, row, offset, before)
    modifies info`entryLengths, result.entries, result.validity
    ensures Progress(f, result, info, lambda, done)
    ensures RowsSet(f, result, info, lambda, input, row + 1, offset', before)
    ensures forall r | 0 <= r < input.RowCount() ::
              result.validity[r] == (old(result.validity[r]) && (r == row ==> input.RowIsValid(r)))
  {
    hide Kept, EntryIs;
    offset' := offset;
    var listIdx := input.sel[row];
    var entry := input.entries[listIdx];
    if f == ListFilter {
      CursorKeepsOnPush(lambda, info.entryLengths, input.RowLength(row), done, info.rowIdx, info.srcLength,
                        info.offset, info.length, result.entries[..info.rowIdx]);
      assert RowLengths(input, row + 1) == RowLengths(input, row) + [input.RowLength(row)];
    }
    if !input.validity[listIdx] {
      result.validity[row] := false;
      if f == ListFilter {
        info.entryLengths := info.entryLengths + [0];
      }
      return;
    }
    match f {
      case ListFilter =>
        info.entryLengths := info.entryLengths + [entry.length];
      case ListTransform =>
        result.entries[row] := ListEntry(offset, entry.length);
        offset' := offset + entry.length;
    }
  }

  /** The row loop of `ExecuteLambda`; the last batch is still pending when it ends. */
  method ExecuteRows<V>(f: Functor, result: ResultVector<V>, info: ListFilterInfo, exec: LambdaExecuteInfo<V>,
                        lambda: Lambda<V>, input: Input<V>, batch: Batch, vectorSize: nat)
    returns (elemCnt: nat, ghost done: seq<Call<V>>, ghost pending: seq<Call<V>>, ghost offset: nat)
    requires input.WellFormed() && 1 <= vectorSize && batch.WellFormed(vectorSize, |input.columns|)
    requires result.entries.Length == result.validity.Length == input.RowCount()
    requires forall r | 0 <= r < input.RowCount() :: result.validity[r]
    requires Progress(f, result, info, lambda, []) && info.entryLengths == []
    modifies exec, info, result`child, result.entries, result.validity, batch.childSel, batch.columnSel, batch.indexVector
    ensures elemCnt == |pending| && Holds(batch, input, pending)
    ensures done + pending == input.Calls(input.RowCount())
    ensures Progress(f, result, info, lambda, done)
    ensures RowsSet(f, result, info, lambda, input, input.RowCount(), offset, old(result.entries[..]))
    ensures forall r | 0 <= r < input.RowCount() :: result.validity[r] == input.RowIsValid(r)
  {
    hide Progress, Kept, CursorAt, Batch.Selects, RowEntry, EntryIs;
    var offset' := 0;
    elemCnt, done, pending := 0, [], [];
    for row := 0 to input.RowCount()
      invariant elemCnt == |pending| <= vectorSize && Holds(batch, input, pending)
      invariant done + pending == input.Calls(row)
      invariant Progress(f, result, info, lambda, done)
      invariant RowsSet(f, result, info, lambda, input, row, offset', old(result.entries[..]))
      invariant forall r | 0 <= r < input.RowCount() :: result.validity[r] == (r < row ==> input.RowIsValid(r))
    {
      offset' := BeginRow(f, result, info, lambda, input, row, offset', done, old(result.entries[..]));
      if !input.validity[input.sel[row]] || input.entries[input.sel[row]].length == 0 {
        continue;
      }
      elemCnt, done, pending :=
        ExecuteRow(f, result, info, exec, elemCnt, input, lambda, batch, vectorSize, row, done, pending);
    }
    offset := offset';
  }

  /** `ExecuteLambda`: the result does not depend on the size of the batches. */
  method ExecuteLambda<V(!new)>(f: Functor, lambda: Lambda<V>, input: Input<V>, vectorSize: nat, result: ResultVector<V>)
    requires input.WellFormed() && 1 <= vectorSize
    requires result.entries.Length == result.validity.Length == input.RowCount()
    requires result.child == [] && forall r | 0 <= r < input.RowCount() :: result.validity[r]
    modifies result`child, result.entries, result.validity
    ensures forall r | 0 <= r < |input.sel| :: result.validity[r] == input.validity[input.sel[r]]
    ensures forall r | 0 <= r < |input.sel| :: RowIsRight(f, lambda, input, r, result.child, result.entries[r])
    ensures RowsTile(f, input, result.child, result.entries[..])
    ensures result.child == RowResults(f, lambda, input, input.RowCount())
    ensures forall r | 0 <= r < input.RowCount() ::
              result.entries[r] == if f == ListFilter || input.RowIsValid(r)
                                   then RowEntry(f, lambda, input, r) else old(result.entries[r])
  {
    hide Kept, RowResults, RowResult, EntryIs, RowIsRight, RowsTile;
    var info := new ListFilterInfo();
    var exec := new LambdaExecuteInfo<V>();
    var batch := new Batch(vectorSize, |input.columns|);
    var elemCnt;
    ghost var done, pending, offset;
    KeptNothing(lambda);
    elemCnt, done, pending, offset := ExecuteRows(f, result, info, exec, lambda, input, batch, vectorSize);
    StartIsCallCount(input, input.RowCount());
    ExecuteBatch(f, result, info, exec, elemCnt, input, lambda, batch, done, pending);
    ResultsOfCalls(f, lambda, input, input.RowCount());
    if f == ListFilter {
      FilterIsComplete(result, info, lambda, input);
    }
    AllRowsAreRight(f, lambda, input, result.child, result.entries[..]);
    AllRowsTile(f, lambda, input, result.child, result.entries[..]);
  }

  /** A filter cursor that has seen every call has given every row its entry. */
  lemma FilterIsComplete<V>(result: ResultVector<V>, info: ListFilterInfo, lambda: Lambda<V>, input: Input<V>)
    requires input.WellFormed() && result.entries.Length == input.RowCount()
    requires info.entryLengths == RowLengths(input, input.RowCount())
    requires CursorAt(info, result.entries, lambda, input.Calls(input.RowCount()))
    requires info.rowIdx == |info.entryLengths| || info.srcLength < info.entryLengths[info.rowIdx]
    ensures info.rowIdx == input.RowCount()
    ensures forall r | 0 <= r < input.RowCount() :: result.entries[r] == RowEntry(ListFilter, lambda, input, r)
  {
    StartIsCallCount(input, input.RowCount());
    CursorIsAtEnd(lambda, info.entryLengths, input.Calls(input.RowCount()), info.rowIdx, info.srcLength, info.offset, info.length);
    forall r | 0 <= r < input.RowCount()
      ensures result.entries[r] == RowEntry(ListFilter, lambda, input, r)
    {
      assert result.entries[..info.rowIdx][r] == result.entries[r];
      WrittenIsRowEntry(lambda, input, r, result.entries[r]);
    }
  }
}
