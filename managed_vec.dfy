/** `ManagedVec<T>`: a small slab of optional cells with recycling of empty cells.

    An element is found by the index it was given when pushed, which it also stores in itself (the
    `ManagedElement` capability), so that other structures can keep the index as a cheap pointer.
    `push` fills the lowest empty cell or appends one; `remove` empties a cell, clears the
    element's index and drops the empty cells left at the end.

    The first part states the behaviour over the cells (a `seq` of `Option`s); the class below keeps
    the cells and the live counter `someLen` and is proved against those functions.
 */
module BasicTypes {
  import opened Wrappers

  /** The index type, `u8`. */
  type ManagedVecUSize = i: nat | i < 256

  /** The most live elements the `u8` counter can count. */
  const MaxLen: nat := 255

  /** A stored element: the index the registry last wrote into it (`idx`/`set_idx` of
      `ManagedElement`) and the rest of its data. */
  datatype Managed<T> = Managed(idx: Option<ManagedVecUSize>, payload: T)
  {
    /** `set_idx`: only the index changes. */
    function SetIdx(index: Option<ManagedVecUSize>): (e: Managed<T>)
      ensures e.idx == index && e.payload == payload
      ensures e == Managed(index, payload)
    {
      this.(idx := index)
    }
  }

  type Cells<T> = seq<Option<Managed<T>>>

  // ---------------------------------------------------------------- the cells and their invariants

  /** Number of occupied cells. */
  function CountSome<T>(cells: Cells<T>): (n: nat)
    ensures n <= |cells|
  {
    if cells == [] then 0
    else CountSome(cells[..|cells| - 1]) + (if cells[|cells| - 1].Some? then 1 else 0)
  }

  predicate NoTrailingNone<T>(cells: Cells<T>)
  {
    cells == [] || cells[|cells| - 1].Some?
  }

  predicate HasIdx<T>(e: Managed<T>, i: int)
  {
    e.idx.Some? && e.idx.value == i
  }

  /** Every live element knows its own position. */
  predicate IdxMatchesPosition<T>(cells: Cells<T>)
  {
    forall i :: 0 <= i < |cells| && cells[i].Some? ==> HasIdx(cells[i].value, i)
  }

  /** What holds of the cells between operations: every position fits the index type, there is no
      empty cell at the end, and every live element's index is its position. */
  predicate Wf<T>(cells: Cells<T>)
  {
    |cells| <= MaxLen && NoTrailingNone(cells) && IdxMatchesPosition(cells)
  }

  /** The lowest empty cell, or the length when every cell is occupied. */
  function FirstFree<T>(cells: Cells<T>): (r: nat)
    ensures r <= |cells|
    ensures forall j :: 0 <= j < r ==> cells[j].Some?
    ensures r < |cells| ==> cells[r].None?
  {
    if cells == [] || cells[0].None? then 0 else 1 + FirstFree(cells[1..])
  }

  /** `get`: the element at `index`; nothing when the index is out of range or the cell is empty. */
  function Lookup<T>(cells: Cells<T>, index: ManagedVecUSize): (r: Option<Managed<T>>)
    ensures r.Some? <==> index < |cells| && cells[index].Some?
    ensures r.Some? ==> r == cells[index]
  {
    if index < |cells| then cells[index] else None
  }

  /** The cells after `push(value)`: the lowest empty cell, or a new last cell, holds the value with
      its index set to that position. */
  function Pushed<T>(cells: Cells<T>, value: Managed<T>): (r: Cells<T>)
    requires |cells| <= MaxLen
    ensures CountSome(r) == CountSome(cells) + 1
    ensures |r| == |cells| <==> FirstFree(cells) < |cells|
  {
    var i := FirstFree(cells);
    var x := Some(value.SetIdx(Some(i)));
    if i < |cells| then CountSomeUpdate(cells, i, x); cells[i := x]
    else CountSomeAppend(cells, x); cells + [x]
  }
 
  /** The cells without their trailing empty cells. */
  function Trimmed<T>(cells: Cells<T>): (r: Cells<T>)
    ensures NoTrailingNone(r)
    ensures |r| <= |cells| && r == cells[..|r|]
    ensures forall j :: |r| <= j < |cells| ==> cells[j].None?
  {
    if cells == [] || cells[|cells| - 1].Some? then cells else Trimmed(cells[..|cells| - 1])
  }

  /** The cells after `remove(index)`: unchanged when the index is out of range; otherwise the cell
      is emptied and the trailing empty cells dropped. */
  function Removed<T>(cells: Cells<T>, index: ManagedVecUSize): (r: Cells<T>)
    ensures CountSome(r) == CountSome(cells) - (if Lookup(cells, index).Some? then 1 else 0)
    ensures |r| <= |cells|
  {
    if index < |cells| then
      CountSomeUpdate(cells, index, None);
      CountSomeTrimmed(cells[index := None]);
      Trimmed(cells[index := None])
    else cells
  }

  /** What `remove(index)` returns: the element that was there, with its index cleared. */
  function Taken<T>(cells: Cells<T>, index: ManagedVecUSize): (r: Option<Managed<T>>)
    ensures r.Some? <==> Lookup(cells, index).Some?
    ensures r.Some? ==> r.value.idx.None? && r.value.payload == Lookup(cells, index).value.payload
  {
    match Lookup(cells, index)
    case None => None
    case Some(e) => Some(e.SetIdx(None))
  }

  /** The live `(index, element)` pairs, in ascending index order: what `iter`, `iter_mut` and
      `into_iter` yield. */
  function Live<T>(cells: Cells<T>): (r: seq<(ManagedVecUSize, Managed<T>)>)
    requires |cells| <= MaxLen
    ensures |r| == CountSome(cells)
    ensures forall k :: 0 <= k < |r| ==> r[k].0 < |cells| && cells[r[k].0] == Some(r[k].1)
    ensures forall k, l :: 0 <= k < l < |r| ==> r[k].0 < r[l].0
    ensures forall i :: 0 <= i < |cells| && cells[i].Some? ==> (i, cells[i].value) in r
  {
    if cells == [] then []
    else
      var n := |cells| - 1;
      var front := Live(cells[..n]);
      assert forall i :: 0 <= i < n ==> cells[..n][i] == cells[i];
      front + (if cells[n].Some? then [(n, cells[n].value)] else [])
  }

  // ---------------------------------------------------------------- counting

  lemma {:induction false} CountSomeUpdate<T>(cells: Cells<T>, i: nat, x: Option<Managed<T>>)
    requires i < |cells|
    ensures CountSome(cells[i := x]) + (if cells[i].Some? then 1 else 0)
         == CountSome(cells) + (if x.Some? then 1 else 0)
  {
    var n := |cells| - 1;
    if i < n {
      assert cells[i := x][..n] == cells[..n][i := x];
      CountSomeUpdate(cells[..n], i, x);
    } else {
      assert cells[i := x][..n] == cells[..n];
    }
  }

  lemma CountSomeAppend<T>(cells: Cells<T>, x: Option<Managed<T>>)
    ensures CountSome(cells + [x]) == CountSome(cells) + (if x.Some? then 1 else 0)
  {
    assert (cells + [x])[..|cells|] == cells;
  }

  /** Dropping empty cells from the end does not change the count. */
  lemma {:induction false} CountSomeTrimmed<T>(cells: Cells<T>)
    ensures CountSome(Trimmed(cells)) == CountSome(cells)
    decreases |cells|
  {
    if cells != [] && cells[|cells| - 1].None? {
      CountSomeTrimmed(cells[..|cells| - 1]);
    }
  }

  /** No empty cell at all means the count is the length. */
  lemma {:induction false} CountSomeFull<T>(cells: Cells<T>)
    requires forall j :: 0 <= j < |cells| ==> cells[j].Some?
    ensures CountSome(cells) == |cells|
  {
    if cells != [] {
      CountSomeFull(cells[..|cells| - 1]);
    }
  }

  /** The count is zero exactly when every cell is empty. */
  lemma {:induction false} CountSomeZero<T>(cells: Cells<T>)
    ensures CountSome(cells) == 0 <==> forall j :: 0 <= j < |cells| ==> cells[j].None?
  {
    if cells != [] {
      var n := |cells| - 1;
      CountSomeZero(cells[..n]);
      if CountSome(cells) == 0 {
        forall j | 0 <= j < |cells| ensures cells[j].None? {
          if j < n { assert cells[..n][j] == cells[j]; }
        }
      }
    }
  }

  // ---------------------------------------------------------------- push

  /** `push` keeps the invariants and adds one live element. */
  lemma PushPreservesWf<T>(cells: Cells<T>, value: Managed<T>)
    requires Wf(cells) && CountSome(cells) < MaxLen
    ensures Wf(Pushed(cells, value))
    ensures CountSome(Pushed(cells, value)) == CountSome(cells) + 1
  {
    var i := FirstFree(cells);
    var x := Some(value.SetIdx(Some(i)));
    if i < |cells| {
      CountSomeUpdate(cells, i, x);
    } else {
      CountSomeFull(cells);
      CountSomeAppend(cells, x);
    }
  }

  /** `push` puts the value in the lowest empty cell, or appends it when none is empty; the element
      found there carries its index, and every other cell is as it was. */
  lemma PushPlacesLowest<T>(cells: Cells<T>, value: Managed<T>)
    requires Wf(cells) && CountSome(cells) < MaxLen
    ensures var i := FirstFree(cells);
      && Lookup(Pushed(cells, value), i) == Some(value.SetIdx(Some(i)))
      && HasIdx(Lookup(Pushed(cells, value), i).value, i)
      && (i < |cells| ==> |Pushed(cells, value)| == |cells|)
      && (i == |cells| ==> |Pushed(cells, value)| == |cells| + 1)
      && forall j :: 0 <= j < |cells| && j != i ==> Pushed(cells, value)[j] == cells[j]
  {
    var i := FirstFree(cells);
    if i == |cells| {
      CountSomeFull(cells);
    }
  }

  // ---------------------------------------------------------------- remove

  lemma {:induction false} TrimmedKeepsIdx<T>(cells: Cells<T>)
    requires IdxMatchesPosition(cells)
    ensures IdxMatchesPosition(Trimmed(cells))
  {
    var r := Trimmed(cells);
    forall i | 0 <= i < |r| && r[i].Some? ensures HasIdx(r[i].value, i) {
      assert r[i] == cells[i];
    }
  }

  /** `remove` keeps the invariants; the count drops by one exactly when the cell was occupied. */
  lemma RemovePreservesWf<T>(cells: Cells<T>, index: ManagedVecUSize)
    requires Wf(cells)
    ensures Wf(Removed(cells, index))
    ensures CountSome(Removed(cells, index)) == CountSome(cells) - (if Taken(cells, index).Some? then 1 else 0)
  {
    if index < |cells| {
      var c := cells[index := None];
      CountSomeUpdate(cells, index, None);
      CountSomeTrimmed(c);
      TrimmedKeepsIdx(c);
    }
  }

  /** After `remove(index)` nothing is found at `index` and every other element is found where it
      was. Removing an empty or out-of-range index changes nothing. */
  lemma RemoveEmptiesOnly<T>(cells: Cells<T>, index: ManagedVecUSize)
    requires Wf(cells)
    ensures Lookup(Removed(cells, index), index).None?
    ensures forall j: ManagedVecUSize :: j != index ==> Lookup(Removed(cells, index), j) == Lookup(cells, j)
    ensures Lookup(cells, index).None? ==> Removed(cells, index) == cells
  {
    if index < |cells| {
      var c := cells[index := None];
      var r := Trimmed(c);
      forall j: ManagedVecUSize | j != index ensures Lookup(r, j) == Lookup(cells, j) {
        if j < |r| {
          assert r[j] == c[j];
        } else if j < |cells| {
          assert c[j].None?;
        }
      }
      if cells[index].None? {
        assert c == cells;
      }
    }
  }

  /** A removed index is the one the next `push` gets back, when no lower cell was empty (as in a
      registry with no empty cell). */
  lemma RemoveThenPushRecycles<T>(cells: Cells<T>, index: ManagedVecUSize)
    requires Wf(cells) && Lookup(cells, index).Some?
    requires forall j :: 0 <= j < index ==> cells[j].Some?
    ensures CountSome(Removed(cells, index)) < MaxLen
    ensures FirstFree(Removed(cells, index)) == index
  {
    RemovePreservesWf(cells, index);
    var c := cells[index := None];
    var r := Trimmed(c);
    if index > 0 {
      assert c[index - 1].Some?;
    }
    assert |r| >= index;
    if |r| > index {
      assert r[index] == c[index];
    }
  }

  /** With every cell occupied, `push` appends. */
  lemma PushOnFullAppends<T>(cells: Cells<T>, value: Managed<T>)
    requires |cells| < MaxLen && forall j :: 0 <= j < |cells| ==> cells[j].Some?
    ensures FirstFree(cells) == |cells|
    ensures Pushed(cells, value) == cells + [Some(value.SetIdx(Some(|cells|)))]
  {
  }

  /** Remove at an occupied index with no empty cell below it, remove there again, then push: the
      first removal returns the element without its index, the second finds nothing and changes
      nothing, and the push gets the index back. */
  lemma RemoveTwiceThenPush<T>(cells: Cells<T>, index: ManagedVecUSize)
    requires Wf(cells) && Lookup(cells, index).Some?
    requires forall j :: 0 <= j < index ==> cells[j].Some?
    ensures Taken(cells, index) == Some(cells[index].value.SetIdx(None))
    ensures Taken(Removed(cells, index), index) == None
    ensures Removed(Removed(cells, index), index) == Removed(cells, index)
    ensures CountSome(Removed(cells, index)) == CountSome(cells) - 1
    ensures |Removed(cells, index)| <= MaxLen
    ensures FirstFree(Removed(cells, index)) == index
  {
    RemoveEmptiesOnly(cells, index);
    RemoveEmptiesOnly(Removed(cells, index), index);
    RemoveThenPushRecycles(cells, index);
  }

  // ---------------------------------------------------------------- the counter as compiled unchecked

  /** `some_len += 1` on a `u8` in a build without overflow checks: it wraps to 0 after 255. */
  function WrappingIncrement(n: ManagedVecUSize): (r: ManagedVecUSize)
    ensures n < MaxLen ==> r == n + 1
    ensures n == MaxLen ==> r == 0
  {
    (n + 1) % 256
  }

  /** With 255 cells all occupied, an unchecked `push` stores a 256th element while the wrapped
      counter reads 0, so `len()` and `is_empty()` would report an empty registry. */
  lemma UncheckedPushLosesCount<T>(cells: Cells<T>, value: Managed<T>)
    requires Wf(cells) && |cells| == MaxLen
    requires forall j :: 0 <= j < |cells| ==> cells[j].Some?
    ensures CountSome(Pushed(cells, value)) == MaxLen + 1
    ensures WrappingIncrement(CountSome(cells)) == 0
  {
    CountSomeFull(cells);
    CountSomeAppend(cells, Some(value.SetIdx(Some(MaxLen))));
  }

  // ---------------------------------------------------------------- the registry object

  class ManagedVec<T> {
    var data: Cells<T>
    var someLen: ManagedVecUSize

    ghost predicate Valid()
      reads this
    {
      Wf(data) && someLen == CountSome(data)
    }

    /** `new`: no cells, nothing live. */
    constructor ()
      ensures Valid() && data == [] && someLen == 0
    {
      data := [];
      someLen := 0;
    }

    /** `push`: fills the lowest empty cell or appends one, writes the chosen index into the element
        and returns it. With 255 elements live the `u8` counter is full: the capacity error is
        `None`, and nothing changes. */
    method Push(value: Managed<T>) returns (r: Option<ManagedVecUSize>)
      requires Valid()
      modifies this
      ensures Valid()
      ensures old(someLen) == MaxLen ==> r == None && data == old(data) && someLen == old(someLen)
      ensures old(someLen) < MaxLen ==>
        && r == Some(FirstFree(old(data)))
        && data == Pushed(old(data), value)
        && someLen == old(someLen) + 1
        && Get(r.value) == Some(value.SetIdx(r))
    {
      if someLen == MaxLen {
        return None;
      }
      PushPreservesWf(data, value);
      PushPlacesLowest(data, value);
      someLen := someLen + 1;
      for index := 0 to |data|
        invariant data == old(data) && someLen == old(someLen) + 1
        invariant forall j :: 0 <= j < index ==> data[j].Some?
      {
        if data[index].None? {
          data := data[index := Some(value.SetIdx(Some(index)))];
          return Some(index);
        }
      }
      var index := |data|;
      data := data + [Some(value.SetIdx(Some(index)))];
      return Some(index);
    }

    /** `get`: the element at `index`, which reports `index` as its own; nothing when out of range or
        empty. */
    function Get(index: ManagedVecUSize): (r: Option<Managed<T>>)
      reads this
      requires Valid()
      ensures r == Lookup(data, index)
      ensures r.Some? <==> index < |data| && data[index].Some?
      ensures r.Some? ==> HasIdx(r.value, index)
    {
      Lookup(data, index)
    }

    /** `get_mut`: the caller's write `update` goes to the payload of the element at `index` (its
        index is the registry's); out of range or empty, nothing is found and nothing changes. */
    method GetMut(index: ManagedVecUSize, update: T -> T) returns (r: Option<Managed<T>>)
      requires Valid()
      modifies this
      ensures Valid() && someLen == old(someLen)
      ensures old(Get(index)).None? ==> r == None && data == old(data)
      ensures old(Get(index)).Some? ==>
        && r == Some(old(data)[index].value.(payload := update(old(data)[index].value.payload)))
        && data == old(data)[index := r]
        && Get(index) == r
    {
      r := Lookup(data, index);
      if r.Some? {
        r := Some(r.value.(payload := update(r.value.payload)));
        CountSomeUpdate(data, index, r);
        data := data[index := r];
      }
    }

    /** `remove`: empties the cell, drops trailing empty cells and returns the element with its index
        cleared; out of range or already empty, nothing is returned and the count stays. */
    method Remove(index: ManagedVecUSize) returns (r: Option<Managed<T>>)
      requires Valid()
      modifies this
      ensures Valid()
      ensures data == Removed(old(data), index)
      ensures r == Taken(old(data), index)
      ensures r.Some? ==> someLen == old(someLen) - 1 && r.value.idx.None?
      ensures r.None? ==> someLen == old(someLen) && data == old(data)
      ensures Get(index).None?
    {
      RemovePreservesWf(data, index);
      RemoveEmptiesOnly(data, index);
      if index >= |data| {
        return None;
      }
      r := data[index];
      data := data[index := None];
      while data != [] && data[|data| - 1].None?
        invariant Trimmed(data) == Removed(old(data), index)
        invariant someLen == old(someLen)
        decreases |data|
      {
        data := data[..|data| - 1];
      }
      assert data == Removed(old(data), index);
      assert r == Lookup(old(data), index);
      if r.Some? {
        someLen := someLen - 1;
        r := Some(r.value.SetIdx(None));
      }
    }

    /** `len`: the number of live elements, kept in the counter. */
    function Len(): (r: ManagedVecUSize)
      reads this
      requires Valid()
      ensures r == CountSome(data) && r == |Live(data)|
    {
      someLen
    }

    /** `is_empty`: no live element, which (with no trailing empty cell) means no cell at all. */
    function IsEmpty(): (r: bool)
      reads this
      requires Valid()
      ensures r <==> forall j :: 0 <= j < |data| ==> data[j].None?
      ensures r <==> data == []
    {
      CountSomeZero(data);
      someLen == 0
    }

    /** `iter`: the live pairs in ascending index order, as many as `len()`, each element reporting
        its own index. */
    function Iter(): (r: seq<(ManagedVecUSize, Managed<T>)>)
      reads this
      requires Valid()
      ensures |r| == Len()
      ensures forall k :: 0 <= k < |r| ==> HasIdx(r[k].1, r[k].0) && Get(r[k].0) == Some(r[k].1)
      ensures forall k, l :: 0 <= k < l < |r| ==> r[k].0 < r[l].0
      ensures forall i: ManagedVecUSize :: Get(i).Some? ==> (i, Get(i).value) in r
    {
      Live(data)
    }
  }

  // ---------------------------------------------------------------- clients

  /** The counting sequence of the unit test: two pushes, a removal, the same removal again, then
      the other removal. The result is the counter `len()` returns after each step, starting from `new`. */
  method LenScenario<T>(x: T, y: T) returns (lens: seq<nat>)
    ensures lens == [0, 1, 2, 1, 1, 0]
  {
    var v;
    v, lens := PushTwo(x, y);
    var r := v.Remove(0);
    assert v.data == [None, Some(Managed(Some(1), y))];
    var afterFirst := v.someLen;
    assert afterFirst == 1;
    r := v.Remove(0);
    var afterAgain := v.someLen;
    assert afterAgain == 1;
    r := v.Remove(1);
    var afterSecond := v.someLen;
    assert afterSecond == 0;
    lens := lens + [afterFirst, afterAgain, afterSecond];
  }

  /** The first half of the counting sequence: `new`, then two pushes, with `len()` after each. */
  method PushTwo<T>(x: T, y: T) returns (v: ManagedVec<T>, lens: seq<nat>)
    ensures fresh(v) && v.Valid()
    ensures v.data == [Some(Managed(Some(0), x)), Some(Managed(Some(1), y))]
    ensures lens == [0, 1, 2]
  {
    v := new ManagedVec<T>();
    var empty := v.someLen;
    PushOnFullAppends(v.data, Managed(None, x));
    var i := v.Push(Managed(None, x));
    assert v.data == [Some(Managed(Some(0), x))];
    var one := v.someLen;
    assert one == 1;
    PushOnFullAppends(v.data, Managed(None, y));
    var j := v.Push(Managed(None, y));
    assert v.data == [Some(Managed(Some(0), x))] + [Some(Managed(Some(1), y))];
    var two := v.someLen;
    assert two == 2;
    lens := [empty, one, two];
  }

  /** The recycling check of the unit test, for any number of values and any position `i` among them
      (the test uses five values and every `i` from 0 to 4): push the values into a new registry,
      remove the one at `i`, remove at `i` again, then push `extra`. The `len()` read after each of
      those four steps is returned too. */
  method RecycleScenario<T>(values: seq<T>, i: ManagedVecUSize, extra: T)
    returns (removed: Option<Managed<T>>, removedAgain: Option<Managed<T>>,
             recycled: Option<ManagedVecUSize>, lens: seq<nat>)
    requires i < |values| <= MaxLen
    ensures removed == Some(Managed(None, values[i]))
    ensures removedAgain == None
    ensures recycled == Some(i)
    ensures lens == [|values|, |values| - 1, |values| - 1, |values|]
  {
    var v := PushAll(values);
    RemoveTwiceThenPush(v.data, i);
    var full := v.someLen;
    removed := v.Remove(i);
    var afterRemove := v.someLen;
    assert afterRemove == |values| - 1;
    removedAgain := v.Remove(i);
    var afterRemoveAgain := v.someLen;
    assert afterRemoveAgain == |values| - 1;
    recycled := v.Push(Managed(None, extra));
    var afterPush := v.someLen;
    assert afterPush == |values|;
    lens := [full, afterRemove, afterRemoveAgain, afterPush];
  }

  /** A new registry after pushing `values` in order: value k sits in cell k and carries index k. */
  method PushAll<T>(values: seq<T>) returns (v: ManagedVec<T>)
    requires |values| <= MaxLen
    ensures fresh(v) && v.Valid() && |v.data| == |values| && v.someLen == |values|
    ensures forall k :: 0 <= k < |values| ==> v.data[k] == Some(Managed(Some(k), values[k]))
  {
    v := new ManagedVec<T>();
    ghost var cells: Cells<T> := [];
    for j := 0 to |values|
      invariant v.Valid() && v.data == cells && v.someLen == j && |cells| == j
      invariant forall k :: 0 <= k < j ==> cells[k] == Some(Managed(Some(k), values[k]))
    {
      PushOnFullAppends(cells, Managed(None, values[j]));
      var id := v.Push(Managed(None, values[j]));
      cells := cells + [Some(Managed(Some(j), values[j]))];
    }
  }
}
