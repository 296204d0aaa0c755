/**
 * `OptionVec<T>`: a vector of optional slots in which insertion reuses the lowest empty
 * slot and deletion leaves a hole, so an element keeps its index for its whole life.
 */
module Structs {
  import opened Wrappers

  datatype OptionVec<T> = OptionVec(slots: seq<Option<T>>)

  /** `OptionVec::new`: no slots at all. */
  function Empty<T>(): (r: OptionVec<T>)
    ensures Len(r) == 0 && Count(r) == 0
  {
    OptionVec([])
  }

  /** `len`: the number of slots, occupied or not. */
  function Len<T>(v: OptionVec<T>): nat {
    |v.slots|
  }

  /** `Index`: the slot at `i`; an index past the end panics in the source. */
  function Index<T>(v: OptionVec<T>, i: nat): Option<T>
    requires i < Len(v)
  {
    v.slots[i]
  }

  /** The number of occupied slots (the source's `count`, absent from this revision of the struct). */
  function Count<T>(v: OptionVec<T>): (r: nat)
    ensures r <= Len(v)
  {
    CountSome(v.slots)
  }

  function CountSome<T>(s: seq<Option<T>>): (r: nat)
    ensures r <= |s|
  {
    if s == [] then 0 else CountSome(s[..|s| - 1]) + (if s[|s| - 1].Some? then 1 else 0)
  }

  /** The lowest empty slot, or `None` when every slot is occupied: the reference for `insert`'s search. */
  function FirstFree<T>(s: seq<Option<T>>): (r: Option<nat>)
    ensures r.Some? ==> r.value < |s| && s[r.value].None? && forall j :: 0 <= j < r.value ==> s[j].Some?
    ensures r.None? ==> forall j :: 0 <= j < |s| ==> s[j].Some?
  {
    if s == [] then None
    else if s[0].None? then Some(0)
    else
      var rest := FirstFree(s[1..]);
      if rest.None? then None else Some(rest.value + 1)
  }

  /**
   * `insert`: scan for the first empty slot and fill it, or push onto the end when there
   * is none; the index written is returned.
   */
  method Insert<T>(v: OptionVec<T>, element: T) returns (r: OptionVec<T>, index: nat)
    ensures index <= Len(v) && index < Len(r)
    ensures r.slots[index] == Some(element)
    ensures forall j :: 0 <= j < index ==> v.slots[j].Some?
    ensures index < Len(v) ==> v.slots[index].None? && Len(r) == Len(v)
    ensures index == Len(v) ==> Len(r) == Len(v) + 1
    ensures forall j :: 0 <= j < Len(v) && j != index ==> r.slots[j] == v.slots[j]
  {
    var i := 0;
    while i < |v.slots| && v.slots[i].Some?
      invariant 0 <= i <= |v.slots|
      invariant forall j :: 0 <= j < i ==> v.slots[j].Some?
    {
      i := i + 1;
    }
    if i < |v.slots| {
      r := OptionVec(v.slots[i := Some(element)]);
    } else {
      r := OptionVec(v.slots + [Some(element)]);
    }
    index := i;
  }

  /** The search loop of `insert` finds exactly the reference `FirstFree` slot. */
  lemma {:induction false} InsertUsesFirstFree<T>(s: seq<Option<T>>, index: nat)
    requires index <= |s|
    requires index < |s| ==> s[index].None?
    requires forall j :: 0 <= j < index ==> s[j].Some?
    ensures FirstFree(s) == (if index < |s| then Some(index) else None)
  {
    if s != [] && s[0].Some? {
      InsertUsesFirstFree(s[1..], index - 1);
    }
  }

  /** `clear`: empties every slot and keeps the length. */
  method Clear<T>(v: OptionVec<T>) returns (r: OptionVec<T>)
    ensures Len(r) == Len(v)
    ensures forall j :: 0 <= j < Len(r) ==> r.slots[j].None?
  {
    var slots := v.slots;
    for i := 0 to |slots|
      invariant |slots| == |v.slots|
      invariant forall j :: 0 <= j < i ==> slots[j].None?
    {
      slots := slots[i := None];
    }
    r := OptionVec(slots);
  }

  /** `get_element`: no index gives nothing, else the content of the slot. */
  function GetElement<T>(v: OptionVec<T>, index: Option<nat>): (r: Option<T>)
    requires index.Some? ==> index.value < Len(v)
    ensures index.None? ==> r.None?
    ensures index.Some? ==> r == v.slots[index.value]
  {
    match index
    case Some(i) => Index(v, i)
    case None => None
  }

  /**
   * `two_mut_refs`: split the slots just after the smaller index and take the last slot
   * of the first half and the matching slot of the second half. Equal indices underflow
   * the second-half offset in the source.
   */
  function TwoMutRefs<T>(v: OptionVec<T>, index1: nat, index2: nat): (r: (Option<T>, Option<T>))
    requires index1 != index2 && index1 < Len(v) && index2 < Len(v)
    ensures r == (v.slots[index1], v.slots[index2])
  {
    if index1 < index2 then
      var first, second := v.slots[..index1 + 1], v.slots[index1 + 1..];
      (first[|first| - 1], second[index2 - index1 - 1])
    else
      var first, second := v.slots[..index2 + 1], v.slots[index2 + 1..];
      (second[index1 - index2 - 1], first[|first| - 1])
  }

  /** `delete`, as the UI code uses it: empty the slot at `i`. */
  function Delete<T>(v: OptionVec<T>, i: nat): (r: OptionVec<T>)
    requires i < Len(v)
    ensures Len(r) == Len(v) && r.slots[i].None?
    ensures forall j :: 0 <= j < Len(v) && j != i ==> r.slots[j] == v.slots[j]
  {
    OptionVec(v.slots[i := None])
  }

  /** Replacing one slot changes the occupied count by the difference of the two slots. */
  lemma {:induction false} CountUpdate<T>(s: seq<Option<T>>, i: nat, x: Option<T>)
    requires i < |s|
    ensures CountSome(s[i := x]) + (if s[i].Some? then 1 else 0)
         == CountSome(s) + (if x.Some? then 1 else 0)
  {
    var t := s[i := x];
    if i == |s| - 1 {
      assert t[..|t| - 1] == s[..|s| - 1];
    } else {
      assert t[..|t| - 1] == s[..|s| - 1][i := x];
      CountUpdate(s[..|s| - 1], i, x);
    }
  }

  /** Inserting occupies exactly one more slot. */
  lemma InsertCounts<T>(v: OptionVec<T>, r: OptionVec<T>, index: nat, element: T)
    requires index <= Len(v)
    requires index < Len(v) ==> v.slots[index].None? && r.slots == v.slots[index := Some(element)]
    requires index == Len(v) ==> r.slots == v.slots + [Some(element)]
    ensures Count(r) == Count(v) + 1
  {
    if index < Len(v) {
      CountUpdate(v.slots, index, Some(element));
    } else {
      assert r.slots[..|r.slots| - 1] == v.slots;
    }
  }

  /** Deleting an occupied slot frees exactly one slot; deleting an empty one changes nothing. */
  lemma DeleteCounts<T>(v: OptionVec<T>, i: nat)
    requires i < Len(v)
    ensures Count(Delete(v, i)) == if v.slots[i].Some? then Count(v) - 1 else Count(v)
  {
    CountUpdate(v.slots, i, None);
  }

  /** A sequence of empty slots holds nothing. */
  lemma {:induction false} EmptySlotsCountZero<T>(s: seq<Option<T>>)
    requires forall j :: 0 <= j < |s| ==> s[j].None?
    ensures CountSome(s) == 0
  {
    if s != [] {
      EmptySlotsCountZero(s[..|s| - 1]);
    }
  }

  /** After `clear`, nothing is occupied and the next insert reuses slot 0 when there is one. */
  lemma ClearedIsEmpty<T>(r: OptionVec<T>)
    requires forall j :: 0 <= j < Len(r) ==> r.slots[j].None?
    ensures Count(r) == 0
    ensures Len(r) > 0 ==> FirstFree(r.slots) == Some(0)
  {
    EmptySlotsCountZero(r.slots);
  }
}
