/** Sparse parameter layers: sorted slot arrays that behave as maps. */
module SparseLayers {
  import opened SparseSlots

  lemma FoundOrNot<V(!new)>(s: seq<Slot<V>>, n: nat, m: map<nat, V>, zero: V, param: nat, index: nat)
    requires Represents(s, n, m, zero)
    requires index < n ==> s[index].param == param
    requires index >= n ==> !HasKey(s, n, param)
    ensures index < n <==> param in m
    ensures index < n ==> m[param] == s[index].value
  {
    if param in m {
      assert HasKey(s, n, param);
    }
  }

  /** The slot of a key of the map, or n. */
  method IndexOf<V(!new)>(slots: array<Slot<V>>, n: nat, ghost m: map<nat, V>, ghost zero: V, param: nat)
    returns (index: nat)
    requires Represents(slots[..], n, m, zero)
    ensures index < n <==> param in m
    ensures index < n ==> index < slots.Length && slots[index].param == param && slots[index].value == m[param]
  {
    Searchable(slots[..], n, m, zero);
    hide Represents, Increasing, HasKey;
    index := GetIndex(slots, n, param);
    FoundOrNot(slots[..], n, m, zero, param, index);
  }

  lemma Searchable<V(!new)>(s: seq<Slot<V>>, n: nat, m: map<nat, V>, zero: V)
    requires Represents(s, n, m, zero)
    ensures n <= |s| && Increasing(s, n)
  {
  }

  lemma AllUnused<V(!new)>(s: seq<Slot<V>>, zero: V)
    requires forall i :: 0 <= i < |s| ==> s[i] == Slot(UNUSED, zero)
    ensures Represents(s, 0, map[], zero)
  {
  }

  class DynamicSparseLayer<V(!new)> {
    const zero: V
    const nGrow: nat
    var slots: array<Slot<V>>     // its length is _n_slots
    var nextSlot: nat
    ghost var contents: map<nat, V>

    ghost predicate Valid()
      reads this, slots
    {
      Represents(slots[..], nextSlot, contents, zero)
    }

    constructor (zero: V, nPrealloc: nat, nGrow: nat, canAllocate: bool)
      ensures Valid() && fresh(slots) && contents == map[] && this.zero == zero && this.nGrow == nGrow
      ensures slots.Length == if canAllocate then nPrealloc else 0
      ensures forall i :: 0 <= i < slots.Length ==> slots[i].param == 0xFFFF
    {
      var unused := Slot(UNUSED, zero);
      var s := new Slot<V>[if canAllocate then nPrealloc else 0](_ => unused);
      AllUnused(s[..], zero);
      this.zero, this.nGrow, slots, nextSlot, contents := zero, nGrow, s, 0, map[];
    }

    /** Fails only when a new key finds all slots taken and the array cannot grow. */
    method Store(param: nat, value: V, canAllocate: bool) returns (ok: bool)
      requires Valid() && param < 0xFFFF
      modifies this, slots
      ensures Valid() && (slots == old(slots) || fresh(slots))
      ensures ok <==> param in old(contents) || |old(contents)| < old(slots.Length)
                      || (old(slots.Length) > 0 && nGrow > 0 && canAllocate)
      ensures contents == if ok then old(contents)[param := value] else old(contents)
    {
      hide Represents;
      Searchable(slots[..], nextSlot, contents, zero);
      Size(slots[..], nextSlot, contents, zero);
      var index := IndexOf(slots, nextSlot, contents, zero, param);
      if index < nextSlot {
        Overwritten(slots[..], nextSlot, contents, zero, index, Slot(param, value));
        ghost var was := slots[..];
        slots[index] := Slot(param, value);
        assert slots[..] == was[index := Slot(param, value)];
        contents := contents[param := value];
        return true;
      }
      if nextSlot >= slots.Length {
        var grown := Grow(canAllocate);
        if !grown {
          return false;
        }
      }
      Append(param, value);
      return true;
    }

    method Append(param: nat, value: V)
      requires Valid() && param < UNUSED && param !in contents && nextSlot < slots.Length
      modifies `nextSlot, `contents, slots
      ensures Valid() && contents == old(contents)[param := value]
    {
      hide Represents, SortedPermutation;
      ghost var was := slots[..];
      slots[nextSlot] := Slot(param, value);
      assert slots[..] == was[nextSlot := Slot(param, value)];
      Sort(slots);
      SortInserts(was, nextSlot, contents, zero, Slot(param, value), slots[..]);
      nextSlot := nextSlot + 1;
      contents := contents[param := value];
    }

    /** A larger array with the same bindings; without room to grow by, the retries change nothing. */
    method Grow(canAllocate: bool) returns (ok: bool)
      requires Valid() && nextSlot == slots.Length
      modifies `slots
      ensures Valid() && (slots == old(slots) || fresh(slots))
      ensures ok <==> nextSlot < slots.Length
      ensures ok <==> old(slots.Length) > 0 && nGrow > 0 && canAllocate
    {
      hide Represents;
      if slots.Length == 0 {
        return false;
      }
      var maxRetries := 5;
      while nextSlot >= slots.Length && maxRetries > 0
        invariant Valid() && (slots == old(slots) || fresh(slots)) && nextSlot <= slots.Length && slots.Length > 0
        invariant 0 <= maxRetries <= 5 && (maxRetries < 5 ==> canAllocate)
        invariant slots.Length == old(slots.Length) + (5 - maxRetries) * nGrow
        invariant maxRetries < 5 && nGrow > 0 ==> nextSlot < slots.Length
        decreases maxRetries
      {
        maxRetries := maxRetries - 1;
        if !canAllocate {
          return false;
        }
        var bigger := Copied();
        Enlarged(slots[..], nextSlot, contents, zero, bigger[..]);
        slots := bigger;
      }
      ok := nextSlot < slots.Length;
    }

    method Copied() returns (bigger: array<Slot<V>>)
      ensures fresh(bigger) && bigger.Length == slots.Length + nGrow
      ensures forall i :: 0 <= i < slots.Length ==> bigger[i] == slots[i]
      ensures forall i :: slots.Length <= i < bigger.Length ==> bigger[i] == Slot(UNUSED, zero)
    {
      var unused := Slot(UNUSED, zero);
      bigger := new Slot<V>[slots.Length + nGrow](_ => unused);
      for i := 0 to slots.Length
        invariant forall k :: 0 <= k < i ==> bigger[k] == slots[k]
        invariant forall k :: slots.Length <= k < bigger.Length ==> bigger[k] == Slot(UNUSED, zero)
      {
        bigger[i] := slots[i];
      }
    }

    method Contains(param: nat) returns (r: bool)
      requires Valid()
      ensures r <==> param in contents
    {
      var index := IndexOf(slots, nextSlot, contents, zero, param);
      r := index < nextSlot;
    }

    /** The own value, or what the parent has. */
    method Get(param: nat, parentValue: V) returns (value: V)
      requires Valid()
      ensures value == if param in contents then contents[param] else parentValue
    {
      var index := IndexOf(slots, nextSlot, contents, zero, param);
      if index < nextSlot {
        return slots[index].value;
      }
      return parentValue;
    }

    method Reset(param: nat)
      requires Valid()
      modifies `nextSlot, `contents, slots
      ensures Valid() && contents == old(contents) - {param}
    {
      hide Represents, SortedPermutation;
      Searchable(slots[..], nextSlot, contents, zero);
      var index := IndexOf(slots, nextSlot, contents, zero, param);
      if index < nextSlot {
        ghost var was := slots[..];
        slots[index] := Slot(UNUSED, zero);
        assert slots[..] == was[index := Slot(UNUSED, zero)];
        Sort(slots);
        SortRemoves(was, nextSlot, contents, zero, index, slots[..]);
        nextSlot := nextSlot - 1;
        contents := contents - {param};
      }
    }

    method SizeOf() returns (n: nat)
      requires Valid()
      ensures n == |contents|
    {
      Size(slots[..], nextSlot, contents, zero);
      n := nextSlot;
    }
  }

  /** The same with a fixed number of slots. */
  class StaticSparseLayer<V(!new)> {
    const zero: V
    const slots: array<Slot<V>>     // its length is N_SLOTS
    var nextSlot: nat
    ghost var contents: map<nat, V>

    ghost predicate Valid()
      reads this, slots
    {
      Represents(slots[..], nextSlot, contents, zero)
    }

    constructor (zero: V, nSlots: nat)
      ensures Valid() && fresh(slots) && contents == map[] && this.zero == zero && slots.Length == nSlots
      ensures forall i :: 0 <= i < slots.Length ==> slots[i].param == 0xFFFF
    {
      var unused := Slot(UNUSED, zero);
      var s := new Slot<V>[nSlots](_ => unused);
      AllUnused(s[..], zero);
      this.zero, slots, nextSlot, contents := zero, s, 0, map[];
    }

    /** A full layer rejects a new key and stays as it is, slot for slot. */
    method Store(param: nat, value: V) returns (ok: bool)
      requires Valid() && param < 0xFFFF
      modifies `nextSlot, `contents, slots
      ensures Valid()
      ensures ok <==> param in old(contents) || |old(contents)| < slots.Length
      ensures contents == if ok then old(contents)[param := value] else old(contents)
      ensures !ok ==> slots[..] == old(slots[..]) && nextSlot == old(nextSlot)
    {
      hide Represents, SortedPermutation;
      Searchable(slots[..], nextSlot, contents, zero);
      Size(slots[..], nextSlot, contents, zero);
      var index := IndexOf(slots, nextSlot, contents, zero, param);
      ghost var was := slots[..];
      if index < nextSlot {
        Overwritten(was, nextSlot, contents, zero, index, Slot(param, value));
        slots[index] := Slot(param, value);
        assert slots[..] == was[index := Slot(param, value)];
      } else if nextSlot < slots.Length {
        slots[nextSlot] := Slot(param, value);
        assert slots[..] == was[nextSlot := Slot(param, value)];
        Sort(slots);
        SortInserts(was, nextSlot, contents, zero, Slot(param, value), slots[..]);
        nextSlot := nextSlot + 1;
      } else {
        return false;
      }
      contents := contents[param := value];
      return true;
    }

    method Get(param: nat, parentValue: V) returns (value: V)
      requires Valid()
      ensures value == if param in contents then contents[param] else parentValue
    {
      var index := IndexOf(slots, nextSlot, contents, zero, param);
      if index < nextSlot {
        return slots[index].value;
      }
      return parentValue;
    }

    method Reset(param: nat)
      requires Valid()
      modifies `nextSlot, `contents, slots
      ensures Valid() && contents == old(contents) - {param}
    {
      hide Represents, SortedPermutation;
      Searchable(slots[..], nextSlot, contents, zero);
      var index := IndexOf(slots, nextSlot, contents, zero, param);
      if index < nextSlot {
        ghost var was := slots[..];
        slots[index] := Slot(UNUSED, zero);
        assert slots[..] == was[index := Slot(UNUSED, zero)];
        Sort(slots);
        SortRemoves(was, nextSlot, contents, zero, index, slots[..]);
        nextSlot := nextSlot - 1;
        contents := contents - {param};
      }
    }
  }
}
