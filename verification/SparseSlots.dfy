/** Sorted slot arrays with sentinels: what sorting and binary search make of them. */
module SparseSlots {
  import opened Sequences

  /** UINT16_MAX, the key of an unused slot; parameters are below it. */
  const UNUSED: nat := 0xFFFF

  datatype Slot<V> = Slot(param: nat, value: V)

  ghost predicate Increasing<V(!new)>(s: seq<Slot<V>>, n: nat)
    requires n <= |s|
  {
    forall i, j :: 0 <= i < j < n ==> s[i].param < s[j].param
  }

  ghost predicate Holds<V(!new)>(s: seq<Slot<V>>, n: nat, m: map<nat, V>)
    requires n <= |s|
  {
    forall i :: 0 <= i < n ==> s[i].param < UNUSED && s[i].param in m && m[s[i].param] == s[i].value
  }

  ghost predicate Unused<V(!new)>(s: seq<Slot<V>>, n: nat, zero: V)
    requires n <= |s|
  {
    forall i :: n <= i < |s| ==> s[i] == Slot(UNUSED, zero)
  }

  ghost predicate HasKey<V(!new)>(s: seq<Slot<V>>, n: nat, p: nat)
    requires n <= |s|
  {
    exists i :: 0 <= i < n && s[i].param == p
  }

  /** The first n slots hold the map m in strictly increasing order, and all others are unused. */
  ghost predicate Represents<V(!new)>(s: seq<Slot<V>>, n: nat, m: map<nat, V>, zero: V) {
    && n <= |s|
    && Increasing(s, n) && Holds(s, n, m) && Unused(s, n, zero)
    && forall p :: p in m ==> HasKey(s, n, p)
  }

  ghost function Keys<V>(s: seq<Slot<V>>, n: nat): set<nat>
    requires n <= |s|
  {
    if n == 0 then {} else Keys(s, n - 1) + {s[n - 1].param}
  }

  lemma LastKey<V(!new)>(s: seq<Slot<V>>, n: nat)
    requires 0 < n <= |s| && Increasing(s, n)
    ensures Increasing(s, n - 1) && !HasKey(s, n - 1, s[n - 1].param)
    ensures forall p :: HasKey(s, n, p) <==> HasKey(s, n - 1, p) || p == s[n - 1].param
  {
    forall p ensures HasKey(s, n, p) <==> HasKey(s, n - 1, p) || p == s[n - 1].param {
      if HasKey(s, n, p) {
        var i :| 0 <= i < n && s[i].param == p;
      }
    }
  }

  lemma {:induction false} KeysAre<V(!new)>(s: seq<Slot<V>>, n: nat)
    requires n <= |s| && Increasing(s, n)
    ensures |Keys(s, n)| == n
    ensures forall p :: p in Keys(s, n) <==> HasKey(s, n, p)
    decreases n
  {
    if n > 0 {
      LastKey(s, n);
      hide Increasing, HasKey;
      KeysAre(s, n - 1);
    }
  }

  lemma Size<V(!new)>(s: seq<Slot<V>>, n: nat, m: map<nat, V>, zero: V)
    requires Represents(s, n, m, zero)
    ensures |m| == n
  {
    KeysAre(s, n);
    assert m.Keys == Keys(s, n);
  }

  // ----- sorting -----

  ghost predicate Ascending<V(!new)>(s: seq<Slot<V>>) {
    forall i, j :: 0 <= i < j < |s| ==> s[i].param <= s[j].param
  }

  /** What qsort promises, which says nothing about the order of equal keys. */
  ghost predicate SortedPermutation<V(!new)>(s: seq<Slot<V>>, t: seq<Slot<V>>) {
    Ascending(t) && multiset(t) == multiset(s)
  }

  /** When equal keys mean equal slots, there is one way to sort. */
  lemma {:induction false} OneWayToSort<V(!new)>(s: seq<Slot<V>>, t: seq<Slot<V>>)
    requires Ascending(s) && Ascending(t) && multiset(s) == multiset(t)
    requires forall x, y :: x in s && y in s && x.param == y.param ==> x == y
    ensures s == t
    decreases |s|
  {
    SameSize(s, t);
    if s != [] {
      FirstAgrees(s, t);
      var x := s[0];
      assert s == [x] + s[1..] && t == [x] + t[1..];
      DropFirst(x, s[1..], t[1..]);
      assert Ascending(s[1..]) && Ascending(t[1..]);
      hide Ascending;
      forall a, b | a in s[1..] && b in s[1..] && a.param == b.param ensures a == b {
        assert a in s && b in s;
      }
      OneWayToSort(s[1..], t[1..]);
    }
  }

  lemma SameSize<T>(s: seq<T>, t: seq<T>)
    requires multiset(s) == multiset(t)
    ensures |s| == |t|
  {
    assert |multiset(s)| == |s| && |multiset(t)| == |t|;
  }

  lemma DropFirst<T>(x: T, s: seq<T>, t: seq<T>)
    requires multiset([x] + s) == multiset([x] + t)
    ensures multiset(s) == multiset(t)
  {
    assert multiset(s) == multiset([x] + s) - multiset{x};
    assert multiset(t) == multiset([x] + t) - multiset{x};
  }

  lemma FirstAgrees<V(!new)>(s: seq<Slot<V>>, t: seq<Slot<V>>)
    requires Ascending(s) && Ascending(t) && multiset(s) == multiset(t) && s != [] && t != []
    requires forall x, y :: x in s && y in s && x.param == y.param ==> x == y
    ensures s[0] == t[0]
  {
    assert t[0] in multiset(t) && s[0] in multiset(s);
    var i :| 0 <= i < |s| && s[i] == t[0];
    var j :| 0 <= j < |t| && t[j] == s[0];
  }

  // ----- the slots after each operation -----

  lemma AllDifferent<V(!new)>(s: seq<Slot<V>>, n: nat, m: map<nat, V>, zero: V)
    requires Represents(s, n, m, zero)
    ensures Ascending(s)
    ensures forall x, y :: x in s && y in s && x.param == y.param ==> x == y
  {
  }

  /** e is s with x inserted at k, and one unused slot fewer at n. */
  ghost predicate InsertedAt<V(!new)>(s: seq<Slot<V>>, n: nat, x: Slot<V>, k: nat, e: seq<Slot<V>>) {
    && k <= n < |s| == |e|
    && (forall i {:trigger e[i]} :: 0 <= i < k || n < i < |e| ==> e[i] == s[i])
    && e[k] == x
    && (forall i {:trigger e[i]} :: k < i <= n ==> e[i] == s[i - 1])
  }

  lemma InsertIncreases<V(!new)>(s: seq<Slot<V>>, n: nat, x: Slot<V>, k: nat, e: seq<Slot<V>>)
    requires InsertedAt(s, n, x, k, e) && Increasing(s, n)
    requires (forall i :: 0 <= i < k ==> s[i].param < x.param) && (k < n ==> s[k].param > x.param)
    ensures Increasing(e, n + 1)
  {
  }

  lemma InsertHasKeys<V(!new)>(s: seq<Slot<V>>, n: nat, x: Slot<V>, k: nat, e: seq<Slot<V>>, p: nat)
    requires InsertedAt(s, n, x, k, e) && (p == x.param || HasKey(s, n, p))
    ensures HasKey(e, n + 1, p)
  {
    if p == x.param {
      assert e[k].param == p;
    } else {
      var i :| 0 <= i < n && s[i].param == p;
      assert e[if i < k then i else i + 1].param == p;
    }
  }

  lemma InsertedRepresents<V(!new)>(s: seq<Slot<V>>, n: nat, m: map<nat, V>, zero: V, x: Slot<V>, k: nat,
                                    e: seq<Slot<V>>)
    requires Represents(s, n, m, zero) && x.param < UNUSED && x.param !in m && InsertedAt(s, n, x, k, e)
    requires (forall i :: 0 <= i < k ==> s[i].param < x.param) && (k < n ==> s[k].param > x.param)
    ensures Represents(e, n + 1, m[x.param := x.value], zero)
  {
    InsertIncreases(s, n, x, k, e);
    hide Increasing, HasKey;
    var m' := m[x.param := x.value];
    forall p | p in m' ensures HasKey(e, n + 1, p) {
      InsertHasKeys(s, n, x, k, e, p);
    }
  }

  /** Sorting after a new key was put into the first unused slot inserts it in its place. */
  lemma SortInserts<V(!new)>(s: seq<Slot<V>>, n: nat, m: map<nat, V>, zero: V, x: Slot<V>, t: seq<Slot<V>>)
    requires Represents(s, n, m, zero) && n < |s| && x.param < UNUSED && x.param !in m
    requires SortedPermutation(s[n := x], t)
    ensures Represents(t, n + 1, m[x.param := x.value], zero)
  {
    hide *;
    var k := PlaceIsRight(s, n, m, zero, x.param);
    var e := s[..k] + [x] + s[k..n] + s[n + 1..];
    Inserted(s, n, x, k);
    InsertedRepresents(s, n, m, zero, x, k, e);
    AllDifferent(e, n + 1, m[x.param := x.value], zero);
    Rearranged(s, n, x, k);
    SortedIs(s[n := x], e, t);
  }

  lemma PlaceIsRight<V(!new)>(s: seq<Slot<V>>, n: nat, m: map<nat, V>, zero: V, p: nat) returns (k: nat)
    requires Represents(s, n, m, zero) && p !in m
    ensures k <= n && (forall i :: 0 <= i < k ==> s[i].param < p) && (k < n ==> s[k].param > p)
  {
    k := Place(s[..n], (x: Slot<V>) => x.param, p);
    assert k < n ==> s[k].param in m;
  }

  lemma Inserted<V(!new)>(s: seq<Slot<V>>, n: nat, x: Slot<V>, k: nat)
    requires k <= n < |s|
    ensures InsertedAt(s, n, x, k, s[..k] + [x] + s[k..n] + s[n + 1..])
  {
  }

  lemma SortedIs<V(!new)>(s: seq<Slot<V>>, e: seq<Slot<V>>, t: seq<Slot<V>>)
    requires SortedPermutation(s, t) && Ascending(e) && multiset(e) == multiset(s)
    requires forall x, y :: x in e && y in e && x.param == y.param ==> x == y
    ensures t == e
  {
    OneWayToSort(e, t);
  }

  lemma Rearranged<T>(s: seq<T>, n: nat, x: T, k: nat)
    requires k <= n < |s|
    ensures multiset(s[..k] + [x] + s[k..n] + s[n + 1..]) == multiset(s[n := x])
  {
    assert s[n := x] == s[..k] + s[k..n] + [x] + s[n + 1..];
  }

  /** e is s without the element at k, and one unused slot more at n - 1. */
  ghost predicate RemovedAt<V(!new)>(s: seq<Slot<V>>, n: nat, zero: V, k: nat, e: seq<Slot<V>>) {
    && k < n <= |s| == |e|
    && (forall i {:trigger e[i]} :: 0 <= i < k || n <= i < |e| ==> e[i] == s[i])
    && e[n - 1] == Slot(UNUSED, zero)
    && (forall i {:trigger e[i]} :: k <= i < n - 1 ==> e[i] == s[i + 1])
  }

  lemma RemoveHasKeys<V(!new)>(s: seq<Slot<V>>, n: nat, zero: V, k: nat, e: seq<Slot<V>>, p: nat)
    requires RemovedAt(s, n, zero, k, e) && p != s[k].param && HasKey(s, n, p)
    ensures HasKey(e, n - 1, p)
  {
    var i :| 0 <= i < n && s[i].param == p;
    assert e[if i < k then i else i - 1].param == p;
  }

  lemma RemoveIncreases<V(!new)>(s: seq<Slot<V>>, n: nat, zero: V, k: nat, e: seq<Slot<V>>)
    requires RemovedAt(s, n, zero, k, e) && Increasing(s, n)
    ensures Increasing(e, n - 1)
    ensures forall i :: 0 <= i < n - 1 ==> e[i].param != s[k].param
  {
  }

  lemma RemovedRepresents<V(!new)>(s: seq<Slot<V>>, n: nat, m: map<nat, V>, zero: V, k: nat, e: seq<Slot<V>>)
    requires Represents(s, n, m, zero) && RemovedAt(s, n, zero, k, e)
    ensures Represents(e, n - 1, m - {s[k].param}, zero)
  {
    RemoveIncreases(s, n, zero, k, e);
    hide Increasing, HasKey;
    var m' := m - {s[k].param};
    forall p | p in m' ensures HasKey(e, n - 1, p) {
      RemoveHasKeys(s, n, zero, k, e, p);
    }
  }

  lemma GapMoved<T>(s: seq<T>, n: nat, x: T, k: nat)
    requires k < n <= |s|
    ensures multiset(s[..k] + s[k + 1..n] + [x] + s[n..]) == multiset(s[k := x])
  {
    assert s[k := x] == s[..k] + [x] + s[k + 1..n] + s[n..];
  }

  /** Sorting after a slot was marked unused closes the gap. */
  lemma SortRemoves<V(!new)>(s: seq<Slot<V>>, n: nat, m: map<nat, V>, zero: V, k: nat, t: seq<Slot<V>>)
    requires Represents(s, n, m, zero) && k < n <= |s|
    requires SortedPermutation(s[k := Slot(UNUSED, zero)], t)
    ensures Represents(t, n - 1, m - {s[k].param}, zero)
  {
    hide *;
    var e := s[..k] + s[k + 1..n] + [Slot(UNUSED, zero)] + s[n..];
    Removed(s, n, zero, k);
    RemovedRepresents(s, n, m, zero, k, e);
    AllDifferent(e, n - 1, m - {s[k].param}, zero);
    GapMoved(s, n, Slot(UNUSED, zero), k);
    SortedIs(s[k := Slot(UNUSED, zero)], e, t);
  }

  lemma Removed<V(!new)>(s: seq<Slot<V>>, n: nat, zero: V, k: nat)
    requires k < n <= |s|
    ensures RemovedAt(s, n, zero, k, s[..k] + s[k + 1..n] + [Slot(UNUSED, zero)] + s[n..])
  {
  }

  lemma Overwritten<V(!new)>(s: seq<Slot<V>>, n: nat, m: map<nat, V>, zero: V, k: nat, x: Slot<V>)
    requires Represents(s, n, m, zero) && k < n && x.param == s[k].param
    ensures Represents(s[k := x], n, m[x.param := x.value], zero)
  {
    var e, m' := s[k := x], m[x.param := x.value];
    assert Increasing(e, n);
    forall p | p in m' ensures HasKey(e, n, p) {
      assert HasKey(s, n, p);
      var i :| 0 <= i < n && s[i].param == p;
      assert e[i].param == p;
    }
    hide Increasing;
  }

  lemma Enlarged<V(!new)>(s: seq<Slot<V>>, n: nat, m: map<nat, V>, zero: V, t: seq<Slot<V>>)
    requires Represents(s, n, m, zero) && |s| <= |t| && forall i :: 0 <= i < |s| ==> t[i] == s[i]
    requires forall i :: |s| <= i < |t| ==> t[i] == Slot(UNUSED, zero)
    ensures Represents(t, n, m, zero)
  {
    forall p | p in m ensures HasKey(t, n, p) {
      assert HasKey(s, n, p);
      var i :| 0 <= i < n && s[i].param == p;
      assert t[i].param == p;
    }
  }

  // ----- the loops over a slot array -----

  function Insert<V>(s: seq<Slot<V>>, x: Slot<V>): seq<Slot<V>> {
    if s == [] || s[|s| - 1].param <= x.param then s + [x] else Insert(s[..|s| - 1], x) + [s[|s| - 1]]
  }

  function Sorted<V>(s: seq<Slot<V>>): seq<Slot<V>> {
    if s == [] then [] else Insert(Sorted(s[..|s| - 1]), s[|s| - 1])
  }

  lemma {:induction false} InsertPermutes<V(!new)>(s: seq<Slot<V>>, x: Slot<V>)
    ensures multiset(Insert(s, x)) == multiset(s) + multiset{x}
    decreases |s|
  {
    if s != [] && s[|s| - 1].param > x.param {
      InsertPermutes(s[..|s| - 1], x);
      assert s == s[..|s| - 1] + [s[|s| - 1]];
    }
  }

  lemma AscendingSnoc<V(!new)>(s: seq<Slot<V>>, x: Slot<V>)
    requires Ascending(s) && forall y :: y in s ==> y.param <= x.param
    ensures Ascending(s + [x])
  {
  }

  lemma {:induction false} InsertAscends<V(!new)>(s: seq<Slot<V>>, x: Slot<V>)
    requires Ascending(s)
    ensures Ascending(Insert(s, x))
    decreases |s|
  {
    if s == [] {
      assert Insert(s, x) == [x];
    } else {
      var init, last := s[..|s| - 1], s[|s| - 1];
      assert forall y :: y in init ==> y.param <= last.param;
      assert Ascending(init);
      hide Ascending;
      if last.param <= x.param {
        assert s == init + [last];
        AscendingSnoc(s, x);
      } else {
        InsertAscends(init, x);
        InsertPermutes(init, x);
        forall y | y in Insert(init, x) ensures y.param <= last.param {
          assert y in multiset(Insert(init, x));
        }
        AscendingSnoc(Insert(init, x), last);
      }
    }
  }

  lemma {:induction false} SortedSorts<V(!new)>(s: seq<Slot<V>>)
    ensures SortedPermutation(s, Sorted(s))
    decreases |s|
  {
    if s != [] {
      var init, last := s[..|s| - 1], s[|s| - 1];
      SortedSorts(init);
      InsertAscends(Sorted(init), last);
      InsertPermutes(Sorted(init), last);
      assert s == init + [last];
    }
  }

  /** Stands for qsort: all that callers know is its contract. */
  method Sort<V(!new)>(slots: array<Slot<V>>)
    modifies slots
    ensures SortedPermutation(old(slots[..]), slots[..])
  {
    var t := Sorted(slots[..]);
    ghost var was := slots[..];
    SortedSorts(was);
    SameSize(was, t);
    for i := 0 to slots.Length
      invariant slots[..i] == t[..i]
    {
      slots[i] := t[i];
    }
    assert slots[..] == t;
  }

  /** Binary search among the first n slots; n when the key is not there. */
  method GetIndex<V(!new)>(slots: array<Slot<V>>, n: nat, param: nat) returns (index: nat)
    requires n <= slots.Length && Increasing(slots[..], n)
    ensures index < n ==> slots[index].param == param
    ensures index >= n ==> index == n && !HasKey(slots[..], n, param)
  {
    var left, right := 0, n - 1;
    while left <= right
      invariant 0 <= left <= right + 1 <= n
      invariant forall i :: 0 <= i < left ==> slots[i].param < param
      invariant forall i :: right < i < n ==> slots[i].param > param
    {
      var mid := (left + right) / 2;
      Compare(slots[..], n, mid);
      if slots[mid].param == param {
        return mid;
      } else if slots[mid].param < param {
        left := mid + 1;
      } else {
        right := mid - 1;
      }
    }
    index := n;
  }

  lemma Compare<V(!new)>(s: seq<Slot<V>>, n: nat, mid: nat)
    requires mid < n <= |s| && Increasing(s, n)
    ensures forall i :: 0 <= i < mid ==> s[i].param < s[mid].param
    ensures forall i :: mid < i < n ==> s[mid].param < s[i].param
  {
  }
}
