/** The cache of all parameter values, over sparse layers over constant defaults. */
module LayeredParameters {
  import opened BitWords
  import opened SparseLayers
  import opened SparseSlots

  class ExhaustiveLayer<V(!new)> {
    const zero: V
    const values: array<V>
    const ownershipSet: AtomicBitset
    ghost var own: map<nat, V>    // what was stored in this layer and not reset

    ghost predicate Valid()
      reads this, values, ownershipSet, ownershipSet.data
    {
      && ownershipSet.Valid() && ownershipSet.n == values.Length
      && values as object != ownershipSet.data as object
      && own.Keys == ownershipSet.contents
      && forall p :: p in own ==> p < values.Length && values[p] == own[p]
    }

    /** parentValues holds what the parent returns for each parameter. */
    constructor (zero: V, parentValues: seq<V>)
      ensures Valid() && own == map[] && values[..] == parentValues && this.zero == zero
      ensures fresh(values) && fresh(ownershipSet) && fresh(ownershipSet.data)
    {
      var n := |parentValues|;
      var a := new V[n](i requires 0 <= i < |parentValues| => parentValues[i]);
      var bits := new AtomicBitset(n);
      this.zero, values, ownershipSet, own := zero, a, bits, map[];
    }

    method Store(param: nat, value: V) returns (ok: bool)
      requires Valid()
      modifies `own, values, ownershipSet, ownershipSet.data
      ensures Valid()
      ensures ok <==> param < values.Length
      ensures own == if ok then old(own)[param := value] else old(own)
      ensures forall p :: 0 <= p < values.Length && p != param ==> values[p] == old(values[p])
    {
      if param >= values.Length {
        return false;
      }
      values[param] := value;
      ownershipSet.Set(param, true);
      own := own[param := value];
      return true;
    }

    method Contains(param: nat) returns (r: bool)
      requires Valid()
      ensures r <==> param in own
    {
      r := false;
      if param < values.Length {
        r := ownershipSet.Get(param);
      }
    }

    method Get(param: nat) returns (value: V)
      requires Valid()
      ensures value == if param < values.Length then values[param] else zero
    {
      if param >= values.Length {
        return zero;
      }
      return values[param];
    }

    method Reset(param: nat, parentValue: V)
      requires Valid()
      modifies `own, values, ownershipSet, ownershipSet.data
      ensures Valid() && own == old(own) - {param}
      ensures forall p :: 0 <= p < values.Length ==> values[p] == if p == param then parentValue else old(values[p])
    {
      if param >= values.Length {
        return;
      }
      values[param] := parentValue;
      ownershipSet.Set(param, false);
      own := own - {param};
    }

    method Refresh(param: nat, parentValue: V)
      requires Valid() && param < values.Length
      modifies values
      ensures Valid()
      ensures forall p :: 0 <= p < values.Length ==>
        values[p] == if p == param && p !in own then parentValue else old(values[p])
    {
      var owned := Contains(param);
      if !owned {
        values[param] := parentValue;
      }
    }

    method SizeOf() returns (n: nat)
      requires Valid()
      ensures n == |own|
    {
      n := ownershipSet.Count();
      assert |own| == |own.Keys|;
    }
  }

  /** What the layers say about a parameter, the top one first, and then the defaults. */
  ghost function Overlay<V>(maps: seq<map<nat, V>>, defaults: seq<V>, zero: V, p: nat): V {
    if maps == [] then if p < |defaults| then defaults[p] else zero
    else if p in maps[0] then maps[0][p]
    else Overlay(maps[1..], defaults, zero, p)
  }

  lemma {:induction false} OverlayElsewhere<V>(maps: seq<map<nat, V>>, maps': seq<map<nat, V>>, i: nat, q: nat, p: nat,
                                               defaults: seq<V>, zero: V)
    requires |maps| == |maps'| && i < |maps| && q != p
    requires forall j :: 0 <= j < |maps| && j != i ==> maps'[j] == maps[j]
    requires maps'[i] - {q} == maps[i] - {q}
    ensures Overlay(maps', defaults, zero, p) == Overlay(maps, defaults, zero, p)
    decreases i
  {
    assert p in maps'[i] <==> p in maps'[i] - {q};
    assert p in maps[i] <==> p in maps[i] - {q};
    assert p in maps[i] ==> maps[i][p] == (maps[i] - {q})[p] && maps'[i][p] == (maps'[i] - {q})[p];
    if i == 0 {
      assert maps'[1..] == maps[1..];
    } else {
      OverlayElsewhere(maps[1..], maps'[1..], i - 1, q, p, defaults, zero);
    }
  }

  /** The first layer that binds a parameter decides, and the defaults if there is none. */
  lemma {:induction false} OverlayFinds<V>(maps: seq<map<nat, V>>, defaults: seq<V>, zero: V, p: nat, i: nat)
    requires i <= |maps| && forall j :: 0 <= j < i ==> p !in maps[j]
    ensures i < |maps| && p in maps[i] ==> Overlay(maps, defaults, zero, p) == maps[i][p]
    ensures i == |maps| ==> Overlay(maps, defaults, zero, p) == if p < |defaults| then defaults[p] else zero
    decreases i
  {
    if i > 0 {
      OverlayFinds(maps[1..], defaults, zero, p, i - 1);
    }
  }

  ghost function Maps<V(!new)>(layers: seq<DynamicSparseLayer<V>>): (maps: seq<map<nat, V>>)
    reads layers
    ensures |maps| == |layers| && forall i :: 0 <= i < |maps| ==> maps[i] == layers[i].contents
  {
    seq(|layers|, i requires 0 <= i < |layers| reads layers => layers[i].contents)
  }

  ghost predicate LayersValid<V(!new)>(layers: seq<DynamicSparseLayer<V>>)
    reads layers, set l | l in layers :: l.slots
  {
    && (forall i :: 0 <= i < |layers| ==> layers[i].Valid())
    && forall i, j :: 0 <= i < j < |layers| ==> layers[i] != layers[j] && layers[i].slots != layers[j].slots
  }

  /** get() through the parents, from the layer at depth i on. */
  method GetBelow<V(!new)>(layers: seq<DynamicSparseLayer<V>>, defaults: seq<V>, zero: V, i: nat, param: nat)
    returns (value: V)
    requires LayersValid(layers) && i <= |layers|
    ensures value == Overlay(Maps(layers)[i..], defaults, zero, param)
    ensures forall j ::
      && i <= j < |layers| && param in layers[j].contents
      && (forall h :: i <= h < j ==> param !in layers[h].contents) ==>
      value == layers[j].contents[param]
    ensures (forall j :: i <= j < |layers| ==> param !in layers[j].contents) ==>
      value == if param < |defaults| then defaults[param] else zero
    decreases |layers| - i
  {
    if i == |layers| {
      value := if param < |defaults| then defaults[param] else zero;
    } else {
      var parentValue := GetBelow(layers, defaults, zero, i + 1, param);
      value := layers[i].Get(param, parentValue);
      assert Maps(layers)[i..][1..] == Maps(layers)[i + 1..];
    }
  }

  method AllBelow<V(!new)>(layers: seq<DynamicSparseLayer<V>>, defaults: seq<V>, zero: V) returns (values: seq<V>)
    requires LayersValid(layers)
    ensures |values| == |defaults|
    ensures forall p :: 0 <= p < |values| ==> values[p] == Overlay(Maps(layers), defaults, zero, p)
  {
    hide Overlay, LayersValid, Maps;
    values := [];
    for i := 0 to |defaults|
      invariant |values| == i && forall p :: 0 <= p < i ==> values[p] == Overlay(Maps(layers), defaults, zero, p)
    {
      var value := GetBelow(layers, defaults, zero, 0, i);
      assert Maps(layers)[0..] == Maps(layers);
      values := values + [value];
    }
  }

  /** Every cached value that is neither owned nor stale is what the layers below say. */
  ghost predicate Coherent<V>(values: seq<V>, own: set<nat>, stale: set<nat>, maps: seq<map<nat, V>>, defaults: seq<V>,
                              zero: V)
  {
    && |values| == |defaults|
    && forall p :: 0 <= p < |defaults| && p !in own && p !in stale ==> values[p] == Overlay(maps, defaults, zero, p)
  }

  lemma ChangeBelow<V>(values: seq<V>, own: set<nat>, stale: set<nat>, maps: seq<map<nat, V>>, defaults: seq<V>,
                       zero: V, maps': seq<map<nat, V>>, i: nat, q: nat)
    requires Coherent(values, own, stale, maps, defaults, zero) && |maps| == |maps'| && i < |maps|
    requires forall j :: 0 <= j < |maps| && j != i ==> maps'[j] == maps[j]
    requires maps'[i] - {q} == maps[i] - {q}
    ensures Coherent(values, own, stale + {q}, maps', defaults, zero)
  {
    forall p | 0 <= p < |defaults| && p !in own && p !in stale + {q}
      ensures values[p] == Overlay(maps', defaults, zero, p)
    {
      OverlayElsewhere(maps, maps', i, q, p, defaults, zero);
    }
  }

  lemma Renewed<V>(values: seq<V>, own: set<nat>, stale: set<nat>, maps: seq<map<nat, V>>, defaults: seq<V>, zero: V,
                   values': seq<V>, own': set<nat>, q: nat)
    requires Coherent(values, own, stale, maps, defaults, zero) && |values'| == |values| && q < |values|
    requires own' - {q} == own - {q}
    requires forall p :: 0 <= p < |values| && p != q ==> values'[p] == values[p]
    requires q in own' || values'[q] == Overlay(maps, defaults, zero, q)
    ensures Coherent(values', own', stale - {q}, maps, defaults, zero)
    ensures q in own' ==> Coherent(values', own', stale, maps, defaults, zero)
  {
    forall p | 0 <= p < |defaults| && p != q ensures p in own' <==> p in own {
      assert p in own' <==> p in own' - {q};
      assert p in own <==> p in own - {q};
    }
  }

  lemma Beyond<V>(values: seq<V>, own: set<nat>, stale: set<nat>, maps: seq<map<nat, V>>, defaults: seq<V>, zero: V,
                  q: nat)
    requires Coherent(values, own, stale, maps, defaults, zero) && q >= |values|
    ensures Coherent(values, own, stale - {q}, maps, defaults, zero)
    ensures Coherent(values, own - {q}, stale - {q}, maps, defaults, zero)
  {
  }

  class LayerStack<V(!new)> {
    const zero: V
    const defaults: seq<V>                           // the constant layer
    const layers: seq<DynamicSparseLayer<V>>         // the sparse layers, the top one first
    const cache: ExhaustiveLayer<V>
    ghost var stale: set<nat>                        // changed below and not refreshed since

    ghost predicate Valid()
      reads this, layers, set l | l in layers :: l.slots
      reads cache, cache.values, cache.ownershipSet, cache.ownershipSet.data
    {
      && LayersValid(layers) && cache.Valid() && cache.values.Length == |defaults| && cache.zero == zero
      && (forall i :: 0 <= i < |layers| ==> layers[i].slots as object != cache.values as object)
      && (forall i :: 0 <= i < |layers| ==> layers[i].slots as object != cache.ownershipSet.data as object)
      && Coherent(cache.values[..], cache.own.Keys, stale, Maps(layers), defaults, zero)
    }

    /** The uncached lookup. */
    ghost function Lookup(p: nat): V
      reads layers, cache
    {
      if p >= |defaults| then zero
      else if p in cache.own then cache.own[p]
      else Overlay(Maps(layers), defaults, zero, p)
    }

    /** The cache decides what it owns, then the first layer that binds the parameter, then the defaults. */
    lemma LookupFinds(p: nat, i: nat)
      requires p < |defaults| && p !in cache.own
      requires i <= |layers| && forall j :: 0 <= j < i ==> p !in layers[j].contents
      ensures i < |layers| && p in layers[i].contents ==> Lookup(p) == layers[i].contents[p]
      ensures i == |layers| ==> Lookup(p) == defaults[p]
    {
      OverlayFinds(Maps(layers), defaults, zero, p, i);
    }

    constructor (zero: V, defaults: seq<V>, layers: seq<DynamicSparseLayer<V>>)
      requires LayersValid(layers)
      ensures Valid() && stale == {} && cache.own == map[]
      ensures this.zero == zero && this.defaults == defaults && this.layers == layers && fresh(cache)
    {
      hide Overlay, LayersValid;
      var values := AllBelow(layers, defaults, zero);
      var c := new ExhaustiveLayer<V>(zero, values);
      this.zero, this.defaults, this.layers, cache, stale := zero, defaults, layers, c, {};
    }

    /** A change in a lower layer makes that parameter stale. */
    method StoreBelow(i: nat, param: nat, value: V, canAllocate: bool) returns (ok: bool)
      requires Valid() && i < |layers| && param < 0xFFFF
      modifies `stale, layers[i], layers[i].slots
      ensures Valid() && stale == old(stale) + {param}
      ensures layers[i].contents == if ok then old(layers[i].contents)[param := value] else old(layers[i].contents)
      ensures ok <==>
        || param in old(layers[i].contents) || |old(layers[i].contents)| < old(layers[i].slots.Length)
        || (old(layers[i].slots.Length) > 0 && layers[i].nGrow > 0 && canAllocate)
      ensures forall j :: 0 <= j < |layers| && j != i ==> layers[j].contents == old(layers[j].contents)
    {
      hide Coherent, Represents, Stores, cache.Valid;
      ghost var maps := Maps(layers);
      ok := layers[i].Store(param, value, canAllocate);
      ChangeBelow(cache.values[..], cache.own.Keys, stale, maps, defaults, zero, Maps(layers), i, param);
      stale := stale + {param};
    }

    method ResetBelow(i: nat, param: nat)
      requires Valid() && i < |layers|
      modifies `stale, layers[i], layers[i].slots
      ensures Valid() && stale == old(stale) + {param}
      ensures layers[i].contents == old(layers[i].contents) - {param}
      ensures forall j :: 0 <= j < |layers| && j != i ==> layers[j].contents == old(layers[j].contents)
    {
      hide Coherent, Represents, Stores, cache.Valid;
      ghost var maps := Maps(layers);
      layers[i].Reset(param);
      ChangeBelow(cache.values[..], cache.own.Keys, stale, maps, defaults, zero, Maps(layers), i, param);
      stale := stale + {param};
    }

    /** What the parents say. */
    method FromBelow(param: nat) returns (value: V)
      requires Valid()
      ensures value == Overlay(Maps(layers), defaults, zero, param)
    {
      hide Coherent, LayersValid, Overlay;
      value := GetBelow(layers, defaults, zero, 0, param);
      assert Maps(layers)[0..] == Maps(layers);
    }

    /** refresh(): the parents hold no cache, so only this layer's copy is renewed. */
    method Refresh(param: nat)
      requires Valid() && param < |defaults|
      modifies `stale, cache.values
      ensures Valid() && stale == old(stale) - {param}
    {
      hide Coherent, LayersValid, cache.Valid;
      var parentValue := FromBelow(param);
      ghost var was := cache.values[..];
      cache.Refresh(param, parentValue);
      Renewed(was, cache.own.Keys, stale, Maps(layers), defaults, zero, cache.values[..], cache.own.Keys, param);
      stale := stale - {param};
    }

    method Store(param: nat, value: V) returns (ok: bool)
      requires Valid()
      modifies cache, cache.values, cache.ownershipSet, cache.ownershipSet.data
      ensures Valid()
      ensures ok <==> param < |defaults|
      ensures cache.own == if ok then old(cache.own)[param := value] else old(cache.own)
    {
      hide Coherent, LayersValid, cache.Valid;
      ghost var was, own := cache.values[..], cache.own.Keys;
      ok := cache.Store(param, value);
      if ok {
        Renewed(was, own, stale, Maps(layers), defaults, zero, cache.values[..], cache.own.Keys, param);
      } else {
        assert cache.values[..] == was;
      }
    }

    method Reset(param: nat)
      requires Valid()
      modifies `stale, cache, cache.values, cache.ownershipSet, cache.ownershipSet.data
      ensures Valid() && cache.own == old(cache.own) - {param} && stale == old(stale) - {param}
    {
      hide Coherent, LayersValid, cache.Valid;
      var parentValue := FromBelow(param);
      ghost var was, own := cache.values[..], cache.own.Keys;
      cache.Reset(param, parentValue);
      if param < |defaults| {
        Renewed(was, own, stale, Maps(layers), defaults, zero, cache.values[..], cache.own.Keys, param);
      } else {
        assert cache.values[..] == was;
        Beyond(was, own, stale, Maps(layers), defaults, zero, param);
      }
      stale := stale - {param};
    }

    /** The cached value is the uncached one, except for a parameter that is not owned and was not refreshed. */
    method Get(param: nat) returns (value: V)
      requires Valid()
      ensures param in cache.own || param !in stale ==> value == Lookup(param)
      ensures param >= |defaults| ==> value == zero
      ensures param < |defaults| && param in cache.own ==> value == cache.own[param]
    {
      value := cache.Get(param);
    }
  }
}
