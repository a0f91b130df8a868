/**
 * From message definitions to the compressed field stream: the definitions are
 * ordered by dependency, serialized in that order and compressed.
 */
module FormatPipeline {
  import opened Bits
  import opened Results
  import opened FormatRecords
  import opened Sequences
  import HeatshrinkSpec
  import HeatshrinkEncoder

  type Name = string

  datatype Definition = Definition(orbIds: seq<int>, mainOrbId: int, dependencies: seq<Name>, fields: string)

  datatype Error = KeyError | RecursionError | AssertionError | StructError | UnicodeError

  type Definitions = map<Name, Definition>

  // ----- dependency order -----

  function Elements<T>(s: seq<T>): set<T> {
    set x | x in s
  }

  /** Every name that a definition in ns depends on is also in ns. */
  ghost predicate ClosedUnder(defs: Definitions, ns: set<Name>) {
    ns <= defs.Keys && forall n, d | n in ns && d in defs[n].dependencies :: d in ns
  }

  /** Each element of s is new and comes after all that it depends on; done came before s. */
  ghost predicate DependenciesFirst(defs: Definitions, done: set<Name>, s: seq<Name>) {
    && Distinct(s)
    && (forall i :: 0 <= i < |s| ==> s[i] in defs && s[i] !in done)
    && (forall i :: 0 <= i < |s| ==> Covered(defs[s[i]].dependencies, done, s[..i]))
  }

  ghost predicate Covered(dependencies: seq<Name>, done: set<Name>, before: seq<Name>) {
    forall d :: d in dependencies ==> d in done || d in before
  }

  lemma DependenciesFirstConcat(defs: Definitions, done: set<Name>, s: seq<Name>, t: seq<Name>)
    requires DependenciesFirst(defs, done, s) && DependenciesFirst(defs, done + Elements(s), t)
    ensures DependenciesFirst(defs, done, s + t)
  {
    var u := s + t;
    forall i, j | 0 <= i < j < |u| ensures u[i] != u[j] {
      if i < |s| <= j {
        assert u[j] == t[j - |s|] && u[i] in s;
      }
    }
    forall i | 0 <= i < |u| ensures Covered(defs[u[i]].dependencies, done, u[..i]) {
      if i < |s| {
        assert u[..i] == s[..i];
      } else {
        assert u[..i] == s + t[..i - |s|];
        assert u[i] == t[i - |s|];
      }
    }
  }

  /** rank goes down along every dependency. */
  ghost predicate Ranked(defs: Definitions, rank: map<Name, nat>) {
    && defs.Keys <= rank.Keys
    && forall n, d | n in defs && d in defs[n].dependencies :: d in defs && rank[d] < rank[n]
  }

  /** All dependencies are defined and there is no cycle. */
  ghost predicate WellFounded(defs: Definitions) {
    exists rank :: Ranked(defs, rank)
  }

  /** The dependency tree below name is defined and has at most depth levels. */
  ghost predicate Shallow(defs: Definitions, name: Name, depth: nat)
    decreases depth
  {
    depth > 0 && name in defs && forall d :: d in defs[name].dependencies ==> Shallow(defs, d, depth - 1)
  }

  lemma {:induction false} RankedIsShallow(defs: Definitions, rank: map<Name, nat>, name: Name, depth: nat)
    requires Ranked(defs, rank) && name in defs && rank[name] < depth
    ensures Shallow(defs, name, depth)
    decreases depth
  {
    forall d | d in defs[name].dependencies ensures Shallow(defs, d, depth - 1) {
      RankedIsShallow(defs, rank, d, depth - 1);
    }
  }

  /** A ranking can be squeezed into as many values as there are names. */
  lemma {:induction false} Compress(defs: Definitions, rank: map<Name, nat>, ns: set<Name>) returns (r: map<Name, nat>)
    requires Ranked(defs, rank) && ClosedUnder(defs, ns)
    ensures r.Keys == ns && forall n :: n in ns ==> r[n] < |ns|
    ensures forall n, d | n in ns && d in defs[n].dependencies :: r[d] < r[n]
    decreases |ns|
  {
    if ns == {} {
      r := map[];
    } else {
      var top := Highest(rank, ns);
      var rest := ns - {top};
      var r' := Compress(defs, rank, rest);
      r := r'[top := |rest|];
    }
  }

  lemma {:induction false} Highest(rank: map<Name, nat>, ns: set<Name>) returns (top: Name)
    requires ns != {} && ns <= rank.Keys
    ensures top in ns && forall n :: n in ns ==> rank[n] <= rank[top]
    decreases |ns|
  {
    top :| top in ns;
    var rest := ns - {top};
    if rest != {} {
      var other := Highest(rank, rest);
      if rank[other] > rank[top] {
        top := other;
      }
    }
  }

  lemma EnoughDepth(defs: Definitions, depth: nat)
    requires WellFounded(defs) && |defs| <= depth
    ensures forall n :: n in defs ==> Shallow(defs, n, depth)
  {
    var rank :| Ranked(defs, rank);
    var r := Compress(defs, rank, defs.Keys);
    assert |defs.Keys| == |defs|;
    forall n | n in defs ensures Shallow(defs, n, depth) {
      RankedIsShallow(defs, r, n, depth);
    }
  }

  // ----- the final order -----

  function Reverse<T>(s: seq<T>): (r: seq<T>)
    ensures |r| == |s|
    ensures forall i :: 0 <= i < |s| ==> r[i] == s[|s| - 1 - i]
  {
    seq(|s|, i requires 0 <= i < |s| => s[|s| - 1 - i])
  }

  /** s holds every definition once, each before everything it depends on. */
  ghost predicate DependentsFirst(defs: Definitions, s: seq<Name>) {
    && Distinct(s) && Elements(s) == defs.Keys && |s| == |defs|
    && forall i, d | 0 <= i < |s| && d in defs[s[i]].dependencies :: d in s[i + 1..]
  }

  lemma NothingOrdered(defs: Definitions)
    ensures DependenciesFirst(defs, {}, []) && Elements<Name>([]) == {}
  {
  }

  lemma NoneWaiting(defs: Definitions, done: set<Name>, name: Name)
    ensures Waiting(defs, done, [], name)
  {
  }

  lemma {:induction false} DistinctSize<T>(s: seq<T>)
    requires Distinct(s)
    ensures |Elements(s)| == |s|
  {
    if s != [] {
      var init, last := s[..|s| - 1], s[|s| - 1];
      DistinctSize(init);
      assert s == init + [last];
      assert last !in Elements(init);
      assert Elements(s) == Elements(init) + {last};
    }
  }

  lemma Earlier(defs: Definitions, names: seq<Name>, i: nat, d: Name) returns (k: nat)
    requires DependenciesFirst(defs, {}, names) && i < |names| && d in defs[names[i]].dependencies
    ensures k < i && names[k] == d
  {
    assert Covered(defs[names[i]].dependencies, {}, names[..i]);
    k :| 0 <= k < i && names[..i][k] == d;
  }

  lemma AllOrdered(defs: Definitions, order: seq<Name>, names: seq<Name>)
    requires Elements(order) == defs.Keys && DependenciesFirst(defs, {}, names)
    requires forall k :: 0 <= k < |order| ==> order[k] in Elements(names)
    ensures Elements(names) == defs.Keys && |names| == |defs|
    ensures WellFounded(defs)
  {
    assert Elements(names) == defs.Keys;
    DistinctSize(names);
    assert |defs.Keys| == |defs|;
    var rank := map n | n in defs :: Position(names, n);
    assert Distinct(names);
    hide DependenciesFirst;
    forall n, d | n in defs && d in defs[n].dependencies ensures d in defs && rank[d] < rank[n] {
      RankedBelow(defs, names, n, d);
    }
    assert Ranked(defs, rank);
  }

  lemma RankedBelow(defs: Definitions, names: seq<Name>, n: Name, d: Name)
    requires DependenciesFirst(defs, {}, names) && Distinct(names)
    requires n in Elements(names) && n in defs && d in defs[n].dependencies
    ensures d in Elements(names) && Position(names, d) < Position(names, n)
  {
    hide DependenciesFirst;
    var k := Earlier(defs, names, Position(names, n), d);
    assert d in Elements(names);
    assert Position(names, d) == k;
  }

  ghost function Position(names: seq<Name>, n: Name): (i: nat)
    requires n in Elements(names)
    ensures i < |names| && names[i] == n
  {
    var i :| 0 <= i < |names| && names[i] == n;
    i
  }

  lemma ReverseElements<T>(s: seq<T>)
    ensures Elements(Reverse(s)) == Elements(s)
    ensures Distinct(s) ==> Distinct(Reverse(s))
  {
    var r, n := Reverse(s), |s|;
    forall x | x in s ensures x in r {
      var i :| 0 <= i < n && s[i] == x;
      assert r[n - 1 - i] == x;
    }
  }

  lemma ReversedLater(s: seq<Name>, k: nat, j: nat)
    requires j < k < |s|
    ensures s[j] in Reverse(s)[|s| - k..]
  {
    var r, n := Reverse(s), |s|;
    assert r[n - k..][(n - 1 - j) - (n - k)] == r[n - 1 - j];
  }

  lemma ReversedDependency(defs: Definitions, names: seq<Name>, i: nat, d: Name)
    requires DependenciesFirst(defs, {}, names) && i < |names|
    requires Reverse(names)[i] in defs && d in defs[Reverse(names)[i]].dependencies
    ensures d in Reverse(names)[i + 1..]
  {
    var k := |names| - 1 - i;
    assert Reverse(names)[i] == names[k];
    var j := Earlier(defs, names, k, d);
    hide *;
    ReversedLater(names, k, j);
  }

  lemma ReversedOrder(defs: Definitions, names: seq<Name>)
    requires DependenciesFirst(defs, {}, names) && Elements(names) == defs.Keys && |names| == |defs|
    ensures DependentsFirst(defs, Reverse(names))
  {
    ReverseElements(names);
    assert Distinct(names);
    hide DependenciesFirst, Reverse;
    var s := Reverse(names);
    forall i | 0 <= i < |s| ensures s[i] in defs {
      assert s[i] in Elements(s);
    }
    hide Distinct, Elements;
    forall i, d | 0 <= i < |s| && d in defs[s[i]].dependencies ensures d in s[i + 1..] {
      ReversedDependency(defs, names, i, d);
    }
  }

  /** b is the first dependency of a outside done. */
  ghost predicate FirstOpen(defs: Definitions, done: set<Name>, a: Name, b: Name) {
    && a in defs
    && exists j :: 0 <= j < |defs[a].dependencies| && FirstOpenAt(defs, done, a, b, j)
  }

  ghost predicate FirstOpenAt(defs: Definitions, done: set<Name>, a: Name, b: Name, j: nat)
    requires a in defs && j < |defs[a].dependencies|
  {
    defs[a].dependencies[j] == b && forall d :: d in defs[a].dependencies[..j] ==> d in done
  }

  /** The chain of names whose calls have not returned: each waits for the next. */
  ghost predicate Waiting(defs: Definitions, done: set<Name>, stack: seq<Name>, name: Name) {
    && (forall i :: 0 <= i < |stack| ==> stack[i] !in done)
    && (forall i :: 0 <= i < |stack| ==> FirstOpen(defs, done, stack[i], (stack + [name])[i + 1]))
  }

  lemma WaitingLater(defs: Definitions, done: set<Name>, done': set<Name>, stack: seq<Name>, name: Name)
    requires Waiting(defs, done, stack, name) && done <= done'
    requires forall i :: 0 <= i < |stack| ==> stack[i] !in done'
    ensures Waiting(defs, done', stack, name)
  {
    forall i | 0 <= i < |stack| ensures FirstOpen(defs, done', stack[i], (stack + [name])[i + 1]) {
      var a, b := stack[i], (stack + [name])[i + 1];
      assert FirstOpen(defs, done, a, b);
      var j :| 0 <= j < |defs[a].dependencies| && FirstOpenAt(defs, done, a, b, j);
      assert FirstOpenAt(defs, done', a, b, j);
    }
  }

  lemma WaitingPush(defs: Definitions, done: set<Name>, stack: seq<Name>, name: Name, j: nat)
    requires Waiting(defs, done, stack, name) && name in defs && name !in done
    requires j < |defs[name].dependencies| && forall d :: d in defs[name].dependencies[..j] ==> d in done
    ensures Waiting(defs, done, stack + [name], defs[name].dependencies[j])
  {
    var next := defs[name].dependencies[j];
    var s := stack + [name];
    assert FirstOpenAt(defs, done, name, next, j);
    forall i | 0 <= i < |s| ensures FirstOpen(defs, done, s[i], (s + [next])[i + 1]) {
      if i < |stack| {
        assert (s + [next])[i + 1] == s[i + 1];
      }
    }
  }

  /** A name that is waiting leads back to a waiting name. */
  lemma WaitingCycle(defs: Definitions, done: set<Name>, stack: seq<Name>, name: Name) returns (j: nat)
    requires Waiting(defs, done, stack, name) && name in stack
    ensures name in defs && name !in done
    ensures j < |defs[name].dependencies| && defs[name].dependencies[j] in stack + [name]
  {
    var i :| 0 <= i < |stack| && stack[i] == name;
    var b := (stack + [name])[i + 1];
    assert FirstOpen(defs, done, stack[i], b);
    j :| 0 <= j < |defs[name].dependencies| && FirstOpenAt(defs, done, name, b, j);
  }

  lemma AppendName(defs: Definitions, done: set<Name>, ret: seq<Name>, name: Name)
    requires DependenciesFirst(defs, done, ret) && name in defs
    requires name !in done + Elements(ret)
    requires forall d :: d in defs[name].dependencies ==> d in done + Elements(ret)
    ensures DependenciesFirst(defs, done, ret + [name])
    ensures Elements(ret + [name]) == Elements(ret) + {name}
  {
    assert DependenciesFirst(defs, done + Elements(ret), [name]);
    DependenciesFirstConcat(defs, done, ret, [name]);
  }

  /** The call for name has gone through j of its dependencies and collected ret. */
  ghost predicate Visiting(defs: Definitions, done0: set<Name>, done: set<Name>, stack: seq<Name>, name: Name,
                           j: nat, ret: seq<Name>)
  {
    && ClosedUnder(defs, done) && done == done0 + Elements(ret)
    && DependenciesFirst(defs, done0, ret)
    && Waiting(defs, done, stack, name)
    && name in defs && name !in done
    && j <= |defs[name].dependencies| && forall d :: d in defs[name].dependencies[..j] ==> d in done
  }

  lemma VisitStart(defs: Definitions, done: set<Name>, stack: seq<Name>, name: Name)
    requires ClosedUnder(defs, done) && Waiting(defs, done, stack, name) && name in defs && name !in done
    ensures Visiting(defs, done, done, stack, name, 0, [])
  {
    assert done + Elements([]) == done;
  }

  /** One more dependency has been visited; the recursive call left everything that waits open. */
  lemma VisitNext(defs: Definitions, done0: set<Name>, done: set<Name>, stack: seq<Name>, name: Name,
                  j: nat, ret: seq<Name>, done': set<Name>, next: seq<Name>)
    requires Visiting(defs, done0, done, stack, name, j, ret) && j < |defs[name].dependencies|
    requires ClosedUnder(defs, done') && done' == done + Elements(next) && DependenciesFirst(defs, done, next)
    requires defs[name].dependencies[j] in done' && forall s :: s in stack + [name] ==> s !in done'
    ensures Visiting(defs, done0, done', stack, name, j + 1, ret + next)
  {
    hide DependenciesFirst, Waiting;
    DependenciesFirstConcat(defs, done0, ret, next);
    assert Elements(ret + next) == Elements(ret) + Elements(next);
    hide Elements;
    assert name in stack + [name];
    forall i | 0 <= i < |stack| ensures stack[i] !in done' {
      assert stack[i] in stack + [name];
    }
    WaitingLater(defs, done, done', stack, name);
    var deps := defs[name].dependencies;
    assert deps[..j + 1] == deps[..j] + [deps[j]];
  }

  lemma VisitCall(defs: Definitions, done0: set<Name>, done: set<Name>, stack: seq<Name>, name: Name, j: nat,
                  ret: seq<Name>, depth: nat)
    requires name in defs && j < |defs[name].dependencies| && Visiting(defs, done0, done, stack, name, j, ret)
    ensures ClosedUnder(defs, done) && Waiting(defs, done, stack + [name], defs[name].dependencies[j])
    ensures Shallow(defs, name, depth) ==> depth > 0 && Shallow(defs, defs[name].dependencies[j], depth - 1)
  {
    WaitingPush(defs, done, stack, name, j);
    hide Waiting;
    assert defs[name].dependencies[j] in defs[name].dependencies;
  }

  lemma VisitEnd(defs: Definitions, done0: set<Name>, done: set<Name>, stack: seq<Name>, name: Name, ret: seq<Name>)
    requires name in defs && Visiting(defs, done0, done, stack, name, |defs[name].dependencies|, ret)
    ensures DependenciesFirst(defs, done0, ret + [name])
    ensures done + {name} == done0 + Elements(ret + [name])
    ensures ClosedUnder(defs, done + {name})
    ensures forall s :: s in stack ==> s !in done
  {
    var deps := defs[name].dependencies;
    assert deps[..|deps|] == deps;
    AppendName(defs, done0, ret, name);
  }

  // ----- serialization -----

  predicate IsOrbId(x: int) {
    0 <= x < 0x1_0000
  }

  predicate IsLatin1(text: string) {
    forall i :: 0 <= i < |text| ==> text[i] as int < 256
  }

  function Latin1(text: string): (b: seq<Byte>)
    requires IsLatin1(text)
    ensures |b| == |text| && forall i :: 0 <= i < |b| ==> b[i] == text[i] as int
  {
    seq(|text|, i requires 0 <= i < |text| => text[i] as int)
  }

  /** The definition can be written, with all its dependencies looked up. */
  predicate Encodable(defs: Definitions, n: Name) {
    n in defs &&
    var d := defs[n];
    && |d.orbIds| < 255 && |d.dependencies| < 255
    && (forall i :: 0 <= i < |d.orbIds| ==> IsOrbId(d.orbIds[i]))
    && (forall i :: 0 <= i < |d.dependencies| ==>
          d.dependencies[i] in defs && IsOrbId(defs[d.dependencies[i]].mainOrbId))
    && IsLatin1(d.fields)
  }

  predicate HasNoNul(defs: Definitions, n: Name) {
    n in defs && '\0' !in defs[n].fields
  }

  function MainOrbIds(defs: Definitions, names: seq<Name>): (r: seq<int>)
    requires forall i :: 0 <= i < |names| ==> names[i] in defs
    ensures |r| == |names| && forall i :: 0 <= i < |r| ==> r[i] == defs[names[i]].mainOrbId
  {
    seq(|names|, i requires 0 <= i < |names| => defs[names[i]].mainOrbId)
  }

  function OrbIds(ids: seq<int>): (r: seq<OrbId>)
    requires forall i :: 0 <= i < |ids| ==> IsOrbId(ids[i])
    ensures |r| == |ids| && forall i :: 0 <= i < |ids| ==> r[i] == ids[i]
  {
    if ids == [] then [] else
      assert IsOrbId(ids[|ids| - 1]);
      var last: OrbId := ids[|ids| - 1];
      OrbIds(ids[..|ids| - 1]) + [last]
  }

  /** What is stored about the definition: its ids, the main ids of its dependencies, and its text. */
  function RecordOf(defs: Definitions, n: Name): (r: Record)
    requires Encodable(defs, n)
    ensures Storable(r) && r.orbIds == defs[n].orbIds
    ensures |r.dependencies| == |defs[n].dependencies|
    ensures forall k :: 0 <= k < |r.dependencies| ==> r.dependencies[k] == defs[defs[n].dependencies[k]].mainOrbId
    ensures |r.fields| == |defs[n].fields|
    ensures forall k :: 0 <= k < |r.fields| ==> r.fields[k] == defs[n].fields[k] as int
  {
    var d := defs[n];
    Record(OrbIds(d.orbIds), OrbIds(MainOrbIds(defs, d.dependencies)), Latin1(d.fields))
  }

  /** The record holds the ids of the definition, the main ids of its dependencies, and its text. */
  ghost predicate Describes(defs: Definitions, d: Definition, r: Record) {
    && r.orbIds == d.orbIds
    && |r.dependencies| == |d.dependencies|
    && (forall k :: 0 <= k < |d.dependencies| ==>
          d.dependencies[k] in defs && r.dependencies[k] == defs[d.dependencies[k]].mainOrbId)
    && |r.fields| == |d.fields| && (forall k :: 0 <= k < |d.fields| ==> r.fields[k] == d.fields[k] as int)
  }

  lemma RecordDescribes(defs: Definitions, n: Name)
    requires Encodable(defs, n)
    ensures n in defs && Describes(defs, defs[n], RecordOf(defs, n))
  {
  }

  function RecordsOf(defs: Definitions, names: seq<Name>): (rs: seq<Record>)
    requires forall i :: 0 <= i < |names| ==> Encodable(defs, names[i])
    ensures AllStorable(rs) && |rs| == |names|
    ensures forall i :: 0 <= i < |names| ==> rs[i] == RecordOf(defs, names[i])
  {
    if names == [] then []
    else RecordsOf(defs, names[..|names| - 1]) + [RecordOf(defs, names[|names| - 1])]
  }

  /** Two bytes for each id, the low one first. */
  lemma {:induction false} IdBytesAt(ids: seq<OrbId>, k: nat)
    requires k < |ids|
    ensures ids[k] == IdBytes(ids)[2 * k] as int + 256 * IdBytes(ids)[2 * k + 1] as int
    decreases k
  {
    if k > 0 {
      IdBytesAt(ids[1..], k - 1);
    }
  }

  method PackIds(ids: seq<int>) returns (r: Result<seq<Byte>, Error>)
    ensures r.Ok? <==> forall i :: 0 <= i < |ids| ==> 0 <= ids[i] < 0x1_0000
    ensures r.Ok? ==> r.value == IdBytes(OrbIds(ids)) && |r.value| == 2 * |ids|
    ensures r.Ok? ==> forall k :: 0 <= k < |ids| ==> ids[k] == r.value[2 * k] as int + 256 * r.value[2 * k + 1] as int
  {
    var ret: seq<Byte> := [];
    ghost var done: seq<OrbId> := [];
    for i := 0 to |ids|
      invariant forall k :: 0 <= k < i ==> IsOrbId(ids[k])
      invariant |done| == i && (forall k :: 0 <= k < i ==> done[k] == ids[k]) && ret == IdBytes(done)
    {
      if ids[i] >= 0x1_0000 {
        return Err(AssertionError);
      }
      if ids[i] < 0 {
        return Err(StructError);
      }
      IdBytesConcat(done, [ids[i]]);
      assert IdBytes([ids[i]]) == [ids[i] % 256, ids[i] / 256];
      done := done + [ids[i]];
      ret := ret + [ids[i] % 256, ids[i] / 256];
    }
    assert done == OrbIds(ids);
    forall k | 0 <= k < |ids| ensures ids[k] == ret[2 * k] as int + 256 * ret[2 * k + 1] as int {
      IdBytesAt(done, k);
    }
    return Ok(ret);
  }

  /** The message definitions with their "completed" flags. */
  class DefinitionTable {
    const defs: Definitions
    const order: seq<Name>     // the keys in insertion order
    var completed: set<Name>   // the names whose flag is set

    ghost predicate Valid()
      reads this
    {
      && Distinct(order) && Elements(order) == defs.Keys
      && ClosedUnder(defs, completed)
    }

    constructor (defs: Definitions, order: seq<Name>)
      requires Distinct(order) && Elements(order) == defs.Keys
      ensures Valid() && this.defs == defs && this.order == order && completed == {}
    {
      this.defs := defs;
      this.order := order;
      completed := {};
    }

    /**
     * The depth-first search.  depth is the interpreter's remaining recursion limit, and
     * stack holds the names whose calls are under way.
     */
    method GetOrderedListByDependency(name: Name, depth: nat, ghost stack: seq<Name>)
      returns (r: Result<seq<Name>, Error>)
      requires Valid() && Waiting(defs, completed, stack, name)
      modifies this
      ensures old(completed) <= completed
      ensures r.Ok? ==>
        && Valid() && completed == old(completed) + Elements(r.value)
        && DependenciesFirst(defs, old(completed), r.value)
        && name in completed
        && forall s :: s in stack ==> s !in completed
      ensures name in stack ==> r.Err?
      ensures Shallow(defs, name, depth) ==> r.Ok?
      decreases depth
    {
      if depth == 0 {
        return Err(RecursionError);
      }
      if name !in defs {
        return Err(KeyError);
      }
      if name in completed {
        return Ok([]);
      }
      ghost var cycle := 0;
      if name in stack {
        cycle := WaitingCycle(defs, completed, stack, name);
      }
      var ret := [];
      var dependencies := defs[name].dependencies;
      VisitStart(defs, completed, stack, name);
      hide Visiting, Waiting, ClosedUnder, DependenciesFirst, Elements, Shallow;
      for j := 0 to |dependencies|
        invariant Visiting(defs, old(completed), completed, stack, name, j, ret)
        invariant old(completed) <= completed
        invariant name in stack ==> j <= cycle
      {
        ghost var before := completed;
        VisitCall(defs, old(completed), completed, stack, name, j, ret, depth);
        var next := GetOrderedListByDependency(dependencies[j], depth - 1, stack + [name]);
        if next.Err? {
          return next;
        }
        VisitNext(defs, old(completed), before, stack, name, j, ret, completed, next.value);
        ret := ret + next.value;
      }
      VisitEnd(defs, old(completed), completed, stack, name, ret);
      ret := ret + [name];
      completed := completed + {name};
      return Ok(ret);
    }

    /**
     * All definitions, each once and before everything it depends on.  With enough recursion
     * depth this succeeds exactly when the dependencies are defined and acyclic.
     */
    method OrderedNames(depth: nat) returns (r: Result<seq<Name>, Error>)
      requires Valid() && completed == {}
      modifies this
      ensures r.Ok? ==> DependentsFirst(defs, r.value)
      ensures |defs| <= depth ==> (r.Ok? <==> WellFounded(defs))
    {
      ghost var shallow := WellFounded(defs) && |defs| <= depth;
      if shallow {
        EnoughDepth(defs, depth);
      }
      hide Shallow, WellFounded, DependenciesFirst, DependentsFirst;
      var names := [];
      NothingOrdered(defs);
      for i := 0 to |order|
        invariant Valid() && completed == Elements(names) && DependenciesFirst(defs, {}, names)
        invariant forall k :: 0 <= k < i ==> order[k] in completed
      {
        assert order[i] in Elements(order);
        ghost var before := completed;
        NoneWaiting(defs, completed, order[i]);
        var next := GetOrderedListByDependency(order[i], depth, []);
        if next.Err? {
          return next;
        }
        assert {} + Elements(names) == before;
        DependenciesFirstConcat(defs, {}, names, next.value);
        names := names + next.value;
      }
      AllOrdered(defs, order, names);
      var reversed := Reverse(names);
      ReversedOrder(defs, names);
      assert |reversed| == |defs|;                                              // sanity checks of the source
      assert forall k :: 0 <= k < |order| ==> order[k] in completed;
      return Ok(reversed);
    }

    /** The main ids of all definitions with the given name: one if it is defined, else none. */
    method LookUp(name: Name) returns (ids: seq<int>)
      requires Distinct(order) && Elements(order) == defs.Keys
      ensures ids == if name in defs then [defs[name].mainOrbId] else []
    {
      ids := [];
      assert name in defs <==> name in Elements(order);
      for i := 0 to |order|
        invariant ids == if name in order[..i] then [defs[name].mainOrbId] else []
      {
        assert order[i] in Elements(order);
        if order[i] == name {
          ids := ids + [defs[order[i]].mainOrbId];
        }
      }
      assert order[..|order|] == order;
    }

    method PackDependencies(dependencies: seq<Name>) returns (r: Result<seq<Byte>, Error>)
      requires Distinct(order) && Elements(order) == defs.Keys
      ensures r.Ok? <==>
        forall i :: 0 <= i < |dependencies| ==>
          dependencies[i] in defs && IsOrbId(defs[dependencies[i]].mainOrbId)
      ensures r.Ok? ==> r.value == IdBytes(OrbIds(MainOrbIds(defs, dependencies)))
    {
      var ids := [];
      for i := 0 to |dependencies|
        invariant forall k :: 0 <= k < i ==> dependencies[k] in defs && IsOrbId(defs[dependencies[k]].mainOrbId)
        invariant ids == MainOrbIds(defs, dependencies[..i])
      {
        var found := LookUp(dependencies[i]);
        if |found| != 1 || !IsOrbId(found[0]) {
          return Err(AssertionError);
        }
        ids := ids + found;
      }
      assert dependencies[..|dependencies|] == dependencies;
      r := PackIds(ids);
    }

    /** The serialized record of one definition. */
    method PackDefinition(name: Name) returns (r: Result<seq<Byte>, Error>)
      requires Distinct(order) && Elements(order) == defs.Keys
      ensures r.Ok? <==> Encodable(defs, name)
      ensures r.Ok? ==> r.value == RecordBytes(RecordOf(defs, name))
      ensures r.Ok? <==>
        name in defs &&
        var d := defs[name];
        && |d.orbIds| < 255 && |d.dependencies| < 255
        && (forall i :: 0 <= i < |d.orbIds| ==> 0 <= d.orbIds[i] < 0x1_0000)
        && (forall i :: 0 <= i < |d.dependencies| ==>
              d.dependencies[i] in defs && 0 <= defs[d.dependencies[i]].mainOrbId < 0x1_0000)
        && (forall i :: 0 <= i < |d.fields| ==> d.fields[i] as int < 256)
    {
      if name !in defs {
        return Err(KeyError);
      }
      var d := defs[name];
      if |d.orbIds| >= 255 || |d.dependencies| >= 255 {
        return Err(AssertionError);
      }
      var orbIds := PackIds(d.orbIds);
      if orbIds.Err? {
        return orbIds;
      }
      var dependencies := PackDependencies(d.dependencies);
      if dependencies.Err? {
        return dependencies;
      }
      if !IsLatin1(d.fields) {
        return Err(UnicodeError);
      }
      var n: Byte, m: Byte := |d.orbIds|, |d.dependencies|;
      var b := ([n] + orbIds.value) + (([m] + dependencies.value) + (Latin1(d.fields) + [0]));
      return Ok(b);
    }

    method GetFieldDefinitions(names: seq<Name>) returns (r: Result<(seq<Byte>, seq<string>), Error>)
      requires Distinct(order) && Elements(order) == defs.Keys
      ensures r.Ok? <==> forall i :: 0 <= i < |names| ==> Encodable(defs, names[i])
      ensures r.Ok? ==> r.value.0 == Serialize(RecordsOf(defs, names))
      ensures r.Ok? ==> |r.value.1| == |names| && forall i :: 0 <= i < |names| ==> r.value.1[i] == defs[names[i]].fields
    {
      hide RecordBytes, RecordOf, RecordsOf, Serialize, Encodable;
      NoRecords(defs, names);
      var ret, formats := [], [];
      for i := 0 to |names|
        invariant forall k :: 0 <= k < i ==> Encodable(defs, names[k])
        invariant ret == Serialize(RecordsOf(defs, names[..i]))
        invariant |formats| == i && forall k :: 0 <= k < i ==> names[k] in defs && formats[k] == defs[names[k]].fields
      {
        var packed := PackDefinition(names[i]);
        if packed.Err? {
          return Err(packed.error);
        }
        OneMoreRecord(defs, names, i);
        ret := ret + packed.value;
        formats := formats + [defs[names[i]].fields];
      }
      assert names[..|names|] == names;
      return Ok((ret, formats));
    }

    /** The generator: order, serialize, compress with the sizes the firmware uses. */
    method Generate(depth: nat) returns (r: Result<(seq<Name>, seq<Byte>), Error>)
      requires Valid() && completed == {}
      modifies this
      ensures r.Ok? ==>
        && DependentsFirst(defs, r.value.0)
        && (forall i :: 0 <= i < |r.value.0| ==> Encodable(defs, r.value.0[i]))
        && HeatshrinkSpec.Decode(8, 4, r.value.1) == Serialize(RecordsOf(defs, r.value.0))
        && (Parse(HeatshrinkSpec.Decode(8, 4, r.value.1)) == Some(RecordsOf(defs, r.value.0))
            <==> forall n :: n in defs ==> HasNoNul(defs, n))
      ensures r.Ok? && (forall n :: n in defs ==> '\0' !in defs[n].fields) ==>
        var names, records := r.value.0, Parse(HeatshrinkSpec.Decode(8, 4, r.value.1));
        && records.Some? && |records.value| == |names|
        && forall i :: 0 <= i < |names| ==>
             names[i] in defs && Describes(defs, defs[names[i]], records.value[i])
      ensures |defs| <= depth ==> (r.Ok? <==> WellFounded(defs) && forall n :: n in defs ==> Encodable(defs, n))
    {
      hide DependentsFirst, Encodable, RecordsOf, Serialize, Parse, WellFounded, Describes, HeatshrinkSpec.Decode;
      var names := OrderedNames(depth);
      if names.Err? {
        return Err(names.error);
      }
      EveryName(defs, names.value);
      var fields := GetFieldDefinitions(names.value);
      if fields.Err? {
        return Err(fields.error);
      }
      var code := HeatshrinkEncoder.Encode(fields.value.0, 8, 4);
      AllDescribed(defs, names.value);
      SerializationIsUnique(RecordsOf(defs, names.value));
      ZeroBytesAreNuls(defs, names.value);
      return Ok((names.value, code));
    }
  }

  lemma NoRecords(defs: Definitions, names: seq<Name>)
    ensures Serialize(RecordsOf(defs, names[..0])) == []
  {
  }

  lemma OneMoreRecord(defs: Definitions, names: seq<Name>, i: nat)
    requires i < |names| && forall k :: 0 <= k <= i ==> Encodable(defs, names[k])
    ensures names[i] in defs
    ensures Serialize(RecordsOf(defs, names[..i + 1]))
         == Serialize(RecordsOf(defs, names[..i])) + RecordBytes(RecordOf(defs, names[i]))
  {
    hide RecordBytes, RecordOf, Encodable;
    InDefinitions(defs, names[i]);
    var one := RecordOf(defs, names[i]);
    SerializeConcat(RecordsOf(defs, names[..i]), [one]);
    assert names[..i + 1][..i] == names[..i];
    assert Serialize([one]) == RecordBytes(one) + Serialize([]);
  }

  lemma InDefinitions(defs: Definitions, n: Name)
    requires Encodable(defs, n)
    ensures n in defs
  {
  }

  lemma AllDescribed(defs: Definitions, names: seq<Name>)
    requires forall i :: 0 <= i < |names| ==> Encodable(defs, names[i])
    ensures forall i :: 0 <= i < |names| ==>
      names[i] in defs && Describes(defs, defs[names[i]], RecordsOf(defs, names)[i])
  {
    hide Encodable, Describes, RecordOf;
    forall i | 0 <= i < |names|
      ensures names[i] in defs && Describes(defs, defs[names[i]], RecordsOf(defs, names)[i])
    {
      RecordDescribes(defs, names[i]);
    }
  }

  lemma EveryName(defs: Definitions, names: seq<Name>)
    requires DependentsFirst(defs, names)
    ensures (forall i :: 0 <= i < |names| ==> Encodable(defs, names[i])) <==>
      forall n :: n in defs ==> Encodable(defs, n)
    ensures (forall i :: 0 <= i < |names| ==> HasNoNul(defs, names[i])) <==> forall n :: n in defs ==> HasNoNul(defs, n)
  {
    hide Encodable, HasNoNul;
    forall i | 0 <= i < |names| ensures names[i] in defs {
      assert names[i] in Elements(names);
    }
    forall n | n in defs ensures n in names {
      assert n in Elements(names);
    }
  }

  lemma ZeroBytesAreNuls(defs: Definitions, names: seq<Name>)
    requires forall i :: 0 <= i < |names| ==> Encodable(defs, names[i])
    ensures forall i :: 0 <= i < |names| ==> (NulFree(RecordsOf(defs, names)[i]) <==> HasNoNul(defs, names[i]))
  {
    forall i | 0 <= i < |names|
      ensures NulFree(RecordsOf(defs, names)[i]) <==> HasNoNul(defs, names[i])
    {
      LatinNul(defs[names[i]].fields);
    }
  }

  lemma LatinNul(text: string)
    requires IsLatin1(text)
    ensures 0 in Latin1(text) <==> '\0' in text
  {
    var b := Latin1(text);
    if 0 in b {
      var k :| 0 <= k < |b| && b[k] == 0;
      assert text[k] == '\0';
    }
    if '\0' in text {
      var k :| 0 <= k < |text| && text[k] == '\0';
      assert b[k] == 0;
    }
  }
}
