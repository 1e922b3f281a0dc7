/**
 NBT values as they lie in memory: compounds and lists are objects that hold references,
 everything else is a plain value. A snapshot records what the objects hold.
 */
module NbtObjects {
  import opened Wrappers
  import opened NbtTrees

  class CompoundObj {
    var members: map<string, Value>

    constructor (ms: map<string, Value>)
      ensures members == ms
    {
      members := ms;
    }
  }

  class ListObj {
    var items: seq<Value>

    constructor (xs: seq<Value>)
      ensures items == xs
    {
      items := xs;
    }
  }

  datatype Value = CompoundRef(c: CompoundObj) | ListRef(l: ListObj) | Leaf(t: Tree)

  datatype Snapshot = Snapshot(comps: map<CompoundObj, map<string, Value>>, lists: map<ListObj, seq<Value>>)

  ghost predicate Known(h: Snapshot, v: Value) {
    match v
    case CompoundRef(c) => c in h.comps
    case ListRef(l) => l in h.lists
    case Leaf(t) => !t.Comp? && !t.List?
  }

  /** Everything the objects hold is known. */
  ghost predicate Closed(h: Snapshot) {
    && (forall c, k {:trigger h.comps[c][k]} | c in h.comps && k in h.comps[c] :: Known(h, h.comps[c][k]))
    && (forall l, i {:trigger h.lists[l][i]} | l in h.lists && 0 <= i < |h.lists[l]| :: Known(h, h.lists[l][i]))
  }

  /** The snapshot is what memory holds now. */
  ghost predicate Current(h: Snapshot)
    reads h.comps.Keys, h.lists.Keys
  {
    && Closed(h)
    && (forall c | c in h.comps :: c.members == h.comps[c])
    && (forall l | l in h.lists :: l.items == h.lists[l])
  }

  // ----- locations

  datatype Selector = Member(name: string) | Item(index: nat)

  type Location = seq<Selector>

  ghost predicate IsSliceValue(h: Snapshot, v: Value) {
    (v.ListRef? && v.l in h.lists) || (v.Leaf? && IsArray(v.t))
  }

  ghost function ElementValues(h: Snapshot, v: Value): seq<Value>
    requires IsSliceValue(h, v)
  {
    if v.ListRef? then h.lists[v.l] else Leaves(Unpacked(v.t))
  }

  function Leaves(ts: seq<Tree>): (vs: seq<Value>)
    ensures |vs| == |ts| && forall i | 0 <= i < |vs| :: vs[i] == Leaf(ts[i])
  {
    seq(|ts|, i requires 0 <= i < |ts| => Leaf(ts[i]))
  }

  ghost function ChildAt(h: Snapshot, v: Value, s: Selector): Option<Value> {
    match s
    case Member(name) =>
      if v.CompoundRef? && v.c in h.comps && name in h.comps[v.c] then Some(h.comps[v.c][name]) else None
    case Item(i) =>
      if IsSliceValue(h, v) && i < |ElementValues(h, v)| then Some(ElementValues(h, v)[i]) else None
  }

  /** What is found below a value at a location. */
  ghost function ValueAt(h: Snapshot, v: Value, loc: Location): Option<Value> {
    if loc == [] then Some(v)
    else
      var up := ValueAt(h, v, loc[..|loc| - 1]);
      if up == None then None else ChildAt(h, up.value, loc[|loc| - 1])
  }

  lemma RootValue(h: Snapshot, root: Value)
    ensures ValueAt(h, root, []) == Some(root)
  {
  }

  lemma ValueAtNext(h: Snapshot, v: Value, loc: Location, s: Selector)
    ensures ValueAt(h, v, loc + [s]) == if ValueAt(h, v, loc) == None then None
            else ChildAt(h, ValueAt(h, v, loc).value, s)
  {
    assert (loc + [s])[..|loc|] == loc;
  }

  lemma {:induction false} ValueAtConcat(h: Snapshot, v: Value, p: Location, q: Location)
    ensures ValueAt(h, v, p + q) ==
            if ValueAt(h, v, p) == None then None else ValueAt(h, ValueAt(h, v, p).value, q)
    decreases |q|
  {
    if q == [] {
      assert p + q == p;
    } else {
      var q' := q[..|q| - 1];
      ValueAtConcat(h, v, p, q');
      assert (p + q)[..|p + q| - 1] == p + q';
    }
  }

  lemma {:induction false} ReachedIsKnown(h: Snapshot, v: Value, loc: Location)
    requires Closed(h) && Known(h, v) && ValueAt(h, v, loc).Some?
    ensures Known(h, ValueAt(h, v, loc).value)
  {
    if loc == [] {
    } else {
      var up := loc[..|loc| - 1];
      ReachedIsKnown(h, v, up);
    }
  }

  // ----- values as trees

  /** The value is a copy of the tree, all the way down. */
  ghost predicate Holds(h: Snapshot, v: Value, t: Tree)
    decreases t
  {
    match t
    case Comp(ms) =>
      && v.CompoundRef? && v.c in h.comps && h.comps[v.c].Keys == ms.Keys
      && forall k | k in ms :: Holds(h, h.comps[v.c][k], ms[k])
    case List(ts) =>
      && v.ListRef? && v.l in h.lists && |h.lists[v.l]| == |ts|
      && forall i | 0 <= i < |ts| :: Holds(h, h.lists[v.l][i], ts[i])
    case _ => v == Leaf(t)
  }

  /** Whether a value in memory has what a filter asks for. */
  ghost predicate MatchValue(h: Snapshot, v: Value, filter: Tree)
    decreases filter, 0
  {
    match filter
    case Comp(fs) =>
      && v.CompoundRef? && v.c in h.comps
      && forall k | k in fs :: k in h.comps[v.c] && MatchValue(h, h.comps[v.c][k], fs[k])
    case List(fs) =>
      IsSliceValue(h, v) && forall i | 0 <= i < |fs| :: HasValue(h, v, fs[i])
    case _ =>
      if IsArray(filter) then
        IsSliceValue(h, v) && forall i | 0 <= i < |Unpacked(filter)| :: Leaf(Unpacked(filter)[i]) in ElementValues(h, v)
      else v == Leaf(filter)
  }

  ghost predicate HasValue(h: Snapshot, v: Value, wanted: Tree)
    requires IsSliceValue(h, v)
    decreases wanted, 1
  {
    exists j | 0 <= j < |ElementValues(h, v)| :: MatchValue(h, ElementValues(h, v)[j], wanted)
  }

  lemma SliceHolds(h: Snapshot, v: Value, t: Tree)
    requires Holds(h, v, t)
    ensures IsSliceValue(h, v) <==> IsSlice(t)
    ensures IsSlice(t) ==> |ElementValues(h, v)| == |Elements(t)|
    ensures IsSlice(t) ==> forall i | 0 <= i < |Elements(t)| :: Holds(h, ElementValues(h, v)[i], Elements(t)[i])
  {
  }

  lemma ScalarHolds(h: Snapshot, v: Value, t: Tree, e: Tree)
    requires Holds(h, v, t) && !e.Comp? && !e.List?
    ensures v == Leaf(e) <==> t == e
  {
  }

  /** Matching in memory is matching the tree the memory holds. */
  lemma {:induction false} MatchInMemory(h: Snapshot, v: Value, t: Tree, filter: Tree)
    requires Holds(h, v, t)
    ensures MatchValue(h, v, filter) <==> Match(t, filter)
    decreases filter, 2
  {
    hide Holds, MatchValue, Match;
    if filter.Comp? {
      CompInMemory(h, v, t, filter);
    } else if filter.List? {
      ListInMemory(h, v, t, filter);
    } else if IsArray(filter) {
      ArrayInMemory(h, v, t, filter);
    } else {
      ScalarInMemory(h, v, t, filter);
    }
  }

  lemma ScalarInMemory(h: Snapshot, v: Value, t: Tree, filter: Tree)
    requires Holds(h, v, t) && IsScalar(filter)
    ensures MatchValue(h, v, filter) <==> Match(t, filter)
  {
    ScalarHolds(h, v, t, filter);
  }

  lemma ArrayInMemory(h: Snapshot, v: Value, t: Tree, filter: Tree)
    requires Holds(h, v, t) && IsArray(filter)
    ensures MatchValue(h, v, filter) <==> Match(t, filter)
  {
    hide Holds, Unpacked, ElementValues, Elements;
    SliceHolds(h, v, t);
    if IsSlice(t) {
      forall i | 0 <= i < |Unpacked(filter)|
        ensures Leaf(Unpacked(filter)[i]) in ElementValues(h, v) <==> Unpacked(filter)[i] in Elements(t)
      {
        SameMember(h, v, t, Unpacked(filter)[i]);
      }
    }
  }

  lemma CompInMemory(h: Snapshot, v: Value, t: Tree, filter: Tree)
    requires Holds(h, v, t) && filter.Comp?
    ensures MatchValue(h, v, filter) <==> Match(t, filter)
    decreases filter, 0
  {
    hide Holds;
    CompHolds(h, v, t);
    if t.Comp? {
      forall k | k in filter.members && k in t.members
        ensures MatchValue(h, h.comps[v.c][k], filter.members[k]) <==> Match(t.members[k], filter.members[k])
      {
        MatchInMemory(h, h.comps[v.c][k], t.members[k], filter.members[k]);
      }
    }
  }

  lemma ListInMemory(h: Snapshot, v: Value, t: Tree, filter: Tree)
    requires Holds(h, v, t) && filter.List?
    ensures MatchValue(h, v, filter) <==> Match(t, filter)
    decreases filter, 1
  {
    hide Holds, ElementValues, Elements;
    SliceHolds(h, v, t);
    if IsSlice(t) {
      forall i | 0 <= i < |filter.items|
        ensures HasValue(h, v, filter.items[i]) <==> Has(t, filter.items[i])
      {
        HasInMemory(h, v, t, filter.items[i]);
      }
    }
  }

  lemma HasInMemory(h: Snapshot, v: Value, t: Tree, wanted: Tree)
    requires Holds(h, v, t) && IsSlice(t) && IsSliceValue(h, v)
    ensures HasValue(h, v, wanted) <==> Has(t, wanted)
    decreases wanted, 3
  {
    hide Holds, MatchValue, Match;
    SliceHolds(h, v, t);
    forall j | 0 <= j < |Elements(t)|
      ensures MatchValue(h, ElementValues(h, v)[j], wanted) <==> Match(Elements(t)[j], wanted)
    {
      MatchInMemory(h, ElementValues(h, v)[j], Elements(t)[j], wanted);
    }
  }

  lemma CompHolds(h: Snapshot, v: Value, t: Tree)
    requires Holds(h, v, t)
    ensures v.CompoundRef? && v.c in h.comps <==> t.Comp?
    ensures t.Comp? ==> h.comps[v.c].Keys == t.members.Keys
    ensures t.Comp? ==> forall k | k in t.members :: Holds(h, h.comps[v.c][k], t.members[k])
  {
  }

  lemma SameMember(h: Snapshot, v: Value, t: Tree, e: Tree)
    requires Holds(h, v, t) && IsSlice(t) && IsSliceValue(h, v) && IsScalar(e)
    ensures Leaf(e) in ElementValues(h, v) <==> e in Elements(t)
  {
    SliceHolds(h, v, t);
    forall i | 0 <= i < |Elements(t)|
      ensures ElementValues(h, v)[i] == Leaf(e) <==> Elements(t)[i] == e
    {
      ScalarHolds(h, ElementValues(h, v)[i], Elements(t)[i], e);
    }
  }
}
