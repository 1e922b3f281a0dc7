/** Changing a value in place through the anchors of a path. */
module NbtEditing {
  import opened Wrappers
  import opened NbtTrees
  import opened NbtObjects
  import opened NbtPaths
  import opened NbtResolving
  import opened NbtWrites

  // ----- one anchor

  /** What an assignment through the anchor does, or why it cannot. */
  ghost function Assigned(h: Snapshot, a: Anchor, v: Value): Result<Snapshot, PathError> {
    if a.key != "" then
      if CanWrite(h, a.parent, Member(a.key)) then Ok(Write(h, a.parent, Member(a.key), Some(v))) else Err(PathNotFound)
    else if a.index >= 0 then
      if !(a.parent.ListRef? && a.parent.l in h.lists) then Err(NotAList)
      else if !CanWrite(h, a.parent, Item(a.index)) then Err(IndexOutOfBounds)
      else Ok(Write(h, a.parent, Item(a.index), Some(v)))
    else Err(SelectsRoot)
  }

  method SetAnchor(a: Anchor, v: Value, ghost h: Snapshot) returns (failed: Option<PathError>, ghost h': Snapshot)
    requires Current(h) && Known(h, a.parent) && Known(h, v)
    modifies h.comps.Keys, h.lists.Keys
    ensures Current(h') && h'.comps.Keys == h.comps.Keys && h'.lists.Keys == h.lists.Keys
    ensures match failed
            case Some(e) => Assigned(h, a, v) == Err(e) && h' == h
            case None => Assigned(h, a, v) == Ok(h')
  {
    h' := h;
    if a.key != "" {
      if !a.parent.CompoundRef? { return Some(PathNotFound), h; }
      var m := a.parent.c;
      m.members := m.members[a.key := v];
      h' := Write(h, a.parent, Member(a.key), Some(v));
      return None, h';
    }
    if a.index >= 0 {
      if !a.parent.ListRef? { return Some(NotAList), h; }
      var list := a.parent.l;
      if a.index >= |list.items| { return Some(IndexOutOfBounds), h; }
      list.items := list.items[a.index := v];
      h' := Write(h, a.parent, Item(a.index), Some(v));
      return None, h';
    }
    return Some(SelectsRoot), h;
  }

  // ----- what the loops rely on

  lemma ForeignAvoids(h: Snapshot, root: Value, locs: seq<Location>, v: Value)
    requires Foreign(h, v, root)
    ensures Avoids(h, root, locs, v)
  {
    forall r {:trigger ValueAt(h, v, r)} | ValueAt(h, v, r).Some?
      ensures !IsParent(h, root, locs, ValueAt(h, v, r).value)
    {
      var w := ValueAt(h, v, r).value;
      if !w.Leaf? {
        forall j | 0 <= j < |locs| && locs[j] != []
          ensures ValueAt(h, root, Front(locs[j])) != Some(w)
        {
        }
      }
    }
  }

  /** At or below a location lies none of the parents. */
  lemma BelowAvoids(h: Snapshot, root: Value, locs: seq<Location>, k: nat, p: Location)
    requires Setting(h, root, locs) && k < |locs| && locs[k] <= p && ValueAt(h, root, p).Some?
    ensures Avoids(h, root, locs, ValueAt(h, root, p).value)
  {
    hide ValueAt, Closed, Apart, Unshared;
    var y := ValueAt(h, root, p).value;
    forall r {:trigger ValueAt(h, y, r)} | ValueAt(h, y, r).Some?
      ensures !IsParent(h, root, locs, ValueAt(h, y, r).value)
    {
      var w := ValueAt(h, y, r).value;
      ValueAtConcat(h, root, p, r);
      forall j | 0 <= j < |locs| && locs[j] != [] && !w.Leaf? && ValueAt(h, root, Front(locs[j])) == Some(w)
        ensures false
      {
        OneOf(h, root, p + r, Front(locs[j]));
        assert locs[k] <= Front(locs[j]);
        if j != k { NoneAbove(locs, j, k, p); }
      }
    }
  }

  /** The anchor of a location can be assigned to, exactly when the location is writable. */
  lemma AssignedAt(h0: Snapshot, h: Snapshot, root: Value, locs: seq<Location>, k: nat, v: Value)
    requires Setting(h0, root, locs) && OthersKept(h0, h, root, locs) && k < |locs| && Named(locs[k])
    ensures Known(h, AnchorFor(h0, root, locs[k]).parent)
    ensures Assigned(h, AnchorFor(h0, root, locs[k]), v).Ok? <==> Writable(h0, root, locs[k])
    ensures Writable(h0, root, locs[k]) ==>
              var parent, s := ValueAt(h0, root, Front(locs[k])).value, Last(locs[k]);
              CanWrite(h, parent, s) && Assigned(h, AnchorFor(h0, root, locs[k]), v) == Ok(Write(h, parent, s, Some(v)))
  {
    hide IsParent, Closed, Apart, Unshared, Write;
    AnchorParentKnown(h0, root, locs[k]);
    KeptKnown(h0, h, root, locs, AnchorFor(h0, root, locs[k]).parent);
  }

  function Repeat<T>(x: T, n: nat): (r: seq<T>)
    ensures |r| == n && forall i | 0 <= i < n :: r[i] == x
  {
    seq(n, _ => x)
  }

  /** The first location that cannot be written. */
  ghost predicate FirstFailure(h: Snapshot, root: Value, locs: seq<Location>, k: nat) {
    k < |locs| && !Writable(h, root, locs[k]) && forall i | 0 <= i < k :: Writable(h, root, locs[i])
  }

  lemma ChildOfRoot(h: Snapshot, root: Value, s: Selector)
    ensures ValueAt(h, root, [s]) == ChildAt(h, root, s)
  {
    RootValue(h, root);
    ValueAtNext(h, root, [], s);
    assert [] + [s] == [s];
  }

  lemma LevelOfOne(h: Snapshot, v: Value, loc: Location, step: PathStep)
    ensures Level(h, v, [loc], step) == OneLevel(h, v, loc, step)
  {
    assert [loc][1..] == [];
    BothNothing(OneLevel(h, v, loc, step));
  }

  /** A list and a byte array, in a list. */
  ghost function ListAndBytes(outer: ListObj, inner: ListObj): Snapshot {
    Snapshot(map[], map[outer := [ListRef(inner), Leaf(Bytes([7]))], inner := [Leaf(Int(1))]])
  }

  /** Both have a first element. */
  lemma BothResolve(outer: ListObj, inner: ListObj)
    requires outer != inner
    ensures var h, root := ListAndBytes(outer, inner), ListRef(outer);
            && Level(h, root, [[]], AllStep) == Ok([[Item(0)], [Item(1)]])
            && OneLevel(h, root, [Item(0)], IndexStep(0)) == Ok([[Item(0), Item(0)]])
            && OneLevel(h, root, [Item(1)], IndexStep(0)) == Ok([[Item(1), Item(0)]])
  {
    var h, root := ListAndBytes(outer, inner), ListRef(outer);
    var a, b: Location := [Item(0)], [Item(1)];
    ChildOfRoot(h, root, Item(0));
    ChildOfRoot(h, root, Item(1));
    LevelOfOne(h, root, [], AllStep);
    RootValue(h, root);
    assert Positions(2) == [a, b];
    assert [] + a == a && [] + b == b;
    assert Below([], [a, b]) == [a, b];
    assert a + a == [Item(0), Item(0)] && b + a == [Item(1), Item(0)];
    assert Below(a, [a]) == [a + a] && Below(b, [a]) == [b + a];
  }

  /** Setting the first element of each writes the first and fails at the second, an element of a typed array. */
  lemma FailsAtSecond(outer: ListObj, inner: ListObj)
    requires outer != inner
    ensures var h, locs := ListAndBytes(outer, inner), [[Item(0), Item(0)], [Item(1), Item(0)]];
            && Resolved(h, ListRef(outer), [AllStep, IndexStep(0)]) == Ok(locs)
            && FirstFailure(h, ListRef(outer), locs, 1)
  {
    hide OneLevel;
    var h, root, steps := ListAndBytes(outer, inner), ListRef(outer), [AllStep, IndexStep(0)];
    var a, b: Location := [Item(0)], [Item(1)];
    BothResolve(outer, inner);
    LevelOfOne(h, root, b, IndexStep(0));
    assert [a, b][1..] == [b];
    assert a + a == [Item(0), Item(0)] && b + a == [Item(1), Item(0)];
    assert [a + a] + [b + a] == [[Item(0), Item(0)], [Item(1), Item(0)]];
    assert Level(h, root, [a, b], IndexStep(0)) == Ok([a + a] + [b + a]);
    assert steps[1..] == [IndexStep(0)] && steps[1..][1..] == [];
    assert Front(a + a) == a && Front(b + a) == b;
    ChildOfRoot(h, root, Item(0));
    ChildOfRoot(h, root, Item(1));
  }

  lemma ResolvedSetting(h: Snapshot, root: Value, steps: seq<PathStep>)
    requires Closed(h) && Known(h, root) && Unshared(h, root) && Resolved(h, root, steps).Ok?
    ensures Setting(h, root, Resolved(h, root, steps).value)
  {
    hide ValueAt, Closed, Unshared;
    ResolvedIsMeaning(h, root, steps);
    var locs := Resolved(h, root, steps).value;
    forall i | 0 <= i < |locs| ensures ValueAt(h, root, locs[i]).Some? { assert locs[i] in locs; }
  }

  /**
     Write a value to everything a path selects. On success exactly the selected
     locations hold the value and no other location has changed; the number written is
     returned. The root itself and the elements of typed arrays cannot be written: the
     first of those ends it, and the locations before it stay written.
   */
  method Set(root: Value, steps: seq<PathStep>, v: Value, ghost h: Snapshot)
    returns (r: Result<nat, PathError>, ghost h': Snapshot)
    requires Current(h) && Known(h, root) && Known(h, v) && Unshared(h, root) && Foreign(h, v, root)
    requires forall i | 0 <= i < |steps| :: NamedStep(steps[i])
    modifies h.comps.Keys, h.lists.Keys
    ensures Current(h')
    ensures Resolved(h, root, steps).Err? ==> r == Err(Resolved(h, root, steps).error) && h' == h
    ensures Resolved(h, root, steps).Ok? ==>
              var locs := Resolved(h, root, steps).value;
              && (r.Ok? <==> forall i | 0 <= i < |locs| :: Writable(h, root, locs[i]))
              && (r.Ok? ==> r.value == |locs| && Placed(h, h', root, locs, Repeat(Some(v), |locs|)))
              && (r.Err? ==>
                   exists k {:trigger FirstFailure(h, root, locs, k)} ::
                     FirstFailure(h, root, locs, k) && Placed(h, h', root, locs, Repeat(Some(v), k)))
              && (forall q :: ValueAt(h', v, q) == ValueAt(h, v, q))
  {
    hide ValueAt, Closed, Unshared, Foreign, Progress, Setting, Writable, Assigned, AnchorFor, Placed, Write, Named;
    hide Sound, OthersKept, Avoids, AllSound, Resolved, CanWrite, Current;
    h' := h;
    var anchors := Resolve(root, steps, h);
    if anchors.Err? { return Err(anchors.error), h; }
    ghost var locs := Resolved(h, root, steps).value;
    CurrentIsClosed(h);
    ResolvedSetting(h, root, steps);
    ForeignAvoids(h, root, locs, v);
    Start(h, root, locs);
    assert Repeat(Some(v), 0) == [];
    for k := 0 to |anchors.value|
      invariant Current(h') && h'.comps.Keys == h.comps.Keys && h'.lists.Keys == h.lists.Keys
      invariant Progress(h, h', root, locs, Repeat(Some(v), k))
      invariant forall i | 0 <= i < k :: Writable(h, root, locs[i])
    {
      ghost var before := h';
      OpenProgress(h, h', root, locs, Repeat(Some(v), k));
      assert Named(locs[k]) by { assert locs[k] in locs; }
      SettingKnown(h, root, locs);
      AssignedAt(h, h', root, locs, k, v);
      KeptKnown(h, h', root, locs, v);
      var failed: Option<PathError>;
      failed, h' := SetAnchor(anchors.value[k], v, h');
      if failed.Some? {
        forall q ensures ValueAt(h', v, q) == ValueAt(h, v, q) { AvoidsKept(h, h', root, locs, v, q); }
        assert FirstFailure(h, root, locs, k);
        return Err(failed.value), h';
      }
      OldIsSound(h, before, root, locs, v);
      OneMore(h, before, root, locs, Repeat(Some(v), k), Some(v));
      assert Repeat(Some(v), k) + [Some(v)] == Repeat(Some(v), k + 1);
    }
    OpenProgress(h, h', root, locs, Repeat(Some(v), |locs|));
    forall q ensures ValueAt(h', v, q) == ValueAt(h, v, q) { AvoidsKept(h, h', root, locs, v, q); }
    return Ok(|anchors.value|), h';
  }

  lemma OpenProgress(h0: Snapshot, h: Snapshot, root: Value, locs: seq<Location>, ws: seq<Written>)
    requires Progress(h0, h, root, locs, ws)
    ensures OthersKept(h0, h, root, locs) && AllSound(h0, h, root, locs, ws) && Placed(h0, h, root, locs, ws)
  {
  }

  lemma CurrentIsClosed(h: Snapshot)
    requires Current(h)
    ensures Closed(h)
  {
  }

  lemma SettingKnown(h0: Snapshot, root: Value, locs: seq<Location>)
    requires Setting(h0, root, locs)
    ensures Closed(h0) && Known(h0, root)
  {
  }

  lemma OldIsSound(h0: Snapshot, h: Snapshot, root: Value, locs: seq<Location>, w: Value)
    requires Known(h0, w) && Avoids(h0, root, locs, w)
    ensures Sound(h0, h, root, locs, w)
  {
  }

  // ----- editing lists

  /** A change of the items of one list. */
  datatype Edit =
    | InsertAtEnd(v: Value)
    | InsertAt(index: int, v: Value)
    | RemoveIndex(index: int)
    | RemoveAll
    | RemoveMatching(filter: map<string, Tree>)

  /** The items that do not match, among the first `n`. */
  ghost function NotMatching(h: Snapshot, xs: seq<Value>, filter: map<string, Tree>, n: nat): (r: seq<Value>)
    requires n <= |xs|
    ensures |r| <= n && forall x | x in r :: x in xs
  {
    if n == 0 then []
    else NotMatching(h, xs, filter, n - 1) + if IsMatchingCompound(h, xs[n - 1], filter) then [] else [xs[n - 1]]
  }

  /** The items after the edit. Inserting also works on typed arrays, removing on lists only. */
  ghost function NewItems(h: Snapshot, y: Value, e: Edit): Result<seq<Value>, PathError> {
    if !IsSliceValue(h, y) || (y.Leaf? && !e.InsertAtEnd? && !e.InsertAt?) then Err(NotAList)
    else
      var xs := ElementValues(h, y);
      match e
      case InsertAtEnd(v) => Ok(xs + [v])
      case InsertAt(i, v) => if 0 <= i <= |xs| then Ok(xs[..i] + [v] + xs[i..]) else Err(IndexOutOfBounds)
      case RemoveIndex(i) => if 0 <= i < |xs| then Ok(xs[..i] + xs[i + 1..]) else Err(IndexOutOfBounds)
      case RemoveAll => Ok([])
      case RemoveMatching(filter) => Ok(NotMatching(h, xs, filter, |xs|))
  }

  /** How many tags the edit inserts or removes. */
  ghost function Affected(h: Snapshot, y: Value, e: Edit): nat
    requires NewItems(h, y, e).Ok?
  {
    match e
    case RemoveAll => |ElementValues(h, y)|
    case RemoveMatching(filter) => |ElementValues(h, y)| - |NewItems(h, y, e).value|
    case _ => 1
  }

  predicate Inserts(e: Edit) {
    e.InsertAtEnd? || e.InsertAt?
  }

  lemma NewItemsAre(h: Snapshot, y: Value, e: Edit)
    requires NewItems(h, y, e).Ok?
    ensures IsSliceValue(h, y)
    ensures forall x | x in NewItems(h, y, e).value :: x in ElementValues(h, y) || (Inserts(e) && x == e.v)
  {
  }

  ghost predicate Editable(h: Snapshot, root: Value, loc: Location, e: Edit) {
    Writable(h, root, loc) && ValueAt(h, root, loc).Some? && NewItems(h, ValueAt(h, root, loc).value, e).Ok?
  }

  ghost predicate AllEditable(h: Snapshot, root: Value, locs: seq<Location>, e: Edit) {
    forall i | 0 <= i < |locs| :: Editable(h, root, locs[i], e)
  }

  ghost function TotalAffected(h: Snapshot, root: Value, locs: seq<Location>, e: Edit, n: nat): nat
    requires n <= |locs| && forall i | 0 <= i < n :: Editable(h, root, locs[i], e)
  {
    if n == 0 then 0
    else
      assert Editable(h, root, locs[n - 1], e);
      TotalAffected(h, root, locs, e, n - 1) + Affected(h, ValueAt(h, root, locs[n - 1]).value, e)
  }

  /** The written value is a new list with the edited items of the old one. */
  ghost predicate EditedInto(h0: Snapshot, h: Snapshot, root: Value, loc: Location, e: Edit, w: Written) {
    && Editable(h0, root, loc, e)
    && w.Some? && w.value.ListRef? && w.value.l !in h0.lists && w.value.l in h.lists
    && h.lists[w.value.l] == NewItems(h0, ValueAt(h0, root, loc).value, e).value
  }

  ghost predicate AllEditedInto(h0: Snapshot, h: Snapshot, root: Value, locs: seq<Location>, e: Edit, ws: seq<Written>)
    requires |ws| <= |locs|
  {
    forall i | 0 <= i < |ws| :: EditedInto(h0, h, root, locs[i], e, ws[i])
  }

  /** An anchor not yet passed still reads what was there at the start. */
  lemma StillReads(h0: Snapshot, h: Snapshot, root: Value, locs: seq<Location>, ws: seq<Written>, loc: Location)
    requires |ws| <= |locs| && Placed(h0, h, root, locs, ws) && ValueAt(h0, root, loc).Some? && Named(loc)
    requires forall i | 0 <= i < |ws| :: !(locs[i] <= loc)
    ensures AnchorValue(h, AnchorFor(h0, root, loc)) == ValueAt(h0, root, loc)
    ensures ValueAt(h, root, loc) == ValueAt(h0, root, loc)
  {
    hide Placed, ValueAt, ChildAt;
    ValueAtAt(h0, h, root, locs, ws, loc);
    if loc == [] {
      RootValue(h0, root);
    } else {
      forall i | 0 <= i < |ws| ensures !(locs[i] <= Front(loc)) { PrefixesCompare(locs[i], loc, loc); }
      ValueAtAt(h0, h, root, locs, ws, Front(loc));
      assert Front(loc) + [Last(loc)] == loc;
      ValueAtNext(h0, root, Front(loc), Last(loc));
      ValueAtNext(h, root, Front(loc), Last(loc));
    }
  }

  lemma {:induction false} MatchKept(h0: Snapshot, h: Snapshot, root: Value, locs: seq<Location>, x: Value,
                                     filter: Tree)
    requires Closed(h0) && Known(h0, x) && OthersKept(h0, h, root, locs) && Avoids(h0, root, locs, x)
    ensures MatchValue(h, x, filter) == MatchValue(h0, x, filter)
    decreases filter, 2
  {
    hide IsParent, Avoids, Closed, OthersKept, ElementValues;
    SameHere(h0, h, root, locs, x);
    if filter.Comp? {
      if x.CompoundRef? { MembersKept(h0, h, root, locs, x, filter); }
    } else if filter.List? && IsSliceValue(h0, x) {
      ItemsKept(h0, h, root, locs, x, filter);
    }
  }

  lemma ItemsKept(h0: Snapshot, h: Snapshot, root: Value, locs: seq<Location>, x: Value, filter: Tree)
    requires Closed(h0) && Known(h0, x) && OthersKept(h0, h, root, locs) && Avoids(h0, root, locs, x)
    requires filter.List? && IsSliceValue(h0, x)
    ensures MatchValue(h, x, filter) == MatchValue(h0, x, filter)
    decreases filter, 1
  {
    hide IsParent, Avoids, Closed, OthersKept, ElementValues, HasValue;
    SameHere(h0, h, root, locs, x);
    forall i | 0 <= i < |filter.items|
      ensures HasValue(h, x, filter.items[i]) == HasValue(h0, x, filter.items[i])
    {
      HasKept(h0, h, root, locs, x, filter, i);
    }
  }

  lemma MembersKept(h0: Snapshot, h: Snapshot, root: Value, locs: seq<Location>, x: Value, filter: Tree)
    requires Closed(h0) && Known(h0, x) && OthersKept(h0, h, root, locs) && Avoids(h0, root, locs, x)
    requires x.CompoundRef? && filter.Comp?
    ensures MatchValue(h, x, filter) == MatchValue(h0, x, filter)
    decreases filter, 1
  {
    hide IsParent, Avoids, Closed, OthersKept;
    SameHere(h0, h, root, locs, x);
    forall k | k in filter.members && k in h0.comps[x.c]
      ensures MatchValue(h, h0.comps[x.c][k], filter.members[k]) == MatchValue(h0, h0.comps[x.c][k], filter.members[k])
    {
      ChildAvoids(h0, root, locs, x, Member(k));
      MatchKept(h0, h, root, locs, h0.comps[x.c][k], filter.members[k]);
    }
  }

  lemma HasKept(h0: Snapshot, h: Snapshot, root: Value, locs: seq<Location>, x: Value, filter: Tree, i: nat)
    requires Closed(h0) && Known(h0, x) && OthersKept(h0, h, root, locs) && Avoids(h0, root, locs, x)
    requires filter.List? && i < |filter.items| && IsSliceValue(h0, x)
    ensures IsSliceValue(h, x) && HasValue(h, x, filter.items[i]) == HasValue(h0, x, filter.items[i])
    decreases filter, 0
  {
    hide IsParent, Avoids, Closed, MatchValue;
    SameHere(h0, h, root, locs, x);
    forall j | 0 <= j < |ElementValues(h0, x)|
      ensures MatchValue(h, ElementValues(h0, x)[j], filter.items[i])
              == MatchValue(h0, ElementValues(h0, x)[j], filter.items[i])
    {
      ChildAvoids(h0, root, locs, x, Item(j));
      MatchKept(h0, h, root, locs, ElementValues(h0, x)[j], filter.items[i]);
    }
  }

  lemma SameHere(h0: Snapshot, h: Snapshot, root: Value, locs: seq<Location>, x: Value)
    requires Known(h0, x) && OthersKept(h0, h, root, locs) && Avoids(h0, root, locs, x)
    ensures x.CompoundRef? ==> x.c in h.comps && h.comps[x.c] == h0.comps[x.c]
    ensures IsSliceValue(h, x) <==> IsSliceValue(h0, x)
    ensures IsSliceValue(h0, x) ==> ElementValues(h, x) == ElementValues(h0, x)
  {
    hide IsParent;
    RootValue(h0, x);
    AvoidsAt(h0, root, locs, x, []);
  }

  lemma ChildAvoids(h: Snapshot, root: Value, locs: seq<Location>, x: Value, s: Selector)
    requires Closed(h) && Known(h, x) && Avoids(h, root, locs, x) && ChildAt(h, x, s).Some?
    ensures Known(h, ChildAt(h, x, s).value) && Avoids(h, root, locs, ChildAt(h, x, s).value)
  {
    hide IsParent;
    var y := ChildAt(h, x, s).value;
    assert [] + [s] == [s];
    ValueAtNext(h, x, [], s);
    ReachedIsKnown(h, x, [s]);
    forall r {:trigger ValueAt(h, y, r)} | ValueAt(h, y, r).Some?
      ensures !IsParent(h, root, locs, ValueAt(h, y, r).value)
    {
      ValueAtConcat(h, x, [s], r);
      AvoidsAt(h, root, locs, x, [s] + r);
    }
  }

  /** The new items of one list, read as the memory is now. */
  method EditItems(y: Value, e: Edit, ghost h0: Snapshot, ghost h: Snapshot, ghost root: Value,
                   ghost locs: seq<Location>)
    returns (r: Result<seq<Value>, PathError>, affected: nat)
    requires Current(h) && Closed(h0) && Known(h0, y) && Known(h, y) && OthersKept(h0, h, root, locs) &&
             Avoids(h0, root, locs, y)
    ensures r == NewItems(h0, y, e) && (r.Ok? ==> affected == Affected(h0, y, e))
  {
    hide Avoids, OthersKept, IsParent, Current, ElementValues, NotMatching;
    SameHere(h0, h, root, locs, y);
    if !Inserts(e) && !y.ListRef? { return Err(NotAList), 0; }
    var slice := ToSlice(y, h);
    if slice == None { return Err(NotAList), 0; }
    var xs := slice.value;
    match e {
      case InsertAtEnd(v) =>
        return Ok(xs + [v]), 1;
      case InsertAt(i, v) =>
        if i < 0 || i > |xs| { return Err(IndexOutOfBounds), 0; }
        return Ok(xs[..i] + [v] + xs[i..]), 1;
      case RemoveIndex(i) =>
        if i < 0 || i >= |xs| { return Err(IndexOutOfBounds), 0; }
        return Ok(xs[..i] + xs[i + 1..]), 1;
      case RemoveAll =>
        return Ok([]), |xs|;
      case RemoveMatching(filter) =>
        var kept, removed := KeepUnmatched(y, xs, filter, h0, h, root, locs);
        return Ok(kept), removed;
    }
  }

  method KeepUnmatched(y: Value, xs: seq<Value>, filter: map<string, Tree>,
                       ghost h0: Snapshot, ghost h: Snapshot, ghost root: Value, ghost locs: seq<Location>)
    returns (kept: seq<Value>, removed: nat)
    requires Current(h) && Closed(h0) && Known(h0, y) && Known(h, y) && OthersKept(h0, h, root, locs) &&
             Avoids(h0, root, locs, y)
    requires IsSliceValue(h0, y) && xs == ElementValues(h0, y)
    ensures kept == NotMatching(h0, xs, filter, |xs|) && removed == |xs| - |kept|
  {
    hide Avoids, OthersKept, IsParent, NotMatching, MatchValue, ElementValues;
    SameHere(h0, h, root, locs, y);
    KnownElements(h, y);
    kept, removed := [], 0;
    assert NotMatching(h0, xs, filter, 0) == [] by { NotMatchingNext(h0, xs, filter, 0); }
    for i := 0 to |xs|
      invariant kept == NotMatching(h0, xs, filter, i) && removed == i - |kept|
    {
      NotMatchingNext(h0, xs, filter, i);
      ElementAvoids(h0, root, locs, y, i);
      var matched := false;
      if xs[i].CompoundRef? {
        matched := Matches(xs[i], Comp(filter), h);
        MatchKept(h0, h, root, locs, xs[i], Comp(filter));
      }
      if matched { removed := removed + 1; } else { kept := kept + [xs[i]]; }
    }
  }

  lemma NotMatchingNext(h: Snapshot, xs: seq<Value>, filter: map<string, Tree>, n: nat)
    ensures n == 0 ==> NotMatching(h, xs, filter, 0) == []
    ensures n < |xs| ==>
              var more := if IsMatchingCompound(h, xs[n], filter) then [] else [xs[n]];
              NotMatching(h, xs, filter, n + 1) == NotMatching(h, xs, filter, n) + more
  {
  }

  lemma ElementAvoids(h: Snapshot, root: Value, locs: seq<Location>, y: Value, i: nat)
    requires Closed(h) && Known(h, y) && Avoids(h, root, locs, y) && IsSliceValue(h, y) && i < |ElementValues(h, y)|
    ensures Known(h, ElementValues(h, y)[i]) && Avoids(h, root, locs, ElementValues(h, y)[i])
  {
    hide Avoids;
    ChildAvoids(h, root, locs, y, Item(i));
  }

  /** The new list of an edit is made of values that avoid the parents. */
  lemma NewListIsSound(h0: Snapshot, h: Snapshot, root: Value, locs: seq<Location>, y: Value, e: Edit, l: ListObj)
    requires Closed(h0) && Known(h0, y) && Avoids(h0, root, locs, y) && NewItems(h0, y, e).Ok?
    requires Inserts(e) ==> Known(h0, e.v) && Avoids(h0, root, locs, e.v)
    requires l !in h0.lists && l in h.lists && h.lists[l] == NewItems(h0, y, e).value
    ensures Sound(h0, h, root, locs, ListRef(l))
  {
    hide Avoids, NewItems, Closed, ElementValues;
    NewItemsAre(h0, y, e);
    forall x | x in h.lists[l] ensures Known(h0, x) && Avoids(h0, root, locs, x) {
      if x in ElementValues(h0, y) {
        var i :| 0 <= i < |ElementValues(h0, y)| && ElementValues(h0, y)[i] == x;
        ElementAvoids(h0, root, locs, y, i);
      }
    }
  }

  lemma EditedStays(h0: Snapshot, h: Snapshot, h': Snapshot, root: Value, loc: Location, e: Edit, w: Written)
    requires EditedInto(h0, h, root, loc, e, w)
    requires forall l | l in h.lists && l !in h0.lists :: l in h'.lists && h'.lists[l] == h.lists[l]
    ensures EditedInto(h0, h', root, loc, e, w)
  {
  }

  lemma OpenSetting(h0: Snapshot, root: Value, locs: seq<Location>, k: nat)
    requires Setting(h0, root, locs) && k < |locs|
    ensures Closed(h0) && Known(h0, root) && ValueAt(h0, root, locs[k]).Some?
    ensures forall i | 0 <= i < k :: !(locs[i] <= locs[k])
  {
    forall i | 0 <= i < k ensures !(locs[i] <= locs[k]) { NoneAbove(locs, k, i, locs[k]); }
  }

  lemma NewItemsKnown(h0: Snapshot, h: Snapshot, root: Value, locs: seq<Location>, y: Value, e: Edit)
    requires Closed(h0) && Known(h0, y) && OthersKept(h0, h, root, locs) && NewItems(h0, y, e).Ok?
    requires Inserts(e) ==> Known(h0, e.v)
    ensures forall x | x in NewItems(h0, y, e).value :: Known(h, x)
  {
    hide NewItems, OthersKept, Known, Closed;
    NewItemsAre(h0, y, e);
    KnownElements(h0, y);
    forall x | x in NewItems(h0, y, e).value ensures Known(h, x) { KeptKnown(h0, h, root, locs, x); }
  }

  lemma CurrentWithList(h: Snapshot, l: ListObj, xs: seq<Value>)
    requires Current(h) && l !in h.lists && l.items == xs && forall x | x in xs :: Known(h, x)
    ensures Current(WithList(h, l, xs))
    ensures WithList(h, l, xs).comps.Keys == h.comps.Keys && WithList(h, l, xs).lists.Keys == h.lists.Keys + {l}
    ensures forall k | k in h.lists :: WithList(h, l, xs).lists[k] == h.lists[k]
    ensures l in WithList(h, l, xs).lists && WithList(h, l, xs).lists[l] == xs
    ensures Known(WithList(h, l, xs), ListRef(l))
  {
    var h' := WithList(h, l, xs);
    forall m, i {:trigger h'.lists[m][i]} | m in h'.lists && 0 <= i < |h'.lists[m]|
      ensures Known(h', h'.lists[m][i])
    {
      if m == l { assert xs[i] in xs; } else { assert Known(h, h.lists[m][i]); }
    }
  }

  lemma KeptBack(h0: Snapshot, h: Snapshot, root: Value, locs: seq<Location>, l: ListObj)
    requires OthersKept(h0, h, root, locs)
    ensures l !in h.lists ==> l !in h0.lists
  {
  }

  /** Writing to a place below the root leaves the new lists alone. */
  lemma ListsKept(h0: Snapshot, h: Snapshot, root: Value, locs: seq<Location>, parent: Value, s: Selector, w: Written)
    requires CanWrite(h, parent, s) && (w == None ==> s.Member?) && Known(h0, parent)
    ensures forall l | l in h.lists && l !in h0.lists ::
            l in Write(h, parent, s, w).lists && Write(h, parent, s, w).lists[l] == h.lists[l]
  {
  }

  lemma ShowEdited(h0: Snapshot, h: Snapshot, root: Value, loc: Location, e: Edit, l: ListObj)
    requires Editable(h0, root, loc, e) && l !in h0.lists && l in h.lists
    requires h.lists[l] == NewItems(h0, ValueAt(h0, root, loc).value, e).value
    ensures EditedInto(h0, h, root, loc, e, Some(ListRef(l)))
  {
  }

  lemma ParentIsOld(h0: Snapshot, root: Value, loc: Location)
    requires Closed(h0) && Known(h0, root) && Writable(h0, root, loc)
    ensures Known(h0, ValueAt(h0, root, Front(loc)).value)
  {
    ReachedIsKnown(h0, root, Front(loc));
  }

  /** The list at an anchor not yet passed, edited. */
  method ReadItems(a: Anchor, e: Edit, ghost k: nat, ghost h0: Snapshot, ghost h: Snapshot, ghost root: Value,
                   ghost locs: seq<Location>, ghost ws: seq<Written>)
    returns (r: Result<seq<Value>, PathError>, affected: nat)
    requires Current(h) && Setting(h0, root, locs) && Progress(h0, h, root, locs, ws) && |ws| == k < |locs|
    requires Named(locs[k]) && a == AnchorFor(h0, root, locs[k])
    ensures ValueAt(h0, root, locs[k]).Some?
    ensures r == NewItems(h0, ValueAt(h0, root, locs[k]).value, e)
    ensures r.Ok? ==> affected == Affected(h0, ValueAt(h0, root, locs[k]).value, e)
  {
    hide ValueAt, Closed, Progress, Setting, AnchorFor, AnchorValue, Placed, Named, Sound, OthersKept, Avoids, AllSound;
    hide Current, NewItems, Affected, Apart;
    var loc := locs[k];
    OpenProgress(h0, h, root, locs, ws);
    OpenSetting(h0, root, locs, k);
    StillReads(h0, h, root, locs, ws, loc);
    BelowAvoids(h0, root, locs, k, loc);
    AssignedAt(h0, h, root, locs, k, root);
    var read := ReadAnchor(a, h);
    ReachedIsKnown(h0, root, loc);
    KeptKnown(h0, h, root, locs, read.value);
    r, affected := EditItems(read.value, e, h0, h, root, locs);
  }

  /** A new list in memory; nothing below the root sees it yet. */
  method NewList(xs: seq<Value>, ghost h0: Snapshot, ghost h: Snapshot, ghost root: Value, ghost locs: seq<Location>,
                 ghost ws: seq<Written>)
    returns (list: ListObj)
    requires Current(h) && Closed(h0) && Known(h0, root) && Progress(h0, h, root, locs, ws) &&
             forall x | x in xs :: Known(h, x)
    ensures fresh(list) && list !in h.lists && list !in h0.lists
    ensures Current(WithList(h, list, xs)) && Progress(h0, WithList(h, list, xs), root, locs, ws)
    ensures Known(WithList(h, list, xs), ListRef(list))
  {
    hide Closed, Progress, WithList, Known;
    list := new ListObj(xs);
    CurrentWithList(h, list, xs);
    OpenProgress(h0, h, root, locs, ws);
    KeptBack(h0, h, root, locs, list);
    NewListKeeps(h0, h, root, locs, ws, list, xs);
  }

  lemma WithListHas(h: Snapshot, l: ListObj, xs: seq<Value>)
    requires l !in h.lists
    ensures WithList(h, l, xs).comps == h.comps && WithList(h, l, xs).lists.Keys == h.lists.Keys + {l}
    ensures WithList(h, l, xs).lists[l] == xs && forall m | m in h.lists :: WithList(h, l, xs).lists[m] == h.lists[m]
  {
  }

  /** One anchor: a new list is made of the edited items, and put in the old one's place. */
  method EditOne(a: Anchor, e: Edit, ghost k: nat, ghost h0: Snapshot, ghost h: Snapshot, ghost root: Value,
                 ghost locs: seq<Location>, ghost ws: seq<Written>)
    returns (r: Result<nat, PathError>, ghost h': Snapshot, ghost w: Written)
    requires Current(h) && Setting(h0, root, locs) && Progress(h0, h, root, locs, ws) && |ws| == k < |locs|
    requires Named(locs[k]) && a == AnchorFor(h0, root, locs[k])
    requires Inserts(e) ==> Known(h0, e.v) && Avoids(h0, root, locs, e.v)
    modifies h.comps.Keys, h.lists.Keys
    ensures Current(h') && h.comps.Keys == h'.comps.Keys && h.lists.Keys <= h'.lists.Keys &&
            fresh(h'.lists.Keys - h.lists.Keys)
    ensures r.Ok? <==> Editable(h0, root, locs[k], e)
    ensures r.Ok? ==> r.value == Affected(h0, ValueAt(h0, root, locs[k]).value, e)
    ensures r.Ok? ==> Progress(h0, h', root, locs, ws + [w]) && EditedInto(h0, h', root, locs[k], e, w)
    ensures r.Err? ==> Progress(h0, h', root, locs, ws)
    ensures forall l | l in h.lists && l !in h0.lists :: l in h'.lists && h'.lists[l] == h.lists[l]
  {
    hide ValueAt, Closed, Progress, Setting, Assigned, AnchorFor, AnchorValue, Placed, Write, Named, Sound, OthersKept;
    hide Avoids, AllSound, CanWrite, Current, NewItems, Affected, EditedInto, Apart, WithList, Known, Front, Last;
    var loc := locs[k];
    OpenProgress(h0, h, root, locs, ws);
    OpenSetting(h0, root, locs, k);
    BelowAvoids(h0, root, locs, k, loc);
    ghost var y := ValueAt(h0, root, loc).value;
    ReachedIsKnown(h0, root, loc);
    var items, affected := ReadItems(a, e, k, h0, h, root, locs, ws);
    if items.Err? { return Err(items.error), h, None; }
    NewItemsKnown(h0, h, root, locs, y, e);
    var list := NewList(items.value, h0, h, root, locs, ws);
    ghost var h1 := WithList(h, list, items.value);
    WithListHas(h, list, items.value);
    OpenProgress(h0, h1, root, locs, ws);
    AssignedAt(h0, h1, root, locs, k, ListRef(list));
    var failed: Option<PathError>;
    failed, h' := SetAnchor(a, ListRef(list), h1);
    if failed.Some? { return Err(failed.value), h', None; }
    w := Some(ListRef(list));
    NewListIsSound(h0, h1, root, locs, y, e, list);
    OneMore(h0, h1, root, locs, ws, w);
    ParentIsOld(h0, root, loc);
    ListsKept(h0, h1, root, locs, ValueAt(h0, root, Front(loc)).value, Last(loc), w);
    ShowEdited(h0, h', root, loc, e, list);
    return Ok(affected), h', w;
  }
}
