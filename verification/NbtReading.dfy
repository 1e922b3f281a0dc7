/**
 What a path selects, said of the values it reaches: one location per choice of a child at
 each step, in ascending order, and a failure exactly when some step cannot be taken.
 */
module NbtReading {
  import opened Wrappers
  import opened NbtTrees
  import opened NbtObjects
  import opened NbtPaths

  /** The value is a compound whose members the filter asks for. */
  ghost predicate Meets(h: Snapshot, v: Value, filter: map<string, Tree>) {
    v.CompoundRef? && v.c in h.comps && MatchValue(h, v, Comp(filter))
  }

  /** One step leads from the value to what lies at `q` below it. */
  ghost predicate Takes(h: Snapshot, v: Value, step: PathStep, q: Location) {
    match step
    case MemberStep(name) => q == [Member(name)] && v.CompoundRef? && v.c in h.comps && name in h.comps[v.c]
    case IndexStep(i) => i >= 0 && q == [Item(i)] && IsSliceValue(h, v) && i < |ElementValues(h, v)|
    case AllStep => |q| == 1 && q[0].Item? && IsSliceValue(h, v) && q[0].index < |ElementValues(h, v)|
    case SelfMatch(filter) => q == [] && Meets(h, v, filter)
    case MatchAll(filter) =>
      && |q| == 1 && q[0].Item? && IsSliceValue(h, v) && q[0].index < |ElementValues(h, v)|
      && Meets(h, ElementValues(h, v)[q[0].index], filter)
  }

  /** The step can be taken from the value; selecting from an empty list is no failure. */
  ghost predicate Possible(h: Snapshot, v: Value, step: PathStep) {
    match step
    case MemberStep(name) => v.CompoundRef? && v.c in h.comps && name in h.comps[v.c]
    case IndexStep(i) => IsSliceValue(h, v) && 0 <= i < |ElementValues(h, v)|
    case AllStep => IsSliceValue(h, v)
    case SelfMatch(filter) => Meets(h, v, filter)
    case MatchAll(_) => IsSliceValue(h, v)
  }

  /** The steps lead, one after the other, to the location. */
  ghost predicate Leads(h: Snapshot, v: Value, steps: seq<PathStep>, q: Location)
    decreases |steps|
  {
    if steps == [] then q == []
    else
      var n := if steps[0].SelfMatch? then 0 else 1;
      && n <= |q| && Takes(h, v, steps[0], q[..n]) && ValueAt(h, v, q[..n]).Some?
      && Leads(h, ValueAt(h, v, q[..n]).value, steps[1..], q[n..])
  }

  /** From wherever the first steps lead the next one can be taken. */
  ghost predicate NeverStuck(h: Snapshot, v: Value, steps: seq<PathStep>)
    decreases |steps|
  {
    steps == [] ||
    (&& Possible(h, v, steps[0])
     && forall q | Takes(h, v, steps[0], q) && ValueAt(h, v, q).Some? ::
          NeverStuck(h, ValueAt(h, v, q).value, steps[1..]))
  }

  /** At the first selector where they differ the one has the smaller index. */
  predicate Before(p: Location, q: Location) {
    exists k :: 0 <= k < |p| && k < |q| && p[..k] == q[..k] && p[k].Item? && q[k].Item? && p[k].index < q[k].index
  }

  predicate Ascending(locs: seq<Location>) {
    forall i, j | 0 <= i < j < |locs| :: Before(locs[i], locs[j])
  }

  // ----- one step

  lemma ItemsBefore(i: nat, j: nat)
    requires i < j
    ensures Before([Item(i)], [Item(j)])
  {
    var p, q := [Item(i)], [Item(j)];
    assert p[..0] == q[..0] && p[0].index < q[0].index;
  }

  lemma {:induction false} MatchingIs(h: Snapshot, es: seq<Value>, filter: map<string, Tree>, n: nat)
    requires n <= |es|
    ensures forall q: Location :: q in Matching(h, es, filter, n) <==>
              |q| == 1 && q[0].Item? && q[0].index < n && IsMatchingCompound(h, es[q[0].index], filter)
    ensures Ascending(Matching(h, es, filter, n))
  {
    hide IsMatchingCompound, Before;
    if n == 0 {
    } else {
      MatchingIs(h, es, filter, n - 1);
      var before, all := Matching(h, es, filter, n - 1), Matching(h, es, filter, n);
      forall i, j | 0 <= i < j < |all| ensures Before(all[i], all[j]) {
        if j == |before| {
          assert all[i] in before && all[i] == [Item(all[i][0].index)];
          ItemsBefore(all[i][0].index, n - 1);
        }
      }
      forall q: Location
        ensures q in all <==> |q| == 1 && q[0].Item? && q[0].index < n && IsMatchingCompound(h, es[q[0].index], filter)
      {
        assert q in all <==> q in before || (IsMatchingCompound(h, es[n - 1], filter) && q == [Item(n - 1)]);
      }
    }
  }

  lemma PositionsAre(n: nat)
    ensures forall q: Location :: q in Positions(n) <==> |q| == 1 && q[0].Item? && q[0].index < n
    ensures Ascending(Positions(n))
  {
    forall q: Location | |q| == 1 && q[0].Item? && q[0].index < n ensures q in Positions(n) {
      assert Positions(n)[q[0].index] == q;
    }
    forall i, j | 0 <= i < j < n ensures Before(Positions(n)[i], Positions(n)[j]) { ItemsBefore(i, j); }
  }

  lemma MeetsIs(h: Snapshot, v: Value, filter: map<string, Tree>)
    ensures Meets(h, v, filter) <==> IsMatchingCompound(h, v, filter)
  {
  }

  /** A step selects where it leads, in ascending order, and fails exactly when it cannot be taken. */
  lemma SelectIs(h: Snapshot, v: Value, step: PathStep)
    ensures Select(h, v, step).Ok? <==> Possible(h, v, step)
    ensures Select(h, v, step).Ok? ==>
              && (forall q :: q in Select(h, v, step).value <==> Takes(h, v, step, q))
              && Ascending(Select(h, v, step).value)
  {
    hide MatchValue, ElementValues, Matching, Positions, Before;
    if Possible(h, v, step) {
      match step {
        case AllStep => PositionsAre(|ElementValues(h, v)|);
        case MatchAll(filter) =>
          var es := ElementValues(h, v);
          MatchingIs(h, es, filter, |es|);
          forall i | 0 <= i < |es| ensures Meets(h, es[i], filter) <==> IsMatchingCompound(h, es[i], filter) {
            MeetsIs(h, es[i], filter);
          }
        case _ =>
      }
    }
  }

  // ----- whole paths

  /** A step that leads somewhere leads to a value, as far down as the step goes. */
  lemma TakesAChild(h: Snapshot, v: Value, step: PathStep, q: Location)
    requires Takes(h, v, step, q)
    ensures |q| == (if step.SelfMatch? then 0 else 1)
    ensures ValueAt(h, v, q).Some?
    ensures step.MemberStep? ==> ValueAt(h, v, q) == Some(h.comps[v.c][step.name])
    ensures step.IndexStep? || step.AllStep? || step.MatchAll? ==>
              ValueAt(h, v, q) == Some(ElementValues(h, v)[q[0].index])
    ensures step.SelfMatch? ==> ValueAt(h, v, q) == Some(v)
  {
    hide ValueAt, MatchValue, ElementValues;
    RootValue(h, v);
    if |q| == 1 {
      assert q == [] + [q[0]];
      ValueAtNext(h, v, [], q[0]);
    }
  }

  lemma BeforeBelow(p: Location, a: Location, b: Location)
    requires Before(a, b)
    ensures Before(p + a, p + b)
  {
    var k :| 0 <= k < |a| && k < |b| && a[..k] == b[..k] && a[k].Item? && b[k].Item? && a[k].index < b[k].index;
    assert (p + a)[..|p| + k] == p + a[..k] && (p + b)[..|p| + k] == p + b[..k];
    assert (p + a)[|p| + k] == a[k] && (p + b)[|p| + k] == b[k];
  }

  lemma BeforeLonger(p: Location, q: Location, a: Location, b: Location)
    requires Before(p, q)
    ensures Before(p + a, q + b)
  {
    var k :| 0 <= k < |p| && k < |q| && p[..k] == q[..k] && p[k].Item? && q[k].Item? && p[k].index < q[k].index;
    assert (p + a)[..k] == p[..k] && (q + b)[..k] == q[..k];
    assert (p + a)[k] == p[k] && (q + b)[k] == q[k];
  }

  /** What lies at the locations, each followed by the rest of the path. */
  ghost predicate LeadsFrom(h: Snapshot, v: Value, locs: seq<Location>, n: nat, steps: seq<PathStep>, q: Location) {
    && n <= |q| && q[..n] in locs && ValueAt(h, v, q[..n]).Some?
    && Leads(h, ValueAt(h, v, q[..n]).value, steps, q[n..])
  }

  lemma BelowIs(p: Location, rs: seq<Location>)
    ensures forall q :: q in Below(p, rs) <==> |p| <= |q| && q[..|p|] == p && q[|p|..] in rs
    ensures Ascending(rs) ==> Ascending(Below(p, rs))
  {
    forall q ensures q in Below(p, rs) <==> |p| <= |q| && q[..|p|] == p && q[|p|..] in rs {
      if |p| <= |q| && q[..|p|] == p && q[|p|..] in rs {
        var i :| 0 <= i < |rs| && rs[i] == q[|p|..];
        assert q == p + rs[i] && Below(p, rs)[i] == q;
      }
    }
    if Ascending(rs) {
      forall i, j | 0 <= i < j < |rs| ensures Before(Below(p, rs)[i], Below(p, rs)[j]) { BeforeBelow(p, rs[i], rs[j]); }
    }
  }

  /**
   A path means the locations its steps lead to, in ascending order, and fails exactly
   when somewhere on the way a step cannot be taken.
   */
  lemma {:induction false} MeaningIs(h: Snapshot, v: Value, steps: seq<PathStep>)
    ensures Meaning(h, v, steps).Ok? <==> NeverStuck(h, v, steps)
    ensures Meaning(h, v, steps).Ok? ==>
              && (forall q :: q in Meaning(h, v, steps).value <==> Leads(h, v, steps, q))
              && Ascending(Meaning(h, v, steps).value)
    decreases |steps|, 1
  {
    hide Select, Takes, Possible, Ascending, Before, EachBelow, ValueAt;
    if steps == [] {
      NoStep(h, v);
    } else {
      SelectIs(h, v, steps[0]);
      var first := Select(h, v, steps[0]);
      if first.Ok? {
        var n := if steps[0].SelfMatch? then 0 else 1;
        forall q | q in first.value ensures |q| == n && ValueAt(h, v, q).Some? { TakesAChild(h, v, steps[0], q); }
        EachBelowIs(h, v, first.value, n, steps[1..]);
        forall q | Takes(h, v, steps[0], q) ensures ValueAt(h, v, q).Some? { TakesAChild(h, v, steps[0], q); }
      }
    }
  }

  lemma NoStep(h: Snapshot, v: Value)
    ensures forall q: Location :: q in [[]] <==> q == []
    ensures Ascending([[]])
  {
  }

  lemma {:induction false} EachBelowIs(h: Snapshot, v: Value, locs: seq<Location>, n: nat, steps: seq<PathStep>)
    requires Ascending(locs) && forall q | q in locs :: |q| == n && ValueAt(h, v, q).Some?
    ensures EachBelow(h, v, locs, steps).Ok? <==>
            forall q | q in locs :: NeverStuck(h, ValueAt(h, v, q).value, steps)
    ensures EachBelow(h, v, locs, steps).Ok? ==>
              && (forall q :: q in EachBelow(h, v, locs, steps).value <==> LeadsFrom(h, v, locs, n, steps, q))
              && Ascending(EachBelow(h, v, locs, steps).value)
    decreases |steps|, 2, |locs|
  {
    hide ValueAt, Leads, NeverStuck, Meaning, Before, EachBelow;
    FirstBelow(h, v, locs, steps);
    if locs == [] {
    } else {
      var p := locs[0];
      MeaningIs(h, ValueAt(h, v, p).value, steps);
      LaterAscend(locs);
      EachBelowIs(h, v, locs[1..], n, steps);
      var here, there := Meaning(h, ValueAt(h, v, p).value, steps), EachBelow(h, v, locs[1..], steps);
      if here.Ok? && there.Ok? {
        BelowIs(p, here.value);
        FirstThenRest(h, v, locs, n, steps, Below(p, here.value), there.value);
      }
    }
  }

  lemma LaterAscend(locs: seq<Location>)
    requires Ascending(locs) && locs != []
    ensures Ascending(locs[1..])
  {
    hide Before;
    forall i, j | 0 <= i < j < |locs[1..]| ensures Before(locs[1..][i], locs[1..][j]) {
      assert locs[1..][i] == locs[i + 1] && locs[1..][j] == locs[j + 1];
    }
  }

  lemma FirstThenRest(h: Snapshot, v: Value, locs: seq<Location>, n: nat, steps: seq<PathStep>,
                      here: seq<Location>, there: seq<Location>)
    requires locs != [] && Ascending(locs) && forall q | q in locs :: |q| == n && ValueAt(h, v, q).Some?
    requires forall q :: q in here <==> LeadsFrom(h, v, [locs[0]], n, steps, q)
    requires forall q :: q in there <==> LeadsFrom(h, v, locs[1..], n, steps, q)
    requires Ascending(here) && Ascending(there)
    ensures forall q :: q in here + there <==> LeadsFrom(h, v, locs, n, steps, q)
    ensures Ascending(here + there)
  {
    hide ValueAt, Leads, Before;
    var all := here + there;
    forall q: Location ensures q in all <==> LeadsFrom(h, v, locs, n, steps, q) {
      assert q in all <==> q in here || q in there;
      if n <= |q| {
        assert q[..n] in locs <==> q[..n] == locs[0] || q[..n] in locs[1..];
      }
    }
    forall i, j | 0 <= i < j < |all| ensures Before(all[i], all[j]) {
      if i < |here| <= j {
        var a, b := all[i], all[j];
        assert a in here && b in there;
        var k :| 0 <= k < |locs[1..]| && locs[1..][k] == b[..n];
        assert Before(locs[0], locs[k + 1]);
        BeforeLonger(a[..n], b[..n], a[n..], b[n..]);
        assert a == a[..n] + a[n..] && b == b[..n] + b[n..];
      }
    }
  }

  /** The same of resolving a path level by level. */
  lemma ResolvedIs(h: Snapshot, v: Value, steps: seq<PathStep>)
    ensures Resolved(h, v, steps).Ok? <==> NeverStuck(h, v, steps)
    ensures Resolved(h, v, steps).Ok? ==>
              && (forall q :: q in Resolved(h, v, steps).value <==> Leads(h, v, steps, q))
              && Ascending(Resolved(h, v, steps).value)
  {
    hide Resolved, Meaning, Leads, NeverStuck, Ascending;
    MeaningIs(h, v, steps);
    ResolvedIsMeaning(h, v, steps);
  }

  // ----- paths of one step, by the values they read

  lemma OneStep(h: Snapshot, v: Value, step: PathStep)
    ensures Resolved(h, v, [step]) == Select(h, v, step)
  {
    hide Select, ValueAt;
    RootValue(h, v);
    var here: Location := [];
    var one := OneLevel(h, v, here, step);
    if Select(h, v, step).Ok? {
      var sel := Select(h, v, step).value;
      forall i | 0 <= i < |sel| ensures here + sel[i] == sel[i] {}
      assert Below(here, sel) == sel;
    }
    assert one == Select(h, v, step);
    assert [here][1..] == [];
    BothNothing(one);
    LevelsOfOne(h, v, [here], step);
  }

  lemma LevelsOfOne(h: Snapshot, v: Value, locs: seq<Location>, step: PathStep)
    ensures Levels(h, v, locs, [step]) == Level(h, v, locs, step)
  {
    hide Level;
    var next := Level(h, v, locs, step);
    assert [step][1..] == [];
    if next.Ok? { assert Levels(h, v, next.value, []) == Ok(next.value); }
  }

  /** An index reads that element, of a list or a typed array, and fails exactly when out of range. */
  lemma IndexReads(h: Snapshot, v: Value, i: int)
    ensures IsSliceValue(h, v) && 0 <= i < |ElementValues(h, v)| ==>
              && Resolved(h, v, [IndexStep(i)]) == Ok([[Item(i)]])
              && ValueAt(h, v, [Item(i)]) == Some(ElementValues(h, v)[i])
    ensures IsSliceValue(h, v) && !(0 <= i < |ElementValues(h, v)|) ==>
              Resolved(h, v, [IndexStep(i)]) == Err(IndexOutOfBounds)
    ensures !IsSliceValue(h, v) ==> Resolved(h, v, [IndexStep(i)]) == Err(NotAList)
  {
    hide Resolved, ValueAt, ElementValues;
    OneStep(h, v, IndexStep(i));
    if IsSliceValue(h, v) && 0 <= i < |ElementValues(h, v)| {
      TakesAChild(h, v, IndexStep(i), [Item(i)]);
    }
  }

  /** The elements of a list are its items; those of a typed array its numbers, bytes unsigned. */
  lemma ElementsRead(h: Snapshot, v: Value, i: nat)
    requires IsSliceValue(h, v) && i < |ElementValues(h, v)|
    ensures var e := ElementValues(h, v)[i];
            && (v.ListRef? ==> e == h.lists[v.l][i] && |ElementValues(h, v)| == |h.lists[v.l]|)
            && (v.Leaf? && v.t.Bytes? ==> i < |v.t.bytes| && e == Leaf(UByte(v.t.bytes[i] % 256)))
            && (v.Leaf? && v.t.Ints? ==> i < |v.t.ints| && e == Leaf(Int(v.t.ints[i])))
            && (v.Leaf? && v.t.Longs? ==> i < |v.t.longs| && e == Leaf(Long(v.t.longs[i])))
  {
  }

  lemma MemberReads(h: Snapshot, c: CompoundObj, name: string)
    requires c in h.comps
    ensures name in h.comps[c] ==>
              && Resolved(h, CompoundRef(c), [MemberStep(name)]) == Ok([[Member(name)]])
              && ValueAt(h, CompoundRef(c), [Member(name)]) == Some(h.comps[c][name])
    ensures name !in h.comps[c] ==> Resolved(h, CompoundRef(c), [MemberStep(name)]) == Err(PathNotFound)
  {
    hide Resolved, ValueAt;
    OneStep(h, CompoundRef(c), MemberStep(name));
    if name in h.comps[c] { TakesAChild(h, CompoundRef(c), MemberStep(name), [Member(name)]); }
  }

  /** All elements, each once and in order. */
  lemma AllReads(h: Snapshot, v: Value)
    requires IsSliceValue(h, v)
    ensures Resolved(h, v, [AllStep]).Ok? && |Resolved(h, v, [AllStep]).value| == |ElementValues(h, v)|
    ensures forall i | 0 <= i < |ElementValues(h, v)| ::
              ValueAt(h, v, Resolved(h, v, [AllStep]).value[i]) == Some(ElementValues(h, v)[i])
  {
    hide Resolved, ValueAt, ElementValues;
    OneStep(h, v, AllStep);
    forall i | 0 <= i < |ElementValues(h, v)|
      ensures ValueAt(h, v, Resolved(h, v, [AllStep]).value[i]) == Some(ElementValues(h, v)[i])
    {
      TakesAChild(h, v, AllStep, [Item(i)]);
    }
  }

  /** A filter on a compound selects the compound itself, exactly when the tree it holds matches. */
  lemma SelfReads(h: Snapshot, v: Value, t: Tree, filter: map<string, Tree>)
    requires Holds(h, v, t)
    ensures t.Comp? && Match(t, Comp(filter)) ==> Resolved(h, v, [SelfMatch(filter)]) == Ok([[]])
    ensures t.Comp? && !Match(t, Comp(filter)) ==> Resolved(h, v, [SelfMatch(filter)]) == Err(PathNotFound)
    ensures !t.Comp? ==> Resolved(h, v, [SelfMatch(filter)]) == Err(NotACompound)
  {
    hide Resolved, Match, MatchValue, Holds;
    OneStep(h, v, SelfMatch(filter));
    CompHolds(h, v, t);
    MatchInMemory(h, v, t, Comp(filter));
  }

  /** A filter on the elements selects, in order, exactly the compounds among them whose trees match. */
  lemma MatchAllReads(h: Snapshot, v: Value, t: Tree, filter: map<string, Tree>)
    requires Holds(h, v, t) && IsSlice(t)
    ensures Resolved(h, v, [MatchAll(filter)]).Ok? && Ascending(Resolved(h, v, [MatchAll(filter)]).value)
    ensures forall q: Location :: q in Resolved(h, v, [MatchAll(filter)]).value <==>
              && |q| == 1 && q[0].Item? && q[0].index < |Elements(t)|
              && Elements(t)[q[0].index].Comp? && Match(Elements(t)[q[0].index], Comp(filter))
  {
    hide Resolved, Select, Match, MatchValue, Holds, Ascending, ElementValues, Elements;
    OneStep(h, v, MatchAll(filter));
    SelectIs(h, v, MatchAll(filter));
    SliceHolds(h, v, t);
    forall i | 0 <= i < |Elements(t)|
      ensures Meets(h, ElementValues(h, v)[i], filter) <==>
              Elements(t)[i].Comp? && Match(Elements(t)[i], Comp(filter))
    {
      CompHolds(h, ElementValues(h, v)[i], Elements(t)[i]);
      MatchInMemory(h, ElementValues(h, v)[i], Elements(t)[i], Comp(filter));
    }
  }
}
