/** Merging into every compound a path selects. */
module NbtMergeAt {
  import opened Wrappers
  import opened NbtTrees
  import opened NbtObjects
  import opened NbtPaths
  import opened NbtResolving
  import opened NbtWrites
  import M = NbtMerging

  function TreeChild(t: Tree, s: Selector): Option<Tree> {
    match s
    case Member(name) => if t.Comp? && name in t.members then Some(t.members[name]) else None
    case Item(i) => if IsSlice(t) && i < |Elements(t)| then Some(Elements(t)[i]) else None
  }

  function SubTree(t: Tree, loc: Location): Option<Tree>
    decreases |loc|
  {
    if loc == [] then Some(t)
    else
      var c := TreeChild(t, loc[0]);
      if c == None then None else SubTree(c.value, loc[1..])
  }

  lemma ChildHolds(h: Snapshot, v: Value, t: Tree, s: Selector)
    requires Holds(h, v, t)
    ensures ChildAt(h, v, s).Some? <==> TreeChild(t, s).Some?
    ensures ChildAt(h, v, s).Some? ==>
              && Holds(h, ChildAt(h, v, s).value, TreeChild(t, s).value)
              && M.CompoundsIn(h, ChildAt(h, v, s).value, TreeChild(t, s).value) <= M.CompoundsIn(h, v, t)
              && (M.Separate(h, v, t) ==> M.Separate(h, ChildAt(h, v, s).value, TreeChild(t, s).value))
  {
    SliceHolds(h, v, t);
    if s.Member? && ChildAt(h, v, s).Some? {
      assert M.Below(h, v.c, t, s.name) == M.CompoundsIn(h, ChildAt(h, v, s).value, TreeChild(t, s).value);
    }
  }

  lemma FirstChild(h: Snapshot, v: Value, loc: Location)
    requires loc != []
    ensures ValueAt(h, v, loc) == if ChildAt(h, v, loc[0]) == None then None
            else ValueAt(h, ChildAt(h, v, loc[0]).value, loc[1..])
  {
    assert loc == [loc[0]] + loc[1..];
    ValueAtConcat(h, v, [loc[0]], loc[1..]);
    assert [] + [loc[0]] == [loc[0]];
    ValueAtNext(h, v, [], loc[0]);
    RootValue(h, v);
  }

  /** Below a value that holds a tree lie values that hold its subtrees. */
  lemma {:induction false} SubHolds(h: Snapshot, v: Value, t: Tree, loc: Location)
    requires Holds(h, v, t) && ValueAt(h, v, loc).Some?
    ensures SubTree(t, loc).Some? && Holds(h, ValueAt(h, v, loc).value, SubTree(t, loc).value)
    ensures M.CompoundsIn(h, ValueAt(h, v, loc).value, SubTree(t, loc).value) <= M.CompoundsIn(h, v, t)
    ensures M.Separate(h, v, t) ==> M.Separate(h, ValueAt(h, v, loc).value, SubTree(t, loc).value)
    decreases |loc|
  {
    hide Holds, M.CompoundsIn, M.Separate, ValueAt, ChildAt, TreeChild;
    if loc == [] {
      RootValue(h, v);
    } else {
      FirstChild(h, v, loc);
      ChildHolds(h, v, t, loc[0]);
      SubHolds(h, ChildAt(h, v, loc[0]).value, TreeChild(t, loc[0]).value, loc[1..]);
    }
  }

  /** The compounds at or below a location. */
  ghost function Within(h: Snapshot, v: Value, t: Tree, loc: Location): set<CompoundObj>
    requires Holds(h, v, t)
  {
    if ValueAt(h, v, loc) == None then {}
    else
      SubHolds(h, v, t, loc);
      M.CompoundsIn(h, ValueAt(h, v, loc).value, SubTree(t, loc).value)
  }

  lemma ChildrenApart(h: Snapshot, v: Value, t: Tree, a: Selector, b: Selector)
    requires Holds(h, v, t) && M.Separate(h, v, t) && a != b
    requires ChildAt(h, v, a).Some? && ChildAt(h, v, b).Some?
    ensures TreeChild(t, a).Some? && TreeChild(t, b).Some?
    ensures Holds(h, ChildAt(h, v, a).value, TreeChild(t, a).value) &&
            Holds(h, ChildAt(h, v, b).value, TreeChild(t, b).value)
    ensures M.CompoundsIn(h, ChildAt(h, v, a).value, TreeChild(t, a).value)
            !! M.CompoundsIn(h, ChildAt(h, v, b).value, TreeChild(t, b).value)
  {
    ChildHolds(h, v, t, a);
    ChildHolds(h, v, t, b);
    if t.Comp? {
      M.PartsApart(h, v.c, t, a.name, b.name);
    } else if t.List? && a.index > b.index {
      assert M.CompoundsIn(h, h.lists[v.l][b.index], t.items[b.index])
             !! M.CompoundsIn(h, h.lists[v.l][a.index], t.items[a.index]);
    }
  }

  lemma WithinChild(h: Snapshot, v: Value, t: Tree, loc: Location)
    requires Holds(h, v, t) && loc != [] && ChildAt(h, v, loc[0]).Some?
    ensures TreeChild(t, loc[0]).Some? && Holds(h, ChildAt(h, v, loc[0]).value, TreeChild(t, loc[0]).value)
    ensures Within(h, v, t, loc) == Within(h, ChildAt(h, v, loc[0]).value, TreeChild(t, loc[0]).value, loc[1..])
    ensures Within(h, v, t, loc) <= M.CompoundsIn(h, ChildAt(h, v, loc[0]).value, TreeChild(t, loc[0]).value)
  {
    hide Holds, M.CompoundsIn, M.Separate, ValueAt, ChildAt, TreeChild;
    FirstChild(h, v, loc);
    ChildHolds(h, v, t, loc[0]);
    if ValueAt(h, v, loc).Some? {
      SubHolds(h, ChildAt(h, v, loc[0]).value, TreeChild(t, loc[0]).value, loc[1..]);
    }
  }

  lemma WithinNothing(h: Snapshot, v: Value, t: Tree, loc: Location)
    requires Holds(h, v, t) && loc != [] && ChildAt(h, v, loc[0]) == None
    ensures Within(h, v, t, loc) == {}
  {
    hide Holds;
    FirstChild(h, v, loc);
  }

  /** Different branches have no compound in common. */
  lemma {:induction false} BranchesApart(h: Snapshot, v: Value, t: Tree, p: Location, q: Location)
    requires Holds(h, v, t) && M.Separate(h, v, t) && !(p <= q) && !(q <= p)
    ensures Within(h, v, t, p) !! Within(h, v, t, q)
    decreases |p|
  {
    hide Holds, M.CompoundsIn, M.Separate, ValueAt, ChildAt, TreeChild, Within;
    var a, b := p[0], q[0];
    if ChildAt(h, v, a) == None {
      WithinNothing(h, v, t, p);
    } else if ChildAt(h, v, b) == None {
      WithinNothing(h, v, t, q);
    } else {
      WithinChild(h, v, t, p);
      WithinChild(h, v, t, q);
      if a != b {
        ChildrenApart(h, v, t, a, b);
      } else {
        ChildHolds(h, v, t, a);
        assert p == [a] + p[1..] && q == [a] + q[1..];
        BranchesApart(h, ChildAt(h, v, a).value, TreeChild(t, a).value, p[1..], q[1..]);
      }
    }
  }

  /** A compound is not among those below one of its members. */
  lemma {:induction false} AboveNotWithin(h: Snapshot, v: Value, t: Tree, f: Location, loc: Location)
    requires Holds(h, v, t) && M.Separate(h, v, t) && f < loc
    requires ValueAt(h, v, f).Some? && ValueAt(h, v, f).value.CompoundRef?
    ensures ValueAt(h, v, f).value.c !in Within(h, v, t, loc)
    decreases |f|
  {
    hide M.CompoundsIn, M.Separate, ValueAt, ChildAt, TreeChild, Within;
    if ChildAt(h, v, loc[0]) == None {
      WithinNothing(h, v, t, loc);
    } else {
      WithinChild(h, v, t, loc);
      if f == [] {
        RootValue(h, v);
        BelowTop(h, v, t, loc[0]);
      } else {
        FirstChild(h, v, f);
        ChildHolds(h, v, t, loc[0]);
        AboveNotWithin(h, ChildAt(h, v, loc[0]).value, TreeChild(t, loc[0]).value, f[1..], loc[1..]);
      }
    }
  }

  lemma BelowTop(h: Snapshot, v: Value, t: Tree, s: Selector)
    requires Holds(h, v, t) && M.Separate(h, v, t) && v.CompoundRef? && ChildAt(h, v, s).Some?
    ensures TreeChild(t, s).Some? && Holds(h, ChildAt(h, v, s).value, TreeChild(t, s).value)
    ensures v.c !in M.CompoundsIn(h, ChildAt(h, v, s).value, TreeChild(t, s).value)
  {
    ChildHolds(h, v, t, s);
    M.PartsApart(h, v.c, t, s.name, s.name);
  }

  lemma TopIsWithin(h: Snapshot, v: Value, t: Tree)
    requires Holds(h, v, t) && v.CompoundRef?
    ensures v.c in M.CompoundsIn(h, v, t)
  {
  }

  /** What is not at or below a location is not among its compounds. */
  lemma NotWithin(h: Snapshot, v: Value, t: Tree, f: Location, loc: Location)
    requires Holds(h, v, t) && M.Separate(h, v, t) && !(loc <= f)
    requires ValueAt(h, v, f).Some? && ValueAt(h, v, f).value.CompoundRef?
    ensures ValueAt(h, v, f).value.c !in Within(h, v, t, loc)
  {
    hide Holds, M.CompoundsIn, M.Separate, ValueAt;
    if f <= loc {
      AboveNotWithin(h, v, t, f, loc);
    } else {
      BranchesApart(h, v, t, f, loc);
      SubHolds(h, v, t, f);
      TopIsWithin(h, ValueAt(h, v, f).value, SubTree(t, f).value);
    }
  }

  // ----- merging at several locations

  /** Distinct places below a root held as a tree, and a source apart from it. */
  ghost predicate Scene(h: Snapshot, root: Value, t: Tree, src: CompoundObj, ts: Tree, locs: seq<Location>) {
    && Holds(h, root, t) && M.Separate(h, root, t) && Holds(h, CompoundRef(src), ts) && ts.Comp?
    && M.CompoundsIn(h, root, t) !! M.CompoundsIn(h, CompoundRef(src), ts)
    && Apart(locs) && forall i | 0 <= i < |locs| :: ValueAt(h, root, locs[i]).Some?
  }

  ghost predicate IsCompoundAt(h: Snapshot, root: Value, loc: Location) {
    ValueAt(h, root, loc).Some? && ValueAt(h, root, loc).value.CompoundRef?
  }

  /** The compound at a location holds the merge. */
  ghost predicate MergedAt(h0: Snapshot, h: Snapshot, root: Value, t: Tree, src: CompoundObj, ts: Tree, loc: Location)
    requires Holds(h0, root, t) && Holds(h0, CompoundRef(src), ts)
  {
    && IsCompoundAt(h0, root, loc) && SubTree(t, loc).Some? && SubTree(t, loc).value.Comp?
    && var y, m := ValueAt(h0, root, loc).value, Merge(SubTree(t, loc).value, ts);
       Holds(h, y, m) && M.CompoundsIn(h, y, m) <= Within(h0, root, t, loc) + M.CompoundsIn(h0, CompoundRef(src), ts)
  }

  /** The compounds at or below the first `k` locations. */
  ghost function Touched(h: Snapshot, root: Value, t: Tree, locs: seq<Location>, k: nat): set<CompoundObj>
    requires Holds(h, root, t) && k <= |locs|
  {
    if k == 0 then {} else Touched(h, root, t, locs, k - 1) + Within(h, root, t, locs[k - 1])
  }

  lemma {:induction false} TouchedIs(h: Snapshot, root: Value, t: Tree, locs: seq<Location>, k: nat, c: CompoundObj)
    requires Holds(h, root, t) && k <= |locs|
    ensures c in Touched(h, root, t, locs, k) ==>
            c in M.CompoundsIn(h, root, t) && exists i | 0 <= i < k :: c in Within(h, root, t, locs[i])
  {
    hide Holds, M.CompoundsIn, Within;
    if k == 0 {
    } else {
      TouchedIs(h, root, t, locs, k - 1, c);
      WithinRoot(h, root, t, locs[k - 1]);
    }
  }

  lemma WithinRoot(h: Snapshot, root: Value, t: Tree, loc: Location)
    requires Holds(h, root, t)
    ensures Within(h, root, t, loc) <= M.CompoundsIn(h, root, t)
  {
    hide Holds;
    if ValueAt(h, root, loc).Some? { SubHolds(h, root, t, loc); }
  }

  ghost predicate MergedSoFar(h0: Snapshot, h: Snapshot, root: Value, t: Tree, src: CompoundObj, ts: Tree,
                              locs: seq<Location>, k: nat)
    requires Holds(h0, root, t) && Holds(h0, CompoundRef(src), ts) && k <= |locs|
  {
    && M.OnlyWithin(h0, h, Touched(h0, root, t, locs, k))
    && forall i | 0 <= i < k :: MergedAt(h0, h, root, t, src, ts, locs[i])
  }

  /** A compound outside the locations merged so far is as it was. */
  lemma NotTouched(h0: Snapshot, h: Snapshot, root: Value, t: Tree, src: CompoundObj, ts: Tree, locs: seq<Location>,
                   k: nat, f: Location)
    requires Scene(h0, root, t, src, ts, locs) && k <= |locs| && MergedSoFar(h0, h, root, t, src, ts, locs, k)
    requires IsCompoundAt(h0, root, f) && forall i | 0 <= i < k :: !(locs[i] <= f)
    ensures ValueAt(h0, root, f).value.c !in Touched(h0, root, t, locs, k)
    ensures forall s :: ChildAt(h, ValueAt(h0, root, f).value, s) == ChildAt(h0, ValueAt(h0, root, f).value, s)
  {
    hide Holds, M.CompoundsIn, Within, ValueAt, M.Separate, MergedAt, Apart, Touched, MergedSoFar;
    OnlyTouched(h0, h, root, t, src, ts, locs, k);
    var c := ValueAt(h0, root, f).value.c;
    TouchedIs(h0, root, t, locs, k, c);
    if i :| 0 <= i < k && c in Within(h0, root, t, locs[i]) { NotWithin(h0, root, t, f, locs[i]); }
    SubHolds(h0, root, t, f);
    InComps(h0, ValueAt(h0, root, f).value, SubTree(t, f).value);
  }

  lemma InComps(h: Snapshot, v: Value, t: Tree)
    requires Holds(h, v, t)
    ensures v.CompoundRef? ==> v.c in h.comps && t.Comp?
    ensures t.Comp? ==> v.CompoundRef?
  {
  }

  /** A step down from a value not below the merged locations leads where it did. */
  lemma SameChild(h0: Snapshot, h: Snapshot, root: Value, t: Tree, src: CompoundObj, ts: Tree, locs: seq<Location>,
                  k: nat, f: Location, s: Selector)
    requires Scene(h0, root, t, src, ts, locs) && k <= |locs| && MergedSoFar(h0, h, root, t, src, ts, locs, k)
    requires ValueAt(h0, root, f).Some? && forall i | 0 <= i < k :: !(locs[i] <= f)
    ensures ChildAt(h, ValueAt(h0, root, f).value, s) == ChildAt(h0, ValueAt(h0, root, f).value, s)
  {
    hide Holds, M.CompoundsIn, Within, ValueAt, M.Separate, MergedAt, Apart, Touched;
    if IsCompoundAt(h0, root, f) { NotTouched(h0, h, root, t, src, ts, locs, k, f); }
  }

  lemma FrontIsShorter(p: Location, q: Location)
    requires q != []
    ensures p <= Front(q) ==> p < q
  {
  }

  /** Locations not below a merged one are as they were. */
  lemma {:induction false} SameElsewhere(h0: Snapshot, h: Snapshot, root: Value, t: Tree, src: CompoundObj, ts: Tree,
                                         locs: seq<Location>, k: nat, q: Location)
    requires Scene(h0, root, t, src, ts, locs) && k <= |locs| && MergedSoFar(h0, h, root, t, src, ts, locs, k)
    requires forall i | 0 <= i < k :: !(locs[i] < q)
    ensures ValueAt(h, root, q) == ValueAt(h0, root, q)
    decreases |q|
  {
    hide Holds, M.CompoundsIn, Within, M.Separate, MergedAt, Apart, Touched, MergedSoFar, Scene, ChildAt;
    if q == [] {
    } else {
      var f := Front(q);
      forall i | 0 <= i < k ensures !(locs[i] <= f) { FrontIsShorter(locs[i], q); }
      SameElsewhere(h0, h, root, t, src, ts, locs, k, f);
      if ValueAt(h0, root, f).Some? { SameChild(h0, h, root, t, src, ts, locs, k, f, Last(q)); }
    }
  }

  /** The next anchor still reads what was there, and that can be merged into. */
  lemma NextMergeable(h0: Snapshot, h: Snapshot, root: Value, t: Tree, src: CompoundObj, ts: Tree,
                      locs: seq<Location>, k: nat)
    requires Scene(h0, root, t, src, ts, locs) && k < |locs| && MergedSoFar(h0, h, root, t, src, ts, locs, k)
    requires IsCompoundAt(h0, root, locs[k])
    ensures SubTree(t, locs[k]).Some? &&
            M.Mergeable(h, ValueAt(h0, root, locs[k]).value.c, src, SubTree(t, locs[k]).value, ts)
    ensures M.CompoundsIn(h, ValueAt(h0, root, locs[k]).value, SubTree(t, locs[k]).value)
            == Within(h0, root, t, locs[k])
    ensures Within(h0, root, t, locs[k]) <= M.CompoundsIn(h0, root, t)
    ensures M.CompoundsIn(h, CompoundRef(src), ts) == M.CompoundsIn(h0, CompoundRef(src), ts)
  {
    hide Holds, M.CompoundsIn, ValueAt, M.Separate, Apart, Touched, MergedSoFar;
    var y := ValueAt(h0, root, locs[k]).value;
    SubHolds(h0, root, t, locs[k]);
    WithinRoot(h0, root, t, locs[k]);
    NextUntouched(h0, root, t, src, ts, locs, k);
    OnlyTouched(h0, h, root, t, src, ts, locs, k);
    M.HoldsStill(h0, h, y, SubTree(t, locs[k]).value);
    M.HoldsStill(h0, h, CompoundRef(src), ts);
    InComps(h0, y, SubTree(t, locs[k]).value);
  }

  lemma OnlyTouched(h0: Snapshot, h: Snapshot, root: Value, t: Tree, src: CompoundObj, ts: Tree, locs: seq<Location>,
                    k: nat)
    requires Holds(h0, root, t) && Holds(h0, CompoundRef(src), ts) && k <= |locs| &&
             MergedSoFar(h0, h, root, t, src, ts, locs, k)
    ensures M.OnlyWithin(h0, h, Touched(h0, root, t, locs, k))
  {
  }

  /** Nothing the earlier locations hold is part of the next, or of the source. */
  lemma NextUntouched(h: Snapshot, root: Value, t: Tree, src: CompoundObj, ts: Tree, locs: seq<Location>, k: nat)
    requires Scene(h, root, t, src, ts, locs) && k < |locs|
    ensures Touched(h, root, t, locs, k) !! Within(h, root, t, locs[k])
    ensures Touched(h, root, t, locs, k) !! M.CompoundsIn(h, CompoundRef(src), ts)
  {
    hide Holds, M.CompoundsIn, ValueAt, M.Separate, Apart, Touched, Within;
    forall c | c in Touched(h, root, t, locs, k)
      ensures c !in Within(h, root, t, locs[k]) && c !in M.CompoundsIn(h, CompoundRef(src), ts)
    {
      TouchedIs(h, root, t, locs, k, c);
      var i :| 0 <= i < k && c in Within(h, root, t, locs[i]);
      LocationsApart(locs, i, k);
      BranchesApart(h, root, t, locs[i], locs[k]);
    }
  }

  lemma LocationsApart(locs: seq<Location>, i: nat, k: nat)
    requires Apart(locs) && i < |locs| && k < |locs| && i != k
    ensures !(locs[i] <= locs[k]) && !(locs[k] <= locs[i])
  {
  }

  lemma OneMoreMerged(h0: Snapshot, h: Snapshot, h': Snapshot, root: Value, t: Tree, src: CompoundObj, ts: Tree,
                      locs: seq<Location>, k: nat)
    requires Scene(h0, root, t, src, ts, locs) && k < |locs| && MergedSoFar(h0, h, root, t, src, ts, locs, k)
    requires M.OnlyWithin(h, h', Within(h0, root, t, locs[k])) && MergedAt(h0, h', root, t, src, ts, locs[k])
    ensures MergedSoFar(h0, h', root, t, src, ts, locs, k + 1)
  {
    hide Holds, M.CompoundsIn, ValueAt, M.Separate, Apart, Within, MergedAt;
    forall i | 0 <= i < k ensures MergedAt(h0, h', root, t, src, ts, locs[i]) {
      MergedStays(h0, h, h', root, t, src, ts, locs, k, i);
    }
  }

  lemma MergedStays(h0: Snapshot, h: Snapshot, h': Snapshot, root: Value, t: Tree, src: CompoundObj, ts: Tree,
                    locs: seq<Location>, k: nat, i: nat)
    requires Scene(h0, root, t, src, ts, locs) && i < k < |locs| && MergedAt(h0, h, root, t, src, ts, locs[i])
    requires M.OnlyWithin(h, h', Within(h0, root, t, locs[k]))
    ensures MergedAt(h0, h', root, t, src, ts, locs[i])
  {
    hide Holds, M.CompoundsIn, ValueAt, M.Separate, Apart, Within;
    LocationsApart(locs, i, k);
    BranchesApart(h0, root, t, locs[i], locs[k]);
    WithinRoot(h0, root, t, locs[k]);
    M.HoldsStill(h, h', ValueAt(h0, root, locs[i]).value, Merge(SubTree(t, locs[i]).value, ts));
  }

  lemma AnchorStill(h0: Snapshot, h: Snapshot, root: Value, t: Tree, src: CompoundObj, ts: Tree, locs: seq<Location>,
                    k: nat)
    requires Closed(h0) && Known(h0, root) && Scene(h0, root, t, src, ts, locs) && k < |locs| && Named(locs[k])
    requires MergedSoFar(h0, h, root, t, src, ts, locs, k)
    ensures Known(h, AnchorFor(h0, root, locs[k]).parent)
    ensures AnchorValue(h, AnchorFor(h0, root, locs[k])) == ValueAt(h0, root, locs[k])
  {
    hide Holds, M.CompoundsIn, M.Separate, MergedAt, Apart, Touched, Within, ChildAt, Closed;
    var loc := locs[k];
    AnchorParentKnown(h0, root, loc);
    if loc != [] {
      forall i | 0 <= i < k ensures !(locs[i] <= Front(loc)) {
        LocationsApart(locs, i, k);
        FrontIsShorter(locs[i], loc);
      }
      SameChild(h0, h, root, t, src, ts, locs, k, Front(loc), Last(loc));
    }
  }

  ghost predicate AllMergeable(h: Snapshot, root: Value, locs: seq<Location>, n: nat)
    requires n <= |locs|
  {
    forall i | 0 <= i < n :: IsCompoundAt(h, root, locs[i])
  }

  /** Each of the first `n` compounds holds the merge, and nothing outside them has changed. */
  ghost predicate MergedEverywhere(h: Snapshot, h': Snapshot, root: Value, t: Tree, ts: Tree, locs: seq<Location>,
                                   n: nat)
    requires ts.Comp? && n <= |locs|
  {
    && (forall i | 0 <= i < n ::
          && ValueAt(h', root, locs[i]) == ValueAt(h, root, locs[i]) && ValueAt(h, root, locs[i]).Some?
          && SubTree(t, locs[i]).Some? && SubTree(t, locs[i]).value.Comp?
          && Holds(h', ValueAt(h', root, locs[i]).value, Merge(SubTree(t, locs[i]).value, ts)))
    && (forall q {:trigger ValueAt(h', root, q)} :: (forall i | 0 <= i < n :: !(locs[i] < q)) ==>
         ValueAt(h', root, q) == ValueAt(h, root, q))
  }

  lemma AllDone(h: Snapshot, h': Snapshot, root: Value, t: Tree, src: CompoundObj, ts: Tree, locs: seq<Location>,
                n: nat)
    requires Scene(h, root, t, src, ts, locs) && n <= |locs| && MergedSoFar(h, h', root, t, src, ts, locs, n)
    ensures MergedEverywhere(h, h', root, t, ts, locs, n)
  {
    hide Holds, M.CompoundsIn, M.Separate, Touched, Within, ValueAt;
    forall q {:trigger ValueAt(h', root, q)} | forall i | 0 <= i < n :: !(locs[i] < q)
      ensures ValueAt(h', root, q) == ValueAt(h, root, q)
    {
      SameElsewhere(h, h', root, t, src, ts, locs, n, q);
    }
    forall i | 0 <= i < n ensures ValueAt(h', root, locs[i]) == ValueAt(h, root, locs[i]) {
      forall j | 0 <= j < n ensures !(locs[j] < locs[i]) {
        if j != i { LocationsApart(locs, i, j); }
      }
    }
  }

  /** The first selected value that is no compound ended it; the compounds before it are merged. */
  ghost predicate StoppedMerging(h: Snapshot, h': Snapshot, root: Value, t: Tree, ts: Tree, locs: seq<Location>, k: nat)
    requires ts.Comp?
  {
    k < |locs| && AllMergeable(h, root, locs, k) && !IsCompoundAt(h, root, locs[k]) &&
      MergedEverywhere(h, h', root, t, ts, locs, k)
  }

  /** Put the merge of one anchor's compound in place. */
  method MergeOne(dst: CompoundObj, src: CompoundObj, ghost k: nat, ghost h0: Snapshot, ghost h: Snapshot,
                  ghost root: Value, ghost t: Tree, ghost ts: Tree, ghost locs: seq<Location>)
    returns (ghost h': Snapshot)
    requires Current(h) && Scene(h0, root, t, src, ts, locs) && k < |locs| &&
             MergedSoFar(h0, h, root, t, src, ts, locs, k)
    requires ValueAt(h0, root, locs[k]) == Some(CompoundRef(dst))
    modifies M.CompoundsIn(h0, root, t)
    ensures Current(h') && MergedSoFar(h0, h', root, t, src, ts, locs, k + 1)
  {
    hide Holds, M.CompoundsIn, M.Separate, Touched, Within, ValueAt, Apart, Current, MergedSoFar, M.Mergeable;
    hide M.OnlyWithin;
    NextMergeable(h0, h, root, t, src, ts, locs, k);
    h' := M.MergeCompound(dst, src, SubTree(t, locs[k]).value, ts, h);
    OpenMergeable(h, dst, src, SubTree(t, locs[k]).value, ts);
    OneMoreMerged(h0, h, h', root, t, src, ts, locs, k);
  }

  lemma OpenMergeable(h: Snapshot, dst: CompoundObj, src: CompoundObj, td: Tree, ts: Tree)
    requires M.Mergeable(h, dst, src, td, ts)
    ensures td.Comp? && ts.Comp?
  {
  }

  /** Merge a compound into every compound a path selects. */
  method MergeAt(root: Value, steps: seq<PathStep>, src: CompoundObj, ghost h: Snapshot, ghost t: Tree, ghost ts: Tree)
    returns (r: Result<nat, PathError>, ghost h': Snapshot)
    requires Current(h) && Known(h, root) && forall i | 0 <= i < |steps| :: NamedStep(steps[i])
    requires Holds(h, root, t) && M.Separate(h, root, t) && Holds(h, CompoundRef(src), ts) && ts.Comp?
    requires M.CompoundsIn(h, root, t) !! M.CompoundsIn(h, CompoundRef(src), ts)
    modifies M.CompoundsIn(h, root, t)
    ensures Current(h')
    ensures Resolved(h, root, steps).Err? ==> r == Err(Resolved(h, root, steps).error) && h' == h
    ensures Resolved(h, root, steps).Ok? ==>
              var locs := Resolved(h, root, steps).value;
              && (r.Ok? <==> AllMergeable(h, root, locs, |locs|))
              && (r.Ok? ==> r.value == |locs| && MergedEverywhere(h, h', root, t, ts, locs, |locs|))
              && (r.Err? ==> exists k :: StoppedMerging(h, h', root, t, ts, locs, k))
  {
    hide Holds, M.CompoundsIn, M.Separate, Touched, Within, ValueAt, Apart, Current, MergedSoFar, Resolved;
    hide MergedEverywhere, AnchorFor, AnchorValue, Named, Known;
    h' := h;
    var anchors := Resolve(root, steps, h);
    if anchors.Err? { return Err(anchors.error), h; }
    ghost var locs := Resolved(h, root, steps).value;
    ResolvedScene(h, root, t, src, ts, steps);
    NothingYet(h, root, t, src, ts, locs);
    for k := 0 to |anchors.value|
      invariant Current(h') && MergedSoFar(h, h', root, t, src, ts, locs, k)
      invariant h'.comps.Keys == h.comps.Keys && h'.lists.Keys == h.lists.Keys
      invariant AllMergeable(h, root, locs, k)
    {
      assert Named(locs[k]) by { assert locs[k] in locs; }
      AnchorStill(h, h', root, t, src, ts, locs, k);
      var read := ReadAnchor(anchors.value[k], h');
      if !read.value.CompoundRef? {
        AllDone(h, h', root, t, src, ts, locs, k);
        assert StoppedMerging(h, h', root, t, ts, locs, k);
        return Err(NotACompound), h';
      }
      h' := MergeOne(read.value.c, src, k, h, h', root, t, ts, locs);
      SameObjects(h, h', root, t, src, ts, locs, k + 1);
    }
    AllDone(h, h', root, t, src, ts, locs, |locs|);
    return Ok(|anchors.value|), h';
  }

  lemma SameObjects(h0: Snapshot, h: Snapshot, root: Value, t: Tree, src: CompoundObj, ts: Tree, locs: seq<Location>,
                    k: nat)
    requires Holds(h0, root, t) && Holds(h0, CompoundRef(src), ts) && k <= |locs| &&
             MergedSoFar(h0, h, root, t, src, ts, locs, k)
    ensures h.comps.Keys == h0.comps.Keys && h.lists == h0.lists
  {
  }

  lemma NothingYet(h: Snapshot, root: Value, t: Tree, src: CompoundObj, ts: Tree, locs: seq<Location>)
    requires Holds(h, root, t) && Holds(h, CompoundRef(src), ts)
    ensures MergedSoFar(h, h, root, t, src, ts, locs, 0)
  {
  }

  lemma ResolvedScene(h: Snapshot, root: Value, t: Tree, src: CompoundObj, ts: Tree, steps: seq<PathStep>)
    requires Current(h) && Resolved(h, root, steps).Ok?
    requires Holds(h, root, t) && M.Separate(h, root, t) && Holds(h, CompoundRef(src), ts) && ts.Comp?
    requires M.CompoundsIn(h, root, t) !! M.CompoundsIn(h, CompoundRef(src), ts)
    ensures Closed(h) && Scene(h, root, t, src, ts, Resolved(h, root, steps).value)
  {
    hide Holds, M.CompoundsIn, M.Separate, ValueAt, Resolved;
    ResolvedIsMeaning(h, root, steps);
    var locs := Resolved(h, root, steps).value;
    forall i | 0 <= i < |locs| ensures ValueAt(h, root, locs[i]).Some? { assert locs[i] in locs; }
  }

  /** Merging at the root itself. */
  method MergeRoot(root: CompoundObj, src: CompoundObj, ghost h: Snapshot, ghost t: Tree, ghost ts: Tree)
    returns (n: nat, ghost h': Snapshot)
    requires Current(h) && M.Mergeable(h, root, src, t, ts)
    modifies M.CompoundsIn(h, CompoundRef(root), t)
    ensures n == 1 && Current(h') && Holds(h', CompoundRef(root), Merge(t, ts))
  {
    h' := M.MergeCompound(root, src, t, ts, h);
    n := 1;
  }
}
