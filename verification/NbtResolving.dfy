/** The loops that match and resolve, against what a path means. */
module NbtResolving {
  import opened Wrappers
  import opened NbtTrees
  import opened NbtObjects
  import opened NbtPaths

  // ----- anchors

  /** The anchor of a location: the value above it, and the last selector. */
  ghost function AnchorFor(h: Snapshot, root: Value, loc: Location): Anchor {
    if loc == [] || ValueAt(h, root, loc[..|loc| - 1]) == None then Anchor(root, "", -1)
    else
      var up := ValueAt(h, root, loc[..|loc| - 1]).value;
      match loc[|loc| - 1]
      case Member(name) => Anchor(up, name, -1)
      case Item(i) => Anchor(up, "", i)
  }

  ghost function AnchorsFor(h: Snapshot, root: Value, locs: seq<Location>): (r: seq<Anchor>)
    ensures |r| == |locs| && forall i | 0 <= i < |r| :: r[i] == AnchorFor(h, root, locs[i])
  {
    seq(|locs|, i requires 0 <= i < |locs| => AnchorFor(h, root, locs[i]))
  }

  /** The value at an anchor, where there is one. */
  ghost function AnchorValue(h: Snapshot, a: Anchor): Option<Value> {
    if a.key != "" then ChildAt(h, a.parent, Member(a.key))
    else if a.index >= 0 then ChildAt(h, a.parent, Item(a.index))
    else Some(a.parent)
  }

  predicate Named(loc: Location) {
    loc == [] || loc[|loc| - 1] != Member("")
  }

  /** The member with the empty name looks like the value above it; every other anchor reads its own location. */
  lemma AnchorReads(h: Snapshot, root: Value, loc: Location)
    requires ValueAt(h, root, loc).Some?
    ensures Named(loc) ==> AnchorValue(h, AnchorFor(h, root, loc)) == ValueAt(h, root, loc)
    ensures !Named(loc) ==> AnchorValue(h, AnchorFor(h, root, loc)) == ValueAt(h, root, loc[..|loc| - 1])
  {
  }

  /** So the member with the empty name of a one-member compound is not found by its own anchor. */
  lemma EmptyNameMisses(c: CompoundObj)
    ensures var h := Snapshot(map[c := map["" := Leaf(Int(1))]], map[]);
            && Resolved(h, CompoundRef(c), [MemberStep("")]) == Ok([[Member("")]])
            && ValueAt(h, CompoundRef(c), [Member("")]) == Some(Leaf(Int(1)))
            && AnchorValue(h, AnchorFor(h, CompoundRef(c), [Member("")])) == Some(CompoundRef(c))
  {
    var h := Snapshot(map[c := map["" := Leaf(Int(1))]], map[]);
    var root, loc := CompoundRef(c), [Member("")];
    assert [] + loc == loc;
    ValueAtNext(h, root, [], Member(""));
    AnchorReads(h, root, loc);
    var here: Location := [];
    RootValue(h, root);
    assert Select(h, root, MemberStep("")) == Ok([loc]);
    assert Below(here, [loc]) == [loc];
    var one := OneLevel(h, root, here, MemberStep(""));
    assert one == Ok([loc]);
    assert Level(h, root, [here], MemberStep("")) == Both(one, Level(h, root, [here][1..], MemberStep("")));
    BothNothing(one);
  }

  method ReadAnchor(a: Anchor, ghost h: Snapshot) returns (v: Option<Value>)
    requires Current(h) && Known(h, a.parent)
    ensures v == AnchorValue(h, a)
  {
    if a.key != "" {
      if a.parent.CompoundRef? {
        var m := a.parent.c.members;
        return if a.key in m then Some(m[a.key]) else None;
      }
      return None;
    }
    if a.index >= 0 {
      var s := ToSlice(a.parent, h);
      if s.Some? && a.index < |s.value| { return Some(s.value[a.index]); }
      return None;
    }
    return Some(a.parent);
  }

  /** The elements of a list, or of a typed array, copied. */
  method ToSlice(v: Value, ghost h: Snapshot) returns (r: Option<seq<Value>>)
    requires Current(h) && Known(h, v)
    ensures r == if IsSliceValue(h, v) then Some(ElementValues(h, v)) else None
  {
    if v.ListRef? { return Some(v.l.items); }
    if v.Leaf? && IsArray(v.t) { return Some(Leaves(Unpacked(v.t))); }
    return None;
  }

  // ----- matching

  lemma KnownElements(h: Snapshot, v: Value)
    requires Closed(h) && Known(h, v) && IsSliceValue(h, v)
    ensures forall i | 0 <= i < |ElementValues(h, v)| :: Known(h, ElementValues(h, v)[i])
  {
  }

  lemma KnownMember(h: Snapshot, c: CompoundObj, k: string)
    requires Closed(h) && c in h.comps && k in h.comps[c]
    ensures Known(h, h.comps[c][k])
  {
  }

  method Matches(candidate: Value, filter: Tree, ghost h: Snapshot) returns (b: bool)
    requires Current(h) && Known(h, candidate)
    ensures b == MatchValue(h, candidate, filter)
    decreases filter, 1
  {
    if filter.Comp? {
      if !candidate.CompoundRef? { return false; }
      b := MatchesMembers(candidate.c, filter, h);
    } else if IsSlice(filter) {
      var cs := ToSlice(candidate, h);
      if cs == None { return false; }
      b := MatchesElements(candidate, cs.value, filter, h);
    } else {
      b := candidate == Leaf(filter);
    }
  }

  method MatchesMembers(c: CompoundObj, filter: Tree, ghost h: Snapshot) returns (b: bool)
    requires Current(h) && c in h.comps && filter.Comp?
    ensures b == MatchValue(h, CompoundRef(c), filter)
    decreases filter, 0, 1
  {
    var todo := filter.members.Keys;
    while todo != {}
      invariant todo <= filter.members.Keys
      invariant forall k | k in filter.members && k !in todo ::
                k in h.comps[c] && MatchValue(h, h.comps[c][k], filter.members[k])
      decreases todo
    {
      var k :| k in todo;
      todo := todo - {k};
      if k !in c.members { return false; }
      KnownMember(h, c, k);
      var ok := Matches(c.members[k], filter.members[k], h);
      if !ok { return false; }
    }
    return true;
  }

  lemma ListFilter(h: Snapshot, candidate: Value, filter: Tree, n: nat)
    requires IsSliceValue(h, candidate) && IsSlice(filter) && n <= |Elements(filter)|
    requires forall i | 0 <= i < n :: HasValue(h, candidate, Elements(filter)[i])
    ensures n < |Elements(filter)| && !HasValue(h, candidate, Elements(filter)[n]) ==> !MatchValue(h, candidate, filter)
    ensures n == |Elements(filter)| ==> MatchValue(h, candidate, filter)
  {
    if IsArray(filter) {
      forall i | 0 <= i < |Unpacked(filter)|
        ensures HasValue(h, candidate, Unpacked(filter)[i]) <==>
                Leaf(Unpacked(filter)[i]) in ElementValues(h, candidate)
      {
        ScalarHas(h, candidate, Unpacked(filter)[i]);
      }
    }
  }

  lemma ScalarHas(h: Snapshot, candidate: Value, e: Tree)
    requires IsSliceValue(h, candidate) && IsScalar(e)
    ensures HasValue(h, candidate, e) <==> Leaf(e) in ElementValues(h, candidate)
  {
    if Leaf(e) in ElementValues(h, candidate) {
      var j :| 0 <= j < |ElementValues(h, candidate)| && ElementValues(h, candidate)[j] == Leaf(e);
      assert MatchValue(h, ElementValues(h, candidate)[j], e);
    }
  }

  /** Every element of the filter is looked for among the candidate's, whatever the order. */
  method MatchesElements(candidate: Value, cs: seq<Value>, filter: Tree, ghost h: Snapshot) returns (b: bool)
    requires Current(h) && Known(h, candidate) && IsSliceValue(h, candidate) && cs == ElementValues(h, candidate)
    requires IsSlice(filter)
    ensures b == MatchValue(h, candidate, filter)
    decreases filter, 0, 1
  {
    hide MatchValue, Elements, ElementValues, HasValue, Unpacked;
    for i := 0 to |Elements(filter)|
      invariant forall k | 0 <= k < i :: HasValue(h, candidate, Elements(filter)[k])
    {
      var matched := Contains(candidate, cs, filter, i, h);
      ListFilter(h, candidate, filter, i);
      if !matched { return false; }
    }
    ListFilter(h, candidate, filter, |Elements(filter)|);
    return true;
  }

  method Contains(candidate: Value, cs: seq<Value>, filter: Tree, i: nat, ghost h: Snapshot) returns (matched: bool)
    requires Current(h) && Known(h, candidate) && IsSliceValue(h, candidate) && cs == ElementValues(h, candidate)
    requires IsSlice(filter) && i < |Elements(filter)|
    ensures matched == HasValue(h, candidate, Elements(filter)[i])
    decreases filter, 0, 0
  {
    hide MatchValue;
    KnownElements(h, candidate);
    var wanted := Elements(filter)[i];
    matched := false;
    for j := 0 to |cs|
      invariant !matched && forall k | 0 <= k < j :: !MatchValue(h, cs[k], wanted)
    {
      if filter.List? {
        matched := Matches(cs[j], wanted, h);
      } else {
        matched := cs[j] == Leaf(wanted);
        ScalarMatch(h, cs[j], wanted);
      }
      if matched { return; }
    }
  }

  lemma ScalarMatch(h: Snapshot, v: Value, e: Tree)
    requires IsScalar(e)
    ensures MatchValue(h, v, e) <==> v == Leaf(e)
  {
  }

  // ----- resolving

  lemma AnchorDeeper(h: Snapshot, root: Value, loc: Location, s: Selector)
    requires ValueAt(h, root, loc).Some?
    ensures AnchorFor(h, root, loc + [s]) ==
            match s
            case Member(name) => Anchor(ValueAt(h, root, loc).value, name, -1)
            case Item(i) => Anchor(ValueAt(h, root, loc).value, "", i)
  {
    assert (loc + [s])[..|loc|] == loc;
  }

  lemma OneAnchor(h: Snapshot, root: Value, loc: Location, s: Selector)
    requires ValueAt(h, root, loc).Some?
    ensures AnchorsFor(h, root, Below(loc, [[s]])) == [AnchorFor(h, root, loc + [s])]
  {
  }

  lemma SameAnchor(h: Snapshot, root: Value, loc: Location)
    ensures AnchorsFor(h, root, Below(loc, [[]])) == [AnchorFor(h, root, loc)]
  {
    var here: Location := [];
    assert loc + here == loc;
  }

  lemma MoreAnchors(h: Snapshot, root: Value, loc: Location, qs: seq<Location>, s: Selector)
    ensures AnchorsFor(h, root, Below(loc, qs + [[s]]))
            == AnchorsFor(h, root, Below(loc, qs)) + [AnchorFor(h, root, loc + [s])]
  {
  }

  /** What one step makes of one anchor. */
  method StepOne(a: Anchor, step: PathStep, ghost h: Snapshot, ghost root: Value, ghost loc: Location)
    returns (r: Result<seq<Anchor>, PathError>)
    requires Current(h) && Known(h, root) && Known(h, a.parent)
    requires ValueAt(h, root, loc).Some? && Named(loc) && a == AnchorFor(h, root, loc)
    ensures var next := OneLevel(h, root, loc, step);
            if next.Err? then r == Err(next.error) else r == Ok(AnchorsFor(h, root, next.value))
  {
    hide ValueAt, AnchorFor, Matching, AnchorsFor, Below, AnchorValue, MatchValue;
    AnchorReads(h, root, loc);
    ReachedIsKnown(h, root, loc);
    var read := ReadAnchor(a, h);
    var v := read.value;
    match step {
      case MemberStep(name) =>
        if !v.CompoundRef? { return Err(NotACompound); }
        if name !in v.c.members { return Err(PathNotFound); }
        AnchorDeeper(h, root, loc, Member(name));
        OneAnchor(h, root, loc, Member(name));
        return Ok([Anchor(v, name, -1)]);
      case IndexStep(i) =>
        var list := ToSlice(v, h);
        if list == None { return Err(NotAList); }
        if i < 0 || i >= |list.value| { return Err(IndexOutOfBounds); }
        AnchorDeeper(h, root, loc, Item(i));
        OneAnchor(h, root, loc, Item(i));
        return Ok([Anchor(v, "", i)]);
      case AllStep =>
        var list := ToSlice(v, h);
        if list == None { return Err(NotAList); }
        var out := AllAnchors(v, |list.value|, h, root, loc);
        return Ok(out);
      case SelfMatch(filter) =>
        if !v.CompoundRef? { return Err(NotACompound); }
        var ok := Matches(v, Comp(filter), h);
        if !ok { return Err(PathNotFound); }
        SameAnchor(h, root, loc);
        return Ok([a]);
      case MatchAll(filter) =>
        var list := ToSlice(v, h);
        if list == None { return Err(NotAList); }
        var out := MatchingAnchors(v, list.value, filter, h, root, loc);
        return Ok(out);
    }
  }

  method AllAnchors(v: Value, n: nat, ghost h: Snapshot, ghost root: Value, ghost loc: Location)
    returns (out: seq<Anchor>)
    requires ValueAt(h, root, loc) == Some(v)
    ensures out == AnchorsFor(h, root, Below(loc, Positions(n)))
  {
    hide ValueAt, AnchorFor;
    out := [];
    for i := 0 to n
      invariant out == AnchorsFor(h, root, Below(loc, Positions(i)))
    {
      AnchorDeeper(h, root, loc, Item(i));
      assert Positions(i + 1) == Positions(i) + [[Item(i)]];
      MoreAnchors(h, root, loc, Positions(i), Item(i));
      out := out + [Anchor(v, "", i)];
    }
  }

  method MatchingAnchors(v: Value, list: seq<Value>, filter: map<string, Tree>, ghost h: Snapshot, ghost root: Value,
                         ghost loc: Location)
    returns (out: seq<Anchor>)
    requires Current(h) && Known(h, v) && IsSliceValue(h, v) && list == ElementValues(h, v)
    requires ValueAt(h, root, loc) == Some(v)
    ensures out == AnchorsFor(h, root, Below(loc, Matching(h, list, filter, |list|)))
  {
    hide ValueAt, AnchorFor, Matching, Below;
    KnownElements(h, v);
    out := [];
    MatchingNext(h, list, filter, 0);
    assert Below(loc, []) == [];
    for i := 0 to |list|
      invariant out == AnchorsFor(h, root, Below(loc, Matching(h, list, filter, i)))
    {
      MatchingNext(h, list, filter, i);
      if list[i].CompoundRef? {
        var ok := Matches(list[i], Comp(filter), h);
        if ok {
          AnchorDeeper(h, root, loc, Item(i));
          MoreAnchors(h, root, loc, Matching(h, list, filter, i), Item(i));
          out := out + [Anchor(v, "", i)];
        }
      }
    }
  }

  lemma MatchingNext(h: Snapshot, es: seq<Value>, filter: map<string, Tree>, n: nat)
    ensures n == 0 ==> Matching(h, es, filter, 0) == []
    ensures n < |es| ==>
              var more := if IsMatchingCompound(h, es[n], filter) then [[Item(n)]] else [];
              Matching(h, es, filter, n + 1) == Matching(h, es, filter, n) + more
  {
  }

  predicate NamedStep(step: PathStep) {
    step.MemberStep? ==> step.name != ""
  }

  ghost predicate AllNamed(locs: seq<Location>) {
    forall q | q in locs :: Named(q)
  }

  ghost predicate Ready(h: Snapshot, root: Value, locs: seq<Location>) {
    forall q | q in locs :: ValueAt(h, root, q).Some? && Named(q)
  }

  method StepResolve(anchors: seq<Anchor>, step: PathStep, ghost h: Snapshot, ghost root: Value,
                     ghost locs: seq<Location>)
    returns (r: Result<seq<Anchor>, PathError>)
    requires Current(h) && Known(h, root) && Ready(h, root, locs) && anchors == AnchorsFor(h, root, locs)
    ensures var next := Level(h, root, locs, step);
            if next.Err? then r == Err(next.error) else r == Ok(AnchorsFor(h, root, next.value))
  {
    hide ValueAt, AnchorFor, OneLevel;
    var out: seq<Anchor> := [];
    ghost var found: seq<Location> := [];
    assert locs[0..] == locs;
    BothNothing(Level(h, root, locs, step));
    for i := 0 to |anchors|
      invariant out == AnchorsFor(h, root, found)
      invariant Level(h, root, locs, step) == Both(Ok(found), Level(h, root, locs[i..], step))
    {
      assert locs[i..][0] == locs[i] && locs[i..][1..] == locs[i + 1..];
      AnchorParentKnown(h, root, locs[i]);
      var one := StepOne(anchors[i], step, h, root, locs[i]);
      if one.Err? { return Err(one.error); }
      BothAssociates(Ok(found), OneLevel(h, root, locs[i], step), Level(h, root, locs[i + 1..], step));
      out := out + one.value;
      found := found + OneLevel(h, root, locs[i], step).value;
    }
    BothNothing(Ok(found));
    return Ok(out);
  }

  lemma AnchorParentKnown(h: Snapshot, root: Value, loc: Location)
    requires Closed(h) && Known(h, root) && ValueAt(h, root, loc).Some?
    ensures Known(h, AnchorFor(h, root, loc).parent)
  {
    if loc != [] { ReachedIsKnown(h, root, loc[..|loc| - 1]); }
  }

  lemma {:induction false} LevelReady(h: Snapshot, root: Value, locs: seq<Location>, step: PathStep)
    requires Ready(h, root, locs) && NamedStep(step) && Level(h, root, locs, step).Ok?
    ensures Ready(h, root, Level(h, root, locs, step).value)
    decreases |locs|
  {
    hide ValueAt, Select;
    if locs == [] {
    } else {
      LevelReady(h, root, locs[1..], step);
      var w := ValueAt(h, root, locs[0]).value;
      var one := OneLevel(h, root, locs[0], step).value;
      SelectedAre(h, w, step);
      SelectedNamed(h, w, step);
      forall q | q in one
        ensures ValueAt(h, root, q).Some? && Named(q)
      {
        var i :| 0 <= i < |one| && one[i] == q;
        var rel := Select(h, w, step).value[i];
        ValueAtConcat(h, root, locs[0], rel);
        assert q == locs[0] + rel && rel in Select(h, w, step).value;
        if rel == [] { assert q == locs[0]; } else { assert q[|q| - 1] == rel[|rel| - 1]; }
      }
    }
  }

  lemma SelectedNamed(h: Snapshot, v: Value, step: PathStep)
    requires NamedStep(step) && Select(h, v, step).Ok?
    ensures forall q | q in Select(h, v, step).value :: Named(q)
  {
    if step.MatchAll? {
      MatchingAre(h, ElementValues(h, v), step.filter, |ElementValues(h, v)|);
    }
  }

  /** Walk the path a level at a time: the anchors of the locations it resolves to, in order. */
  method Resolve(root: Value, steps: seq<PathStep>, ghost h: Snapshot) returns (r: Result<seq<Anchor>, PathError>)
    requires Current(h) && Known(h, root) && forall i | 0 <= i < |steps| :: NamedStep(steps[i])
    ensures var locs := Resolved(h, root, steps);
            if locs.Err? then r == Err(locs.error)
            else r == Ok(AnchorsFor(h, root, locs.value)) && Ready(h, root, locs.value)
  {
    hide Level, ValueAt;
    var current := [Anchor(root, "", -1)];
    var here: Location := [];
    ghost var locs: seq<Location> := [here];
    assert ValueAt(h, root, here) == Some(root) by { RootValue(h, root); }
    assert steps[0..] == steps;
    for i := 0 to |steps|
      invariant Ready(h, root, locs) && current == AnchorsFor(h, root, locs)
      invariant Resolved(h, root, steps) == Levels(h, root, locs, steps[i..])
    {
      assert steps[i..][0] == steps[i] && steps[i..][1..] == steps[i + 1..];
      var next := StepResolve(current, steps[i], h, root, locs);
      if next.Err? { return Err(next.error); }
      LevelReady(h, root, locs, steps[i]);
      current := next.value;
      locs := Level(h, root, locs, steps[i]).value;
    }
    return Ok(current);
  }
}
