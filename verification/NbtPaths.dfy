/** Resolving a path against a value: one anchor per match, one level of steps at a time. */
module NbtPaths {
  import opened Wrappers
  import opened NbtTrees
  import opened NbtObjects

  datatype PathStep =
    | MemberStep(name: string)
    | IndexStep(index: int)
    | AllStep
    | SelfMatch(filter: map<string, Tree>)
    | MatchAll(filter: map<string, Tree>)

  datatype PathError = PathNotFound | NotAList | NotACompound | IndexOutOfBounds | SelectsRoot

  /** A place to write to: a member of a compound, an element of a list, or the root. */
  datatype Anchor = Anchor(parent: Value, key: string, index: int)

  // ----- what a path means

  ghost predicate IsMatchingCompound(h: Snapshot, v: Value, filter: map<string, Tree>) {
    v.CompoundRef? && MatchValue(h, v, Comp(filter))
  }

  /** The positions of the matching compounds among the first `n` elements. */
  ghost function Matching(h: Snapshot, es: seq<Value>, filter: map<string, Tree>, n: nat): seq<Location>
    requires n <= |es|
  {
    if n == 0 then []
    else Matching(h, es, filter, n - 1) + if IsMatchingCompound(h, es[n - 1], filter) then [[Item(n - 1)]] else []
  }

  function Positions(n: nat): seq<Location> {
    seq(n, i requires 0 <= i < n => [Item(i)])
  }

  /** The locations one step selects below a value. */
  ghost function Select(h: Snapshot, v: Value, step: PathStep): Result<seq<Location>, PathError> {
    match step
    case MemberStep(name) =>
      if !(v.CompoundRef? && v.c in h.comps) then Err(NotACompound)
      else if name !in h.comps[v.c] then Err(PathNotFound)
      else Ok([[Member(name)]])
    case IndexStep(i) =>
      if !IsSliceValue(h, v) then Err(NotAList)
      else if i < 0 || i >= |ElementValues(h, v)| then Err(IndexOutOfBounds)
      else Ok([[Item(i)]])
    case AllStep =>
      if !IsSliceValue(h, v) then Err(NotAList) else Ok(Positions(|ElementValues(h, v)|))
    case SelfMatch(filter) =>
      if !(v.CompoundRef? && v.c in h.comps) then Err(NotACompound)
      else if !MatchValue(h, v, Comp(filter)) then Err(PathNotFound)
      else Ok([[]])
    case MatchAll(filter) =>
      if !IsSliceValue(h, v) then Err(NotAList)
      else Ok(Matching(h, ElementValues(h, v), filter, |ElementValues(h, v)|))
  }

  function Below(p: Location, qs: seq<Location>): (r: seq<Location>)
    ensures |r| == |qs| && forall i | 0 <= i < |r| :: r[i] == p + qs[i]
  {
    seq(|qs|, i requires 0 <= i < |qs| => p + qs[i])
  }

  function Both(a: Result<seq<Location>, PathError>, b: Result<seq<Location>, PathError>): Result<seq<Location>,
                PathError> {
    if a.Err? then a else if b.Err? then b else Ok(a.value + b.value)
  }

  /** A path selects what its first step selects, and the rest of it below each of those. */
  ghost function Meaning(h: Snapshot, v: Value, steps: seq<PathStep>): Result<seq<Location>, PathError>
    decreases |steps|, 1, 0
  {
    if steps == [] then Ok([[]])
    else
      var first := Select(h, v, steps[0]);
      if first.Err? then first else EachBelow(h, v, first.value, steps[1..])
  }

  ghost function EachBelow(h: Snapshot, v: Value, locs: seq<Location>, steps: seq<PathStep>): Result<seq<Location>,
                           PathError>
    decreases |steps|, 2, |locs|
  {
    if locs == [] then Ok([])
    else Both(OneBelow(h, v, locs[0], steps), EachBelow(h, v, locs[1..], steps))
  }

  /** What the path selects below one location, as locations below the value itself. */
  ghost function OneBelow(h: Snapshot, v: Value, loc: Location, steps: seq<PathStep>): Result<seq<Location>, PathError>
    decreases |steps|, 1, 1
  {
    if ValueAt(h, v, loc) == None then Err(PathNotFound)
    else
      var r := Meaning(h, ValueAt(h, v, loc).value, steps);
      if r.Err? then r else Ok(Below(loc, r.value))
  }

  // ----- level by level

  /** One level: each location in turn replaced by what the step selects below it. */
  ghost function Level(h: Snapshot, v: Value, locs: seq<Location>, step: PathStep): Result<seq<Location>, PathError>
    decreases |locs|
  {
    if locs == [] then Ok([])
    else Both(OneLevel(h, v, locs[0], step), Level(h, v, locs[1..], step))
  }

  ghost function OneLevel(h: Snapshot, v: Value, loc: Location, step: PathStep): Result<seq<Location>, PathError> {
    if ValueAt(h, v, loc) == None then Err(PathNotFound)
    else
      var r := Select(h, ValueAt(h, v, loc).value, step);
      if r.Err? then r else Ok(Below(loc, r.value))
  }

  ghost function Levels(h: Snapshot, v: Value, locs: seq<Location>,
                        steps: seq<PathStep>): Result<seq<Location>, PathError>
    decreases |steps|
  {
    if steps == [] then Ok(locs)
    else
      var next := Level(h, v, locs, steps[0]);
      if next.Err? then next else Levels(h, v, next.value, steps[1..])
  }

  /** Two outcomes agree on the locations, or fail both. */
  predicate Agree(a: Result<seq<Location>, PathError>, b: Result<seq<Location>, PathError>) {
    (a.Ok? <==> b.Ok?) && (a.Ok? ==> a == b)
  }

  lemma BothAssociates(x: Result<seq<Location>, PathError>, y: Result<seq<Location>, PathError>,
                       z: Result<seq<Location>, PathError>)
    ensures Both(x, Both(y, z)) == Both(Both(x, y), z)
  {
    if x.Ok? && y.Ok? && z.Ok? { assert x.value + (y.value + z.value) == x.value + y.value + z.value; }
  }

  lemma FirstBelow(h: Snapshot, v: Value, locs: seq<Location>, steps: seq<PathStep>)
    ensures locs == [] ==> EachBelow(h, v, locs, steps) == Ok([])
    ensures locs != [] ==>
            EachBelow(h, v, locs, steps) == Both(OneBelow(h, v, locs[0], steps), EachBelow(h, v, locs[1..], steps))
  {
  }

  lemma {:induction false} EachBelowConcat(h: Snapshot, v: Value, a: seq<Location>, b: seq<Location>,
                                           steps: seq<PathStep>)
    ensures EachBelow(h, v, a + b, steps) == Both(EachBelow(h, v, a, steps), EachBelow(h, v, b, steps))
    decreases |a|
  {
    hide EachBelow, OneBelow, Both;
    FirstBelow(h, v, a, steps);
    if a == [] {
      assert a + b == b;
      BothNothing(EachBelow(h, v, b, steps));
    } else {
      EachBelowConcat(h, v, a[1..], b, steps);
      assert (a + b)[1..] == a[1..] + b && (a + b)[0] == a[0];
      FirstBelow(h, v, a + b, steps);
      BothAssociates(OneBelow(h, v, a[0], steps), EachBelow(h, v, a[1..], steps), EachBelow(h, v, b, steps));
    }
  }

  lemma BothNothing(x: Result<seq<Location>, PathError>)
    ensures Both(Ok([]), x) == x && (x.Ok? ==> Both(x, Ok([])) == x)
  {
    if x.Ok? { assert [] + x.value == x.value && x.value + [] == x.value; }
  }

  /** The same locations with a prefix, or the same failure. */
  predicate Shifted(loc: Location, there: Result<seq<Location>, PathError>, here: Result<seq<Location>, PathError>) {
    if there.Err? then here == there else here == Ok(Below(loc, there.value))
  }

  lemma ShiftedBoth(loc: Location, a: Result<seq<Location>, PathError>, b: Result<seq<Location>, PathError>,
                    c: Result<seq<Location>, PathError>, d: Result<seq<Location>, PathError>)
    requires Shifted(loc, a, b) && Shifted(loc, c, d)
    ensures Shifted(loc, Both(a, c), Both(b, d))
  {
    if a.Ok? && c.Ok? { assert Below(loc, a.value + c.value) == Below(loc, a.value) + Below(loc, c.value); }
  }

  lemma OneBelowShift(h: Snapshot, v: Value, loc: Location, q: Location, steps: seq<PathStep>)
    requires ValueAt(h, v, loc).Some?
    ensures Shifted(loc, OneBelow(h, ValueAt(h, v, loc).value, q, steps), OneBelow(h, v, loc + q, steps))
  {
    hide ValueAt, Meaning;
    ValueAtConcat(h, v, loc, q);
    var w := ValueAt(h, v, loc).value;
    if ValueAt(h, w, q).Some? && Meaning(h, ValueAt(h, w, q).value, steps).Ok? {
      BelowBelow(loc, q, Meaning(h, ValueAt(h, w, q).value, steps).value);
    }
  }

  lemma BelowBelow(p: Location, q: Location, rs: seq<Location>)
    ensures Below(p, Below(q, rs)) == Below(p + q, rs)
  {
    forall i | 0 <= i < |rs| ensures p + (q + rs[i]) == p + q + rs[i] {}
  }

  /** Below a location, or from the location as the root: the same. */
  lemma {:induction false} EachBelowShift(h: Snapshot, v: Value, loc: Location, locs: seq<Location>,
                                          steps: seq<PathStep>)
    requires ValueAt(h, v, loc).Some?
    ensures Shifted(loc, EachBelow(h, ValueAt(h, v, loc).value, locs, steps), EachBelow(h, v, Below(loc, locs), steps))
    decreases |locs|
  {
    hide EachBelow, OneBelow, Shifted, Both, ValueAt;
    var w := ValueAt(h, v, loc).value;
    FirstBelow(h, w, locs, steps);
    FirstBelow(h, v, Below(loc, locs), steps);
    if locs == [] {
      ShiftedNothing(loc);
    } else {
      EachBelowShift(h, v, loc, locs[1..], steps);
      assert Below(loc, locs)[1..] == Below(loc, locs[1..]);
      OneBelowShift(h, v, loc, locs[0], steps);
      ShiftedBoth(loc, OneBelow(h, w, locs[0], steps), OneBelow(h, v, loc + locs[0], steps),
                  EachBelow(h, w, locs[1..], steps), EachBelow(h, v, Below(loc, locs[1..]), steps));
    }
  }

  lemma ShiftedNothing(loc: Location)
    ensures Shifted(loc, Ok([]), Ok([]))
  {
  }

  /** A location's share: its level first, then the rest, is the whole path below it. */
  lemma OneLevelThenRest(h: Snapshot, v: Value, loc: Location, steps: seq<PathStep>)
    requires steps != []
    ensures var one := OneLevel(h, v, loc, steps[0]);
            OneBelow(h, v, loc, steps) == if one.Err? then one else EachBelow(h, v, one.value, steps[1..])
  {
    hide Select, ValueAt, EachBelow;
    if ValueAt(h, v, loc).Some? {
      var sel := Select(h, ValueAt(h, v, loc).value, steps[0]);
      if sel.Ok? { EachBelowShift(h, v, loc, sel.value, steps[1..]); }
    }
  }

  /**
   One level first, then the rest below each, is the whole path below each; only which failure comes
   first may differ.
   */
  lemma {:induction false} LevelThenRest(h: Snapshot, v: Value, locs: seq<Location>, steps: seq<PathStep>)
    requires steps != []
    ensures var next := Level(h, v, locs, steps[0]);
            Agree(EachBelow(h, v, locs, steps), if next.Err? then next else EachBelow(h, v, next.value, steps[1..]))
    decreases |locs|
  {
    hide EachBelow, OneBelow, OneLevel;
    FirstBelow(h, v, locs, steps);
    if locs == [] {
      FirstBelow(h, v, locs, steps[1..]);
    } else {
      LevelThenRest(h, v, locs[1..], steps);
      OneLevelThenRest(h, v, locs[0], steps);
      var one, more := OneLevel(h, v, locs[0], steps[0]), Level(h, v, locs[1..], steps[0]);
      if one.Ok? && more.Ok? { EachBelowConcat(h, v, one.value, more.value, steps[1..]); }
    }
  }

  lemma {:induction false} NoStepsBelow(h: Snapshot, v: Value, locs: seq<Location>)
    requires forall i | 0 <= i < |locs| :: ValueAt(h, v, locs[i]).Some?
    ensures EachBelow(h, v, locs, []) == Ok(locs)
    decreases |locs|
  {
    hide EachBelow, ValueAt;
    FirstBelow(h, v, locs, []);
    if locs == [] {
    } else {
      NoStepsBelow(h, v, locs[1..]);
      var here: Location := [];
      assert locs[0] + here == locs[0];
      assert Below(locs[0], [here]) == [locs[0]];
      assert [locs[0]] + locs[1..] == locs;
    }
  }

  lemma {:induction false} MatchingAre(h: Snapshot, es: seq<Value>, filter: map<string, Tree>, n: nat)
    requires n <= |es|
    ensures forall q: Location | q in Matching(h, es, filter, n) :: |q| == 1 && q[0].Item? && q[0].index < n
    ensures forall i, j | 0 <= i < j < |Matching(h, es, filter, n)| ::
            Matching(h, es, filter, n)[i] != Matching(h, es, filter, n)[j]
  {
    if n == 0 {
    } else {
      MatchingAre(h, es, filter, n - 1);
    }
  }

  /** What a step selects is there, one key further down or the value itself, and nothing twice. */
  lemma SelectedAre(h: Snapshot, v: Value, step: PathStep)
    requires Select(h, v, step).Ok?
    ensures forall q | q in Select(h, v, step).value ::
            ValueAt(h, v, q).Some? && |q| == (if step.SelfMatch? then 0 else 1)
    ensures Distinct(Select(h, v, step).value)
  {
    if step.MatchAll? {
      MatchingAre(h, ElementValues(h, v), step.filter, |ElementValues(h, v)|);
    }
    forall q | q in Select(h, v, step).value
      ensures ValueAt(h, v, q).Some?
    {
      if |q| == 1 {
        assert q == [] + [q[0]];
        ValueAtNext(h, v, [], q[0]);
      }
    }
  }

  ghost predicate Distinct(locs: seq<Location>) {
    forall i, j | 0 <= i < j < |locs| :: locs[i] != locs[j]
  }

  /** All there, all equally deep. */
  ghost predicate At(h: Snapshot, v: Value, locs: seq<Location>, depth: nat) {
    forall q | q in locs :: ValueAt(h, v, q).Some? && |q| == depth
  }

  function Deeper(step: PathStep): nat {
    if step.SelfMatch? then 0 else 1
  }

  lemma {:induction false} LevelKeeps(h: Snapshot, v: Value, locs: seq<Location>, step: PathStep, depth: nat)
    requires At(h, v, locs, depth) && Distinct(locs) && Level(h, v, locs, step).Ok?
    ensures At(h, v, Level(h, v, locs, step).value, depth + Deeper(step)) && Distinct(Level(h, v, locs, step).value)
    ensures forall q | q in Level(h, v, locs, step).value :: q[..depth] in locs
    decreases |locs|
  {
    hide ValueAt, OneLevel;
    if locs == [] {
    } else {
      LevelKeeps(h, v, locs[1..], step, depth);
      OneLevelKeeps(h, v, locs[0], step);
      var one, more := OneLevel(h, v, locs[0], step).value, Level(h, v, locs[1..], step).value;
      DistinctJoin(one, more, locs[0], locs[1..], depth);
      forall q | q in one + more ensures q in one || q in more {}
    }
  }

  lemma OneLevelKeeps(h: Snapshot, v: Value, loc: Location, step: PathStep)
    requires OneLevel(h, v, loc, step).Ok?
    ensures At(h, v, OneLevel(h, v, loc, step).value, |loc| + Deeper(step)) && Distinct(OneLevel(h, v, loc, step).value)
    ensures forall q | q in OneLevel(h, v, loc, step).value :: q[..|loc|] == loc
  {
    hide Select, ValueAt;
    var w := ValueAt(h, v, loc).value;
    SelectedAre(h, w, step);
    var one, qs := OneLevel(h, v, loc, step).value, Select(h, w, step).value;
    forall q | q in one
      ensures ValueAt(h, v, q).Some? && |q| == |loc| + Deeper(step) && q[..|loc|] == loc
    {
      var i :| 0 <= i < |one| && one[i] == q;
      ValueAtConcat(h, v, loc, qs[i]);
    }
    forall i, j | 0 <= i < j < |one|
      ensures one[i] != one[j]
    {
      assert one[i][|loc|..] == qs[i] && one[j][|loc|..] == qs[j];
    }
  }

  /** Locations below one place differ from locations below others. */
  lemma DistinctJoin(one: seq<Location>, more: seq<Location>, first: Location, others: seq<Location>, depth: nat)
    requires Distinct(one) && Distinct(more) && first !in others
    requires forall q | q in one :: |q| >= depth && q[..depth] == first
    requires forall q | q in more :: |q| >= depth && q[..depth] in others
    ensures Distinct(one + more)
  {
    forall i, j | 0 <= i < j < |one + more|
      ensures (one + more)[i] != (one + more)[j]
    {
      if i < |one| <= j {
        assert one[i] in one && more[j - |one|] in more;
      }
    }
  }

  lemma {:induction false} LevelsMean(h: Snapshot, v: Value, locs: seq<Location>, steps: seq<PathStep>, depth: nat)
    requires At(h, v, locs, depth) && Distinct(locs)
    ensures Agree(Levels(h, v, locs, steps), EachBelow(h, v, locs, steps))
    ensures Levels(h, v, locs, steps).Ok? ==>
              exists d: nat :: d <= depth + |steps| && At(h, v, Levels(h, v, locs, steps).value, d)
    ensures Levels(h, v, locs, steps).Ok? ==> Distinct(Levels(h, v, locs, steps).value)
    decreases |steps|
  {
    hide EachBelow, Level, ValueAt;
    if steps == [] {
      NoStepsBelow(h, v, locs);
    } else {
      LevelThenRest(h, v, locs, steps);
      var next := Level(h, v, locs, steps[0]);
      if next.Ok? {
        LevelKeeps(h, v, locs, steps[0], depth);
        LevelsMean(h, v, next.value, steps[1..], depth + Deeper(steps[0]));
      }
    }
  }

  /** The locations a path resolves to. */
  ghost function Resolved(h: Snapshot, v: Value, steps: seq<PathStep>): Result<seq<Location>, PathError> {
    Levels(h, v, [[]], steps)
  }

  /**
     Resolving level by level finds what the path means, in the same order, and fails
     exactly when some branch does. The locations exist, differ, and none is below another.
   */
  lemma ResolvedIsMeaning(h: Snapshot, v: Value, steps: seq<PathStep>)
    ensures Agree(Resolved(h, v, steps), Meaning(h, v, steps))
    ensures Resolved(h, v, steps).Ok? ==>
              var locs := Resolved(h, v, steps).value;
              && (forall q | q in locs :: ValueAt(h, v, q).Some?)
              && (forall i, j | 0 <= i < |locs| && 0 <= j < |locs| && locs[i] <= locs[j] :: i == j)
  {
    LevelsMean(h, v, [[]], steps, 0);
    FromTheRoot(h, v, steps);
    if Resolved(h, v, steps).Ok? {
      var locs := Resolved(h, v, steps).value;
      var d: nat :| At(h, v, locs, d);
      forall i, j | 0 <= i < |locs| && 0 <= j < |locs| && locs[i] <= locs[j]
        ensures i == j
      {
        assert locs[i] in locs && locs[j] in locs;
        assert locs[i] == locs[j];
      }
    }
  }

  lemma FromTheRoot(h: Snapshot, v: Value, steps: seq<PathStep>)
    ensures EachBelow(h, v, [[]], steps) == Meaning(h, v, steps)
  {
    hide Meaning, EachBelow;
    FirstBelow(h, v, [[]], steps);
    FirstBelow(h, v, [[]][1..], steps);
    BothNothing(OneBelow(h, v, [], steps));
    if Meaning(h, v, steps).Ok? {
      var r := Meaning(h, v, steps).value;
      assert forall i | 0 <= i < |r| :: [] + r[i] == r[i];
      assert Below([], r) == r;
    }
  }
}
