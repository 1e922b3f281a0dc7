/**
 What writing through one anchor, and then through several, does to everything below a
 root: the locations written hold the new values, and no other location changes.
 */
module NbtWrites {
  import opened Wrappers
  import opened NbtTrees
  import opened NbtObjects
  import opened NbtPaths
  import opened NbtResolving

  function Front(loc: Location): Location
    requires loc != []
  {
    loc[..|loc| - 1]
  }

  function Last(loc: Location): Selector
    requires loc != []
  {
    loc[|loc| - 1]
  }

  /** A selector that can be assigned to: any name of a compound, an element of a list. */
  ghost predicate CanWrite(h: Snapshot, parent: Value, s: Selector) {
    match s
    case Member(_) => parent.CompoundRef? && parent.c in h.comps
    case Item(i) => parent.ListRef? && parent.l in h.lists && i < |h.lists[parent.l]|
  }

  /** What is written: a value, or nothing where a member is deleted. */
  type Written = Option<Value>

  ghost function Write(h: Snapshot, parent: Value, s: Selector, v: Written): Snapshot
    requires CanWrite(h, parent, s) && (v == None ==> s.Member?)
  {
    match s
    case Member(name) =>
      var ms := h.comps[parent.c];
      h.(comps := h.comps[parent.c := if v == None then ms - {name} else ms[name := v.value]])
    case Item(i) => h.(lists := h.lists[parent.l := h.lists[parent.l][i := v.value]])
  }

  ghost function ValueBelow(h: Snapshot, v: Written, q: Location): Option<Value> {
    if v == None then None else ValueAt(h, v.value, q)
  }

  lemma ChildAfterWrite(h: Snapshot, parent: Value, s: Selector, v: Written, w: Value, x: Selector)
    requires CanWrite(h, parent, s) && (v == None ==> s.Member?)
    ensures ChildAt(Write(h, parent, s, v), w, x) ==
            if w == parent && x == s then v else ChildAt(h, w, x)
  {
  }

  /** A value below which the object does not lie is not affected. */
  lemma {:induction false} WriteElsewhere(h: Snapshot, parent: Value, s: Selector, v: Written, w: Value, q: Location)
    requires CanWrite(h, parent, s) && (v == None ==> s.Member?)
    requires forall r | r < q :: ValueAt(h, w, r) != Some(parent)
    ensures ValueAt(Write(h, parent, s, v), w, q) == ValueAt(h, w, q)
    decreases |q|
  {
    hide Write, CanWrite, ChildAt;
    if q == [] {
    } else {
      WriteElsewhere(h, parent, s, v, w, Front(q));
      if ValueAt(h, w, Front(q)).Some? {
        ChildAfterWrite(h, parent, s, v, ValueAt(h, w, Front(q)).value, Last(q));
      }
    }
  }

  ghost predicate OnlyAt(h: Snapshot, root: Value, w: Value, at: Location) {
    forall q {:trigger ValueAt(h, root, q)} :: ValueAt(h, root, q) == Some(w) <==> q == at
  }

  /** Writing to the one place an object is at replaces what is below that location, and nothing else. */
  lemma {:induction false} WriteMoves(h: Snapshot, root: Value, up: Location, parent: Value, s: Selector, v: Written,
                                      q: Location)
    requires CanWrite(h, parent, s) && (v == None ==> s.Member?) && OnlyAt(h, root, parent, up)
    requires v.Some? ==> forall r {:trigger ValueAt(h, v.value, r)} :: ValueAt(h, v.value, r) != Some(parent)
    ensures ValueAt(Write(h, parent, s, v), root, q) ==
            if up + [s] <= q then ValueBelow(h, v, q[|up| + 1..]) else ValueAt(h, root, q)
    decreases |q|
  {
    hide Write, CanWrite, ChildAt, ValueAt;
    var h', loc := Write(h, parent, s, v), up + [s];
    if q == [] {
      RootValue(h, root);
      RootValue(h', root);
    } else {
      var f, x := Front(q), Last(q);
      assert q == f + [x];
      WriteMoves(h, root, up, parent, s, v, f);
      ValueAtNext(h', root, f, x);
      ValueAtNext(h, root, f, x);
      if loc <= f {
        assert q[|loc|..] == f[|loc|..] + [x];
        if v.Some? { ValueAtNext(h, v.value, f[|loc|..], x); }
        if ValueAt(h', root, f).Some? { ChildAfterWrite(h, parent, s, v, ValueAt(h', root, f).value, x); }
      } else {
        if ValueAt(h, root, f).Some? { ChildAfterWrite(h, parent, s, v, ValueAt(h, root, f).value, x); }
        if f == up && x == s {
          assert q == loc && q[|loc|..] == [];
          if v.Some? { RootValue(h, v.value); }
        } else {
          assert loc <= q ==> q == loc;
        }
      }
    }
  }

  // ----- several anchors

  /** Compounds and lists lie at one location each. */
  ghost predicate Unshared(h: Snapshot, root: Value) {
    forall p, q {:trigger ValueAt(h, root, p), ValueAt(h, root, q)} ::
      ValueAt(h, root, p).Some? && ValueAt(h, root, p) == ValueAt(h, root, q) && !ValueAt(h, root, p).value.Leaf? ==>
        p == q
  }

  /** An anchor reads its own location if and only if that is not a member with the empty name. */
  lemma AnchorReadsIff(h: Snapshot, root: Value, loc: Location)
    requires ValueAt(h, root, loc).Some? && Unshared(h, root)
    ensures AnchorValue(h, AnchorFor(h, root, loc)) == ValueAt(h, root, loc) <==> Named(loc)
  {
    AnchorReads(h, root, loc);
    if !Named(loc) {
      assert Last(loc) == Member("") && !ValueAt(h, root, Front(loc)).value.Leaf?;
      assert |Front(loc)| < |loc|;
    }
  }

  /** Nothing below the value is an object below the root. */
  ghost predicate Foreign(h: Snapshot, v: Value, root: Value) {
    forall p, q {:trigger ValueAt(h, v, p), ValueAt(h, root, q)} ::
      ValueAt(h, v, p).Some? && ValueAt(h, v, p) == ValueAt(h, root, q) ==> ValueAt(h, v, p).value.Leaf?
  }

  /** No location is another or below it. */
  ghost predicate Apart(locs: seq<Location>) {
    forall i, j | 0 <= i < |locs| && 0 <= j < |locs| && locs[i] <= locs[j] :: i == j
  }

  /** The object that holds the value at one of the locations. */
  ghost predicate IsParent(h: Snapshot, root: Value, locs: seq<Location>, w: Value) {
    !w.Leaf? && exists j | 0 <= j < |locs| :: locs[j] != [] && ValueAt(h, root, Front(locs[j])) == Some(w)
  }

  /** Nothing below the value holds one of the locations. */
  ghost predicate Avoids(h: Snapshot, root: Value, locs: seq<Location>, w: Value) {
    forall r {:trigger ValueAt(h, w, r)} :: ValueAt(h, w, r).Some? ==> !IsParent(h, root, locs, ValueAt(h, w, r).value)
  }

  /** All objects but the parents are as they were. */
  ghost predicate OthersKept(h0: Snapshot, h: Snapshot, root: Value, locs: seq<Location>) {
    && (forall c | c in h0.comps ::
         c in h.comps && (!IsParent(h0, root, locs, CompoundRef(c)) ==> h.comps[c] == h0.comps[c]))
    && (forall l | l in h0.lists ::
         l in h.lists && |h.lists[l]| == |h0.lists[l]| &&
           (!IsParent(h0, root, locs, ListRef(l)) ==> h.lists[l] == h0.lists[l]))
  }

  /** A value that avoids the parents still has all it had. */
  lemma {:induction false} AvoidsKept(h0: Snapshot, h: Snapshot, root: Value, locs: seq<Location>, w: Value,
                                      r: Location)
    requires Closed(h0) && Known(h0, w) && OthersKept(h0, h, root, locs) && Avoids(h0, root, locs, w)
    ensures ValueAt(h, w, r) == ValueAt(h0, w, r)
    decreases |r|
  {
    hide IsParent;
    if r == [] {
    } else {
      AvoidsKept(h0, h, root, locs, w, Front(r));
      if ValueAt(h0, w, Front(r)).Some? { ReachedIsKnown(h0, w, Front(r)); }
    }
  }

  /** A new value is an old one, or a new list of old ones, and avoids the parents. */
  ghost predicate Sound(h0: Snapshot, h: Snapshot, root: Value, locs: seq<Location>, w: Value) {
    || (Known(h0, w) && Avoids(h0, root, locs, w))
    || (w.ListRef? && w.l !in h0.lists && w.l in h.lists &&
         forall x | x in h.lists[w.l] :: Known(h0, x) && Avoids(h0, root, locs, x))
  }

  lemma SoundAvoids(h0: Snapshot, h: Snapshot, root: Value, locs: seq<Location>, w: Value, r: Location)
    requires Closed(h0) && Known(h0, root) && OthersKept(h0, h, root, locs) && Sound(h0, h, root, locs, w)
    ensures ValueAt(h, w, r).Some? ==> !IsParent(h0, root, locs, ValueAt(h, w, r).value)
  {
    hide OthersKept, Avoids, IsParent, ValueAt, Closed;
    if Known(h0, w) && Avoids(h0, root, locs, w) {
      AvoidsKept(h0, h, root, locs, w, r);
      AvoidsAt(h0, root, locs, w, r);
    } else if r == [] {
      RootValue(h, w);
      ParentsKnown(h0, root, locs, w);
    } else {
      var x := ChildAt(h, w, r[0]);
      assert r == [r[0]] + r[1..];
      ValueAtConcat(h, w, [r[0]], r[1..]);
      assert [] + [r[0]] == [r[0]];
      ValueAtNext(h, w, [], r[0]);
      RootValue(h, w);
      if x.Some? {
        assert x.value in h.lists[w.l];
        AvoidsKept(h0, h, root, locs, x.value, r[1..]);
        AvoidsAt(h0, root, locs, x.value, r[1..]);
      }
    }
  }

  lemma AvoidsAt(h: Snapshot, root: Value, locs: seq<Location>, w: Value, r: Location)
    requires Avoids(h, root, locs, w)
    ensures ValueAt(h, w, r).Some? ==> !IsParent(h, root, locs, ValueAt(h, w, r).value)
  {
  }

  lemma ParentsKnown(h: Snapshot, root: Value, locs: seq<Location>, w: Value)
    requires Closed(h) && Known(h, root)
    ensures IsParent(h, root, locs, w) ==> Known(h, w)
  {
    if IsParent(h, root, locs, w) {
      var j :| 0 <= j < |locs| && locs[j] != [] && ValueAt(h, root, Front(locs[j])) == Some(w);
      ReachedIsKnown(h, root, Front(locs[j]));
    }
  }

  // ----- progress through the anchors

  /** Below a written location lies the new value, anywhere else what was there. */
  ghost predicate PlacedAt(h0: Snapshot, h: Snapshot, root: Value, locs: seq<Location>, ws: seq<Written>, q: Location)
    requires |ws| <= |locs|
  {
    && (forall i | 0 <= i < |ws| && locs[i] <= q :: ValueAt(h, root, q) == ValueBelow(h, ws[i], q[|locs[i]|..]))
    && ((forall i | 0 <= i < |ws| :: !(locs[i] <= q)) ==> ValueAt(h, root, q) == ValueAt(h0, root, q))
  }

  /** Exactly the locations `locs` have been written, with `ws`. */
  ghost predicate Placed(h0: Snapshot, h: Snapshot, root: Value, locs: seq<Location>, ws: seq<Written>) {
    |ws| <= |locs| && forall q {:trigger PlacedAt(h0, h, root, locs, ws, q)} :: PlacedAt(h0, h, root, locs, ws, q)
  }

  ghost predicate AllSound(h0: Snapshot, h: Snapshot, root: Value, locs: seq<Location>, ws: seq<Written>) {
    forall i | 0 <= i < |ws| && ws[i].Some? :: Sound(h0, h, root, locs, ws[i].value)
  }

  ghost predicate Progress(h0: Snapshot, h: Snapshot, root: Value, locs: seq<Location>, ws: seq<Written>) {
    OthersKept(h0, h, root, locs) && AllSound(h0, h, root, locs, ws) && Placed(h0, h, root, locs, ws)
  }

  /** What the locations of a resolved path and the tree they are in satisfy. */
  ghost predicate Setting(h0: Snapshot, root: Value, locs: seq<Location>) {
    && Closed(h0) && Known(h0, root) && Unshared(h0, root) && Apart(locs)
    && forall i | 0 <= i < |locs| :: ValueAt(h0, root, locs[i]).Some?
  }

  ghost predicate Writable(h0: Snapshot, root: Value, loc: Location) {
    loc != [] && ValueAt(h0, root, Front(loc)).Some? && !ValueAt(h0, root, Front(loc)).value.Leaf?
  }

  lemma Start(h0: Snapshot, root: Value, locs: seq<Location>)
    ensures Progress(h0, h0, root, locs, [])
  {
  }

  lemma ValueAtAt(h0: Snapshot, h: Snapshot, root: Value, locs: seq<Location>, ws: seq<Written>, q: Location)
    requires Placed(h0, h, root, locs, ws)
    ensures PlacedAt(h0, h, root, locs, ws, q)
  {
  }

  lemma ParentIs(h0: Snapshot, root: Value, locs: seq<Location>, k: nat)
    requires k < |locs| && Writable(h0, root, locs[k])
    ensures IsParent(h0, root, locs, ValueAt(h0, root, Front(locs[k])).value)
  {
  }

  lemma OneOf(h: Snapshot, root: Value, p: Location, q: Location)
    requires Unshared(h, root) && ValueAt(h, root, p).Some? && !ValueAt(h, root, p).value.Leaf? &&
             ValueAt(h, root, p) == ValueAt(h, root, q)
    ensures p == q
  {
  }

  lemma PrefixesCompare(a: Location, b: Location, q: Location)
    ensures a <= q && b <= q ==> a <= b || b <= a
    ensures b != [] && a <= Front(b) ==> a <= b
  {
    if a <= q && b <= q && |a| <= |b| { assert a == q[..|a|] && b == q[..|b|]; }
  }

  lemma NoneAbove(locs: seq<Location>, k: nat, i: nat, q: Location)
    requires Apart(locs) && k < |locs| && i < |locs| && i != k
    ensures locs[k] != [] ==> !(locs[i] <= Front(locs[k]))
    ensures !(locs[i] <= q && locs[k] <= q)
  {
    PrefixesCompare(locs[i], locs[k], q);
  }

  /** The object about to be written still lies at its one place. */
  lemma StillOnlyAt(h0: Snapshot, h: Snapshot, root: Value, locs: seq<Location>, ws: seq<Written>)
    requires Setting(h0, root, locs) && Progress(h0, h, root, locs, ws) && |ws| < |locs| &&
             Writable(h0, root, locs[|ws|])
    ensures OnlyAt(h, root, ValueAt(h0, root, Front(locs[|ws|])).value, Front(locs[|ws|]))
  {
    hide Sound, OthersKept, IsParent, Unshared, ValueAt, Apart, Placed, Closed;
    var k := |ws|;
    var up := Front(locs[k]);
    var parent := ValueAt(h0, root, up).value;
    ParentIs(h0, root, locs, k);
    forall i | 0 <= i < k ensures !(locs[i] <= up) { NoneAbove(locs, k, i, up); }
    ValueAtAt(h0, h, root, locs, ws, up);
    forall q {:trigger ValueAt(h, root, q)} | ValueAt(h, root, q) == Some(parent)
      ensures q == up
    {
      ValueAtAt(h0, h, root, locs, ws, q);
      if i :| 0 <= i < k && locs[i] <= q {
        if ws[i].Some? { SoundAvoids(h0, h, root, locs, ws[i].value, q[|locs[i]|..]); }
      } else {
        OneOf(h0, root, up, q);
      }
    }
  }

  lemma NotBelow(h0: Snapshot, h: Snapshot, root: Value, locs: seq<Location>, w: Value, parent: Value)
    requires Closed(h0) && Known(h0, root) && OthersKept(h0, h, root, locs) && Sound(h0, h, root, locs, w)
    requires IsParent(h0, root, locs, parent)
    ensures forall r {:trigger ValueAt(h, w, r)} :: ValueAt(h, w, r) != Some(parent)
  {
    hide OthersKept, Sound, IsParent, ValueAt, Closed;
    forall r {:trigger ValueAt(h, w, r)}
      ensures ValueAt(h, w, r) != Some(parent)
    {
      SoundAvoids(h0, h, root, locs, w, r);
    }
  }

  lemma OthersKeptAfter(h0: Snapshot, h: Snapshot, root: Value, locs: seq<Location>, parent: Value, s: Selector,
                        w: Written)
    requires OthersKept(h0, h, root, locs) && IsParent(h0, root, locs, parent) && CanWrite(h, parent, s) &&
             (w == None ==> s.Member?)
    ensures OthersKept(h0, Write(h, parent, s, w), root, locs)
  {
    hide IsParent;
  }

  lemma SoundAfter(h0: Snapshot, h: Snapshot, root: Value, locs: seq<Location>, parent: Value, s: Selector,
                   w: Written, x: Value)
    requires Closed(h0) && Known(h0, root) && IsParent(h0, root, locs, parent) && CanWrite(h, parent, s) &&
             (w == None ==> s.Member?)
    requires Sound(h0, h, root, locs, x)
    ensures Sound(h0, Write(h, parent, s, w), root, locs, x)
  {
    hide IsParent, Avoids, Closed;
    ParentsKnown(h0, root, locs, parent);
  }

  /** One more anchor written. */
  lemma OneMore(h0: Snapshot, h: Snapshot, root: Value, locs: seq<Location>, ws: seq<Written>, w: Written)
    requires Setting(h0, root, locs) && Progress(h0, h, root, locs, ws) && |ws| < |locs| &&
             Writable(h0, root, locs[|ws|])
    requires if w == None then Last(locs[|ws|]).Member? else Sound(h0, h, root, locs, w.value)
    requires CanWrite(h, ValueAt(h0, root, Front(locs[|ws|])).value, Last(locs[|ws|]))
    ensures Progress(h0, Write(h, ValueAt(h0, root, Front(locs[|ws|])).value, Last(locs[|ws|]), w), root, locs,
            ws + [w])
  {
    hide Sound, OthersKept, IsParent, Unshared, ValueAt, Apart, Closed, Write, OnlyAt, CanWrite, PlacedAt;
    var k := |ws|;
    var up, s := Front(locs[k]), Last(locs[k]);
    var parent := ValueAt(h0, root, up).value;
    var h' := Write(h, parent, s, w);
    ParentIs(h0, root, locs, k);
    StillOnlyAt(h0, h, root, locs, ws);
    OthersKeptAfter(h0, h, root, locs, parent, s, w);
    forall i | 0 <= i < |ws + [w]| && (ws + [w])[i].Some? ensures Sound(h0, h', root, locs, (ws + [w])[i].value) {
      SoundAfter(h0, h, root, locs, parent, s, w, (ws + [w])[i].value);
    }
    forall q {:trigger PlacedAt(h0, h', root, locs, ws + [w], q)}
      ensures PlacedAt(h0, h', root, locs, ws + [w], q)
    {
      PlacedAfter(h0, h, root, locs, ws, w, q);
    }
  }

  lemma PlacedAfter(h0: Snapshot, h: Snapshot, root: Value, locs: seq<Location>, ws: seq<Written>, w: Written,
                    q: Location)
    requires Setting(h0, root, locs) && Progress(h0, h, root, locs, ws) && |ws| < |locs| &&
             Writable(h0, root, locs[|ws|])
    requires if w == None then Last(locs[|ws|]).Member? else Sound(h0, h, root, locs, w.value)
    requires CanWrite(h, ValueAt(h0, root, Front(locs[|ws|])).value, Last(locs[|ws|]))
    requires OnlyAt(h, root, ValueAt(h0, root, Front(locs[|ws|])).value, Front(locs[|ws|]))
    ensures PlacedAt(h0, Write(h, ValueAt(h0, root, Front(locs[|ws|])).value, Last(locs[|ws|]), w), root, locs,
            ws + [w], q)
  {
    hide Sound, OthersKept, IsParent, Unshared, ValueAt, Apart, Closed, Write, OnlyAt, CanWrite, Placed;
    var k := |ws|;
    var up, s := Front(locs[k]), Last(locs[k]);
    assert up + [s] == locs[k];
    var parent := ValueAt(h0, root, up).value;
    var h', ws' := Write(h, parent, s, w), ws + [w];
    ParentIs(h0, root, locs, k);
    if w.Some? { NotBelow(h0, h, root, locs, w.value, parent); }
    WriteMoves(h, root, up, parent, s, w, q);
    ValueAtAt(h0, h, root, locs, ws, q);
    forall i | 0 <= i < |ws'| && locs[i] <= q
      ensures ValueAt(h', root, q) == ValueBelow(h', ws'[i], q[|locs[i]|..])
    {
      if ws'[i].Some? {
        NotBelow(h0, h, root, locs, ws'[i].value, parent);
        WriteElsewhere(h, parent, s, w, ws'[i].value, q[|locs[i]|..]);
      }
      if i < k { NoneAbove(locs, k, i, q); }
    }
  }

  // ----- a new list

  function WithList(h: Snapshot, l: ListObj, xs: seq<Value>): Snapshot {
    h.(lists := h.lists[l := xs])
  }

  lemma {:induction false} NewListElsewhere(h: Snapshot, l: ListObj, xs: seq<Value>, v: Value, q: Location)
    requires Closed(h) && Known(h, v) && l !in h.lists
    ensures ValueAt(WithList(h, l, xs), v, q) == ValueAt(h, v, q)
    decreases |q|
  {
    if q == [] {
    } else {
      NewListElsewhere(h, l, xs, v, Front(q));
      if ValueAt(h, v, Front(q)).Some? { ReachedIsKnown(h, v, Front(q)); }
    }
  }

  lemma SoundIsKnown(h0: Snapshot, h: Snapshot, root: Value, locs: seq<Location>, w: Value)
    requires OthersKept(h0, h, root, locs) && Sound(h0, h, root, locs, w)
    ensures Known(h, w)
  {
    hide IsParent, Avoids;
  }

  lemma SoundWithList(h0: Snapshot, h: Snapshot, root: Value, locs: seq<Location>, l: ListObj, xs: seq<Value>, x: Value)
    requires l !in h.lists && Sound(h0, h, root, locs, x)
    ensures Sound(h0, WithList(h, l, xs), root, locs, x)
  {
    hide Avoids;
  }

  /** Making a new list changes nothing below the root. */
  lemma NewListKeeps(h0: Snapshot, h: Snapshot, root: Value, locs: seq<Location>, ws: seq<Written>, l: ListObj,
                     xs: seq<Value>)
    requires Closed(h0) && Closed(h) && Known(h0, root) && Progress(h0, h, root, locs, ws) && l !in h.lists
    ensures Progress(h0, WithList(h, l, xs), root, locs, ws)
  {
    hide Sound, IsParent, ValueAt, Closed, PlacedAt;
    var h' := WithList(h, l, xs);
    assert OthersKept(h0, h', root, locs);
    forall i | 0 <= i < |ws| && ws[i].Some? ensures Sound(h0, h', root, locs, ws[i].value) {
      SoundWithList(h0, h, root, locs, l, xs, ws[i].value);
    }
    forall q {:trigger PlacedAt(h0, h', root, locs, ws, q)}
      ensures PlacedAt(h0, h', root, locs, ws, q)
    {
      PlacedWithList(h0, h, root, locs, ws, l, xs, q);
    }
  }

  lemma PlacedWithList(h0: Snapshot, h: Snapshot, root: Value, locs: seq<Location>, ws: seq<Written>, l: ListObj,
                       xs: seq<Value>, q: Location)
    requires Closed(h0) && Closed(h) && Known(h0, root) && Progress(h0, h, root, locs, ws) && l !in h.lists
    ensures PlacedAt(h0, WithList(h, l, xs), root, locs, ws, q)
  {
    hide Sound, IsParent, ValueAt, Closed, WithList;
    ValueAtAt(h0, h, root, locs, ws, q);
    KeptKnown(h0, h, root, locs, root);
    NewListElsewhere(h, l, xs, root, q);
    forall i | 0 <= i < |ws| && locs[i] <= q
      ensures ValueBelow(WithList(h, l, xs), ws[i], q[|locs[i]|..]) == ValueBelow(h, ws[i], q[|locs[i]|..])
    {
      if ws[i].Some? {
        SoundIsKnown(h0, h, root, locs, ws[i].value);
        NewListElsewhere(h, l, xs, ws[i].value, q[|locs[i]|..]);
      }
    }
  }

  lemma KeptKnown(h0: Snapshot, h: Snapshot, root: Value, locs: seq<Location>, v: Value)
    requires OthersKept(h0, h, root, locs) && Known(h0, v)
    ensures Known(h, v)
  {
    hide IsParent;
  }
}
