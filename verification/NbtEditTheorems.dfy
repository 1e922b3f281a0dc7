/**
 What the edits of a path leave behind, item by item: which lists can be edited, what they
 hold then, and which members are gone.
 */
module NbtEditTheorems {
  import opened Wrappers
  import opened NbtTrees
  import opened NbtObjects
  import opened NbtPaths
  import opened NbtReading
  import opened NbtWrites
  import opened NbtEditing
  import opened NbtOperations

  /**
   A list, or to insert also a typed array, can be edited unless it is the root or lies in
   an array; an index must be within it.
   */
  lemma EditableIff(h: Snapshot, root: Value, loc: Location, e: Edit)
    requires ValueAt(h, root, loc).Some?
    ensures var y := ValueAt(h, root, loc).value;
            Editable(h, root, loc, e) <==>
              && loc != [] && ValueAt(h, root, loc[..|loc| - 1]).Some?
              && !ValueAt(h, root, loc[..|loc| - 1]).value.Leaf?
              && match e
                 case InsertAtEnd(_) => IsSliceValue(h, y)
                 case InsertAt(i, _) => IsSliceValue(h, y) && 0 <= i <= |ElementValues(h, y)|
                 case RemoveIndex(i) => y.ListRef? && y.l in h.lists && 0 <= i < |h.lists[y.l]|
                 case RemoveAll => y.ListRef? && y.l in h.lists
                 case RemoveMatching(_) => y.ListRef? && y.l in h.lists
  {
    hide ValueAt, NotMatching;
  }

  /** `ys` is what is left of `xs` without the compounds the filter matches, in their order. */
  ghost predicate Without(h: Snapshot, xs: seq<Value>, ys: seq<Value>, filter: map<string, Tree>, at: seq<nat>) {
    && |at| == |ys|
    && (forall i, j | 0 <= i < j < |at| :: at[i] < at[j])
    && (forall j | 0 <= j < |at| :: at[j] < |xs| && ys[j] == xs[at[j]])
    && (forall i: nat :: i in at <==> i < |xs| && !Meets(h, xs[i], filter))
  }

  lemma WithoutMore(h: Snapshot, xs: seq<Value>, ys: seq<Value>, filter: map<string, Tree>, at: seq<nat>, n: nat)
    requires n < |xs| && Without(h, xs[..n], ys, filter, at)
    ensures if Meets(h, xs[n], filter) then Without(h, xs[..n + 1], ys, filter, at)
            else Without(h, xs[..n + 1], ys + [xs[n]], filter, at + [n])
  {
    hide Meets;
    var before, now := xs[..n], xs[..n + 1];
    assert forall i | 0 <= i < n :: before[i] == now[i];
    if !Meets(h, xs[n], filter) {
      forall i: nat ensures i in at + [n] <==> i < |now| && !Meets(h, now[i], filter) {
        assert i in at + [n] <==> i in at || i == n;
      }
    }
  }

  lemma {:induction false} NotMatchingIs(h: Snapshot, xs: seq<Value>, filter: map<string, Tree>, n: nat)
    returns (at: seq<nat>)
    requires n <= |xs|
    ensures Without(h, xs[..n], NotMatching(h, xs, filter, n), filter, at)
  {
    hide MatchValue, NotMatching, Without, Meets, IsMatchingCompound;
    NotMatchingNext(h, xs, filter, if n == 0 then 0 else n - 1);
    if n == 0 {
      at := [];
      NothingLeftOut(h, filter);
      assert xs[..0] == [];
    } else {
      at := NotMatchingIs(h, xs, filter, n - 1);
      MeetsIs(h, xs[n - 1], filter);
      WithoutMore(h, xs, NotMatching(h, xs, filter, n - 1), filter, at, n - 1);
      var before := NotMatching(h, xs, filter, n - 1);
      if Meets(h, xs[n - 1], filter) {
        assert before + [] == before;
      } else {
        at := at + [n - 1];
      }
    }
  }

  lemma NothingLeftOut(h: Snapshot, filter: map<string, Tree>)
    ensures Without(h, [], [], filter, [])
  {
  }

  /** What a list holds once edited. */
  lemma EditedItems(h: Snapshot, h': Snapshot, root: Value, loc: Location, e: Edit, w: Written)
    returns (at: seq<nat>)
    requires EditedInto(h, h', root, loc, e, w)
    ensures IsSliceValue(h, ValueAt(h, root, loc).value)
    ensures var xs, ys := ElementValues(h, ValueAt(h, root, loc).value), h'.lists[w.value.l];
            match e
            case InsertAtEnd(v) => ys == xs + [v]
            case InsertAt(i, v) => 0 <= i <= |xs| && ys == xs[..i] + [v] + xs[i..]
            case RemoveIndex(i) => 0 <= i < |xs| && ys == xs[..i] + xs[i + 1..]
            case RemoveAll => ys == []
            case RemoveMatching(filter) => Without(h, xs, ys, filter, at)
  {
    hide ValueAt, NotMatching, Without, ElementValues, MatchValue;
    at := [];
    var y := ValueAt(h, root, loc).value;
    assert NewItems(h, y, e).Ok?;
    var xs := ElementValues(h, y);
    if e.RemoveMatching? {
      assert xs[..|xs|] == xs;
      at := NotMatchingIs(h, xs, e.filter, |xs|);
      assert Without(h, xs, NotMatching(h, xs, e.filter, |xs|), e.filter, at);
    }
  }

  /** Every list adds to the count the tags it gained or lost. */
  lemma CountNext(h: Snapshot, root: Value, locs: seq<Location>, e: Edit, k: nat)
    requires k < |locs| && forall i | 0 <= i <= k :: Editable(h, root, locs[i], e)
    ensures TotalAffected(h, root, locs, e, 0) == 0
    ensures ValueAt(h, root, locs[k]).Some? && NewItems(h, ValueAt(h, root, locs[k]).value, e).Ok?
    ensures var y := ValueAt(h, root, locs[k]).value;
            var was, now := |ElementValues(h, y)|, |NewItems(h, y, e).value|;
            TotalAffected(h, root, locs, e, k + 1) - TotalAffected(h, root, locs, e, k)
            == if now > was then now - was else was - now
  {
    hide ValueAt, Writable, ElementValues, TotalAffected;
    NothingCounted(h, root, locs, e);
    AffectedNext(h, root, locs, e, k);
  }

  lemma NothingCounted(h: Snapshot, root: Value, locs: seq<Location>, e: Edit)
    ensures TotalAffected(h, root, locs, e, 0) == 0
  {
  }

  /** The members to go are those of that name below the locations, each once. */
  lemma {:induction false} DoomedExactly(h: Snapshot, root: Value, locs: seq<Location>, name: string, n: nat)
    requires n <= |locs|
    ensures forall p :: p in Doomed(h, root, locs, name, n) <==>
              ValueAt(h, root, p).Some? && exists i | 0 <= i < n :: p == locs[i] + [Member(name)]
  {
    hide ValueAt;
    if n == 0 {
    } else {
      DoomedExactly(h, root, locs, name, n - 1);
    }
  }

  lemma NothingBelow(h: Snapshot, root: Value, p: Location, q: Location)
    requires p <= q && ValueAt(h, root, p) == None
    ensures ValueAt(h, root, q) == None
    decreases |q|
  {
    if p == q {
    } else {
      assert p <= q[..|q| - 1];
      NothingBelow(h, root, p, q[..|q| - 1]);
    }
  }

  /** Deleting a member: it is gone from every compound, with all below it, and everything else is as it was. */
  lemma DeletedMembers(h: Snapshot, h': Snapshot, root: Value, locs: seq<Location>, name: string, q: Location)
    requires var doomed := Doomed(h, root, locs, name, |locs|);
             Placed(h, h', root, doomed, Deletions(|doomed|))
    ensures (exists i | 0 <= i < |locs| :: locs[i] + [Member(name)] <= q) ==> ValueAt(h', root, q) == None
    ensures (forall i | 0 <= i < |locs| :: !(locs[i] + [Member(name)] <= q)) ==>
              ValueAt(h', root, q) == ValueAt(h, root, q)
  {
    hide ValueAt, Placed;
    var doomed := Doomed(h, root, locs, name, |locs|);
    DoomedExactly(h, root, locs, name, |locs|);
    ValueAtAt(h, h', root, doomed, Deletions(|doomed|), q);
    forall i | 0 <= i < |doomed| ensures doomed[i] in doomed {}
    if i :| 0 <= i < |locs| && locs[i] + [Member(name)] <= q {
      var p := locs[i] + [Member(name)];
      if ValueAt(h, root, p).Some? {
        assert p in doomed;
      } else {
        NothingBelow(h, root, p, q);
      }
    }
  }

  // ----- removing

  /**
   What the last step asks can be removed below the location: a member of a compound, there
   or not; an element or all elements of a list, though not of a typed array, that is not
   itself the root. A filter on a compound removes nothing.
   */
  ghost predicate CanRemove(h: Snapshot, root: Value, loc: Location, last: PathStep)
    requires ValueAt(h, root, loc).Some?
  {
    var y := ValueAt(h, root, loc).value;
    match last
    case MemberStep(_) => y.CompoundRef?
    case SelfMatch(_) => false
    case IndexStep(i) => Writable(h, root, loc) && y.ListRef? && y.l in h.lists && 0 <= i < |h.lists[y.l]|
    case _ => Writable(h, root, loc) && y.ListRef? && y.l in h.lists
  }

  /** Removing succeeds exactly when that holds below every location. */
  lemma RemovableIff(h: Snapshot, root: Value, locs: seq<Location>, last: PathStep)
    requires forall i | 0 <= i < |locs| :: ValueAt(h, root, locs[i]).Some?
    ensures Removable(h, root, locs, last) <==> forall i | 0 <= i < |locs| :: CanRemove(h, root, locs[i], last)
  {
    hide ValueAt, Editable, Writable, CanRemove;
    forall i | 0 <= i < |locs|
      ensures CanRemove(h, root, locs[i], last) <==>
              match last
              case MemberStep(_) => ValueAt(h, root, locs[i]).value.CompoundRef?
              case SelfMatch(_) => false
              case _ => Editable(h, root, locs[i], RemovalOf(last))
    {
      OneRemovable(h, root, locs[i], last);
    }
    if last.SelfMatch? && locs != [] { assert !CanRemove(h, root, locs[0], last); }
  }

  lemma OneRemovable(h: Snapshot, root: Value, loc: Location, last: PathStep)
    requires ValueAt(h, root, loc).Some?
    ensures CanRemove(h, root, loc, last) <==>
            match last
            case MemberStep(_) => ValueAt(h, root, loc).value.CompoundRef?
            case SelfMatch(_) => false
            case _ => Editable(h, root, loc, RemovalOf(last))
  {
    hide ValueAt, Writable, Editable;
    if !last.MemberStep? && !last.SelfMatch? { EditableAlso(h, root, loc, RemovalOf(last)); }
  }

  lemma EditableAlso(h: Snapshot, root: Value, loc: Location, e: Edit)
    requires ValueAt(h, root, loc).Some? && !Inserts(e)
    ensures Editable(h, root, loc, e) <==>
            var y := ValueAt(h, root, loc).value;
            && Writable(h, root, loc) && y.ListRef? && y.l in h.lists
            && (e.RemoveIndex? ==> 0 <= e.index < |h.lists[y.l]|)
  {
    hide ValueAt, Writable, NotMatching;
  }

  /** What removing elements leaves in each list, in place of the one that was there. */
  lemma RemovedItems(h: Snapshot, h': Snapshot, root: Value, locs: seq<Location>, last: PathStep, n: nat,
                     ws: seq<Written>, i: nat)
    returns (at: seq<nat>)
    requires Removed(h, h', root, locs, last, n, ws) && !last.MemberStep? && !last.SelfMatch? && i < |locs|
    requires Apart(locs)
    ensures |ws| == |locs| && ws[i].Some? && ws[i].value.ListRef? && ws[i].value.l in h'.lists
    ensures ValueAt(h', root, locs[i]) == Some(ws[i].value)
    ensures ValueAt(h, root, locs[i]).Some? && IsSliceValue(h, ValueAt(h, root, locs[i]).value)
    ensures var xs, ys := ElementValues(h, ValueAt(h, root, locs[i]).value), h'.lists[ws[i].value.l];
            match last
            case IndexStep(k) => 0 <= k < |xs| && ys == xs[..k] + xs[k + 1..]
            case AllStep => ys == []
            case MatchAll(filter) => Without(h, xs, ys, filter, at)
  {
    hide ValueAt, Placed, NotMatching, Without, ElementValues, Apart, TotalAffected;
    var e := RemovalOf(last);
    assert EditedInto(h, h', root, locs[i], e, ws[i]);
    at := EditedItems(h, h', root, locs[i], e, ws[i]);
    ValueAtAt(h, h', root, locs, ws, locs[i]);
    RootValue(h', ws[i].value);
    assert locs[i][|locs[i]|..] == [];
  }
}
