/** The operations on everything a path selects: append, prepend, insert, remove. */
module NbtOperations {
  import opened Wrappers
  import opened NbtTrees
  import opened NbtObjects
  import opened NbtPaths
  import opened NbtResolving
  import opened NbtWrites
  import opened NbtEditing

  /**
     Every selected list has been replaced by a new one with the edited items, and no
     location outside them has changed. The items kept still hold what they held.
   */
  ghost predicate ListsEdited(h: Snapshot, h': Snapshot, root: Value, locs: seq<Location>, e: Edit, ws: seq<Written>) {
    && |ws| == |locs| && Placed(h, h', root, locs, ws)
    && AllEditedInto(h, h', root, locs, e, ws)
    && (forall i, x, q {:trigger ValueAt(h', x, q), ws[i]} | 0 <= i < |ws| && x in h'.lists[ws[i].value.l] ::
         ValueAt(h', x, q) == ValueAt(h, x, q))
  }

  lemma ItemsStay(h: Snapshot, h': Snapshot, root: Value, locs: seq<Location>, e: Edit, ws: seq<Written>)
    requires Setting(h, root, locs) && |ws| == |locs| && Progress(h, h', root, locs, ws) &&
             AllEditedInto(h, h', root, locs, e, ws)
    requires Inserts(e) ==> Known(h, e.v) && Avoids(h, root, locs, e.v)
    ensures ListsEdited(h, h', root, locs, e, ws)
  {
    hide Avoids, OthersKept, Sound, Placed, NewItems, Closed, ValueAt, Setting, Progress, ElementValues;
    OpenProgress(h, h', root, locs, ws);
    SettingKnown(h, root, locs);
    forall i, x, q {:trigger ValueAt(h', x, q), ws[i]} | 0 <= i < |ws| && x in h'.lists[ws[i].value.l]
      ensures ValueAt(h', x, q) == ValueAt(h, x, q)
    {
      assert EditedInto(h, h', root, locs[i], e, ws[i]);
      var y := ValueAt(h, root, locs[i]).value;
      ReachedIsKnown(h, root, locs[i]);
      BelowAvoids(h, root, locs, i, locs[i]);
      NewItemsAre(h, y, e);
      if x in ElementValues(h, y) {
        var j :| 0 <= j < |ElementValues(h, y)| && ElementValues(h, y)[j] == x;
        ElementAvoids(h, root, locs, y, j);
      }
      AvoidsKept(h, h', root, locs, x, q);
    }
  }

  lemma EditedSoFar(h0: Snapshot, h: Snapshot, h': Snapshot, root: Value, locs: seq<Location>, e: Edit,
                    ws: seq<Written>)
    requires |ws| <= |locs| && AllEditedInto(h0, h, root, locs, e, ws)
    requires forall l | l in h.lists && l !in h0.lists :: l in h'.lists && h'.lists[l] == h.lists[l]
    ensures AllEditedInto(h0, h', root, locs, e, ws)
  {
    forall i | 0 <= i < |ws| ensures EditedInto(h0, h', root, locs[i], e, ws[i]) {
      EditedStays(h0, h, h', root, locs[i], e, ws[i]);
    }
  }

  lemma EditedOneMore(h0: Snapshot, h: Snapshot, root: Value, locs: seq<Location>, e: Edit, ws: seq<Written>,
                      w: Written)
    requires |ws| < |locs| && AllEditedInto(h0, h, root, locs, e, ws) && EditedInto(h0, h, root, locs[|ws|], e, w)
    ensures AllEditedInto(h0, h, root, locs, e, ws + [w])
  {
  }

  lemma NothingEdited(h: Snapshot, root: Value, locs: seq<Location>, e: Edit)
    ensures AllEditedInto(h, h, root, locs, e, [])
  {
  }

  /** The first list that could not be edited ended it; those before it are edited, nothing else is. */
  ghost predicate StoppedEditing(h: Snapshot, h': Snapshot, root: Value, locs: seq<Location>, e: Edit,
                                 ws: seq<Written>) {
    && |ws| < |locs| && !Editable(h, root, locs[|ws|], e) && (forall i | 0 <= i < |ws| :: Editable(h, root, locs[i], e))
    && Placed(h, h', root, locs, ws) && AllEditedInto(h, h', root, locs, e, ws)
  }

  lemma ShowStopped(h: Snapshot, h': Snapshot, root: Value, locs: seq<Location>, e: Edit, ws: seq<Written>)
    requires |ws| < |locs| && !Editable(h, root, locs[|ws|], e) &&
             forall i | 0 <= i < |ws| :: Editable(h, root, locs[i], e)
    requires Progress(h, h', root, locs, ws) && AllEditedInto(h, h', root, locs, e, ws)
    ensures StoppedEditing(h, h', root, locs, e, ws)
  {
  }

  lemma ShowAllEditable(h: Snapshot, root: Value, locs: seq<Location>, e: Edit, k: nat)
    requires k <= |locs| && forall i | 0 <= i < k :: Editable(h, root, locs[i], e)
    ensures k == |locs| ==> AllEditable(h, root, locs, e)
    ensures k < |locs| && !Editable(h, root, locs[k], e) ==> !AllEditable(h, root, locs, e)
  {
    hide Editable;
  }

  /** One anchor's list edited, with the record of what was written. */
  method EditNext(a: Anchor, e: Edit, ghost h0: Snapshot, ghost h: Snapshot, ghost root: Value,
                  ghost locs: seq<Location>, ghost ws: seq<Written>)
    returns (r: Result<nat, PathError>, ghost h': Snapshot, ghost ws': seq<Written>)
    requires Current(h) && Setting(h0, root, locs) && |ws| < |locs| && Named(locs[|ws|]) &&
             a == AnchorFor(h0, root, locs[|ws|])
    requires Progress(h0, h, root, locs, ws) && AllEditedInto(h0, h, root, locs, e, ws)
    requires Inserts(e) ==> Known(h0, e.v) && Avoids(h0, root, locs, e.v)
    modifies h.comps.Keys, h.lists.Keys
    ensures Current(h') && h.comps.Keys == h'.comps.Keys && h.lists.Keys <= h'.lists.Keys &&
            fresh(h'.lists.Keys - h.lists.Keys)
    ensures r.Ok? <==> Editable(h0, root, locs[|ws|], e)
    ensures r.Ok? ==> r.value == Affected(h0, ValueAt(h0, root, locs[|ws|]).value, e)
    ensures |ws'| == |ws| + if r.Ok? then 1 else 0
    ensures Progress(h0, h', root, locs, ws') && AllEditedInto(h0, h', root, locs, e, ws')
  {
    hide ValueAt, Closed, Progress, Setting, Editable, AnchorFor, Placed, Named, Avoids, Current, EditedInto;
    hide AllEditedInto, Affected, Known;
    ghost var w: Written;
    r, h', w := EditOne(a, e, |ws|, h0, h, root, locs, ws);
    EditedSoFar(h0, h, h', root, locs, e, ws);
    ws' := ws;
    if r.Ok? {
      EditedOneMore(h0, h', root, locs, e, ws, w);
      ws' := ws + [w];
    }
  }

  lemma AffectedNext(h: Snapshot, root: Value, locs: seq<Location>, e: Edit, k: nat)
    requires k < |locs| && forall i | 0 <= i <= k :: Editable(h, root, locs[i], e)
    ensures Editable(h, root, locs[k], e)
    ensures TotalAffected(h, root, locs, e, k + 1)
            == TotalAffected(h, root, locs, e, k) + Affected(h, ValueAt(h, root, locs[k]).value, e)
  {
    hide Editable, Affected;
  }

  /** The anchors in turn, each list edited as it is then. */
  method EditAnchors(anchors: seq<Anchor>, e: Edit, ghost h: Snapshot, ghost root: Value, ghost locs: seq<Location>)
    returns (r: Result<nat, PathError>, ghost h': Snapshot, ghost ws: seq<Written>)
    requires Current(h) && Setting(h, root, locs) && anchors == AnchorsFor(h, root, locs) && AllNamed(locs)
    requires Inserts(e) ==> Known(h, e.v) && Avoids(h, root, locs, e.v)
    modifies h.comps.Keys, h.lists.Keys
    ensures Current(h')
    ensures r.Ok? <==> AllEditable(h, root, locs, e)
    ensures r.Ok? ==> r.value == TotalAffected(h, root, locs, e, |locs|) && ListsEdited(h, h', root, locs, e, ws)
    ensures r.Err? ==> StoppedEditing(h, h', root, locs, e, ws)
  {
    hide ValueAt, Closed, Progress, Setting, Editable, AnchorFor, Placed, Named, Avoids, Current, EditedInto;
    hide AllEditedInto, Affected, ListsEdited, Known, StoppedEditing, AllEditable;
    h', ws := h, [];
    Start(h, root, locs);
    NothingEdited(h, root, locs, e);
    var affected := 0;
    for k := 0 to |anchors|
      invariant Current(h') && h'.comps.Keys == h.comps.Keys && h.lists.Keys <= h'.lists.Keys &&
                fresh(h'.lists.Keys - h.lists.Keys)
      invariant |ws| == k && Progress(h, h', root, locs, ws) && AllEditedInto(h, h', root, locs, e, ws)
      invariant forall i | 0 <= i < k :: Editable(h, root, locs[i], e)
      invariant affected == TotalAffected(h, root, locs, e, k)
    {
      assert Named(locs[k]) by { assert locs[k] in locs; }
      ShowAllEditable(h, root, locs, e, k);
      var one: Result<nat, PathError>;
      one, h', ws := EditNext(anchors[k], e, h, h', root, locs, ws);
      if one.Err? {
        ShowStopped(h, h', root, locs, e, ws);
        return Err(one.error), h', ws;
      }
      AffectedNext(h, root, locs, e, k);
      affected := affected + one.value;
    }
    ShowAllEditable(h, root, locs, e, |locs|);
    ItemsStay(h, h', root, locs, e, ws);
    return Ok(affected), h', ws;
  }

  /** Edit the list at every anchor; succeeds exactly when all of them can be edited. */
  method EditLists(root: Value, steps: seq<PathStep>, e: Edit, ghost h: Snapshot)
    returns (r: Result<nat, PathError>, ghost h': Snapshot, ghost ws: seq<Written>)
    requires Current(h) && Known(h, root) && Unshared(h, root)
    requires Inserts(e) ==> Known(h, e.v) && Foreign(h, e.v, root)
    requires forall i | 0 <= i < |steps| :: NamedStep(steps[i])
    modifies h.comps.Keys, h.lists.Keys
    ensures Current(h')
    ensures Resolved(h, root, steps).Err? ==> r == Err(Resolved(h, root, steps).error) && h' == h
    ensures Resolved(h, root, steps).Ok? ==>
              var locs := Resolved(h, root, steps).value;
              && (r.Ok? <==> AllEditable(h, root, locs, e))
              && (r.Ok? ==> r.value == TotalAffected(h, root, locs, e, |locs|) && ListsEdited(h, h', root, locs, e, ws))
              && (r.Err? ==> StoppedEditing(h, h', root, locs, e, ws))
  {
    hide ValueAt, Closed, Unshared, Foreign, Setting, AllEditable, AnchorFor, Avoids, Resolved, Current, ListsEdited;
    hide StoppedEditing, Known, TotalAffected;
    var anchors := Resolve(root, steps, h);
    if anchors.Err? { return Err(anchors.error), h, []; }
    ghost var locs := Resolved(h, root, steps).value;
    CurrentIsClosed(h);
    ResolvedSetting(h, root, steps);
    if Inserts(e) { ForeignAvoids(h, root, locs, e.v); }
    r, h', ws := EditAnchors(anchors.value, e, h, root, locs);
  }

  lemma {:induction false} InsertsOneEach(h: Snapshot, root: Value, locs: seq<Location>, e: Edit, n: nat)
    requires n <= |locs| && AllEditable(h, root, locs, e) && Inserts(e)
    ensures TotalAffected(h, root, locs, e, n) == n
  {
    hide NewItems, Writable, ValueAt;
    if n == 0 {
    } else {
      InsertsOneEach(h, root, locs, e, n - 1);
    }
  }

  /** Append a value to every selected list. */
  method Append(root: Value, steps: seq<PathStep>, v: Value, ghost h: Snapshot)
    returns (r: Result<nat, PathError>, ghost h': Snapshot, ghost ws: seq<Written>)
    requires Current(h) && Known(h, root) && Known(h, v) && Unshared(h, root) && Foreign(h, v, root)
    requires forall i | 0 <= i < |steps| :: NamedStep(steps[i])
    modifies h.comps.Keys, h.lists.Keys
    ensures Current(h')
    ensures Resolved(h, root, steps).Err? ==> r == Err(Resolved(h, root, steps).error) && h' == h
    ensures Resolved(h, root, steps).Ok? ==>
              var locs := Resolved(h, root, steps).value;
              && (r.Ok? <==> AllEditable(h, root, locs, InsertAtEnd(v)))
              && (r.Ok? ==> r.value == |locs| && ListsEdited(h, h', root, locs, InsertAtEnd(v), ws))
              && (r.Err? ==> StoppedEditing(h, h', root, locs, InsertAtEnd(v), ws))
  {
    hide ValueAt, Closed, Unshared, Foreign, AllEditable, Current, ListsEdited, StoppedEditing, Known, Resolved;
    r, h', ws := EditLists(root, steps, InsertAtEnd(v), h);
    if r.Ok? {
      ghost var locs := Resolved(h, root, steps).value;
      InsertsOneEach(h, root, locs, InsertAtEnd(v), |locs|);
    }
  }

  /** Put a value before every selected list's items. */
  method Prepend(root: Value, steps: seq<PathStep>, v: Value, ghost h: Snapshot)
    returns (r: Result<nat, PathError>, ghost h': Snapshot, ghost ws: seq<Written>)
    requires Current(h) && Known(h, root) && Known(h, v) && Unshared(h, root) && Foreign(h, v, root)
    requires forall i | 0 <= i < |steps| :: NamedStep(steps[i])
    modifies h.comps.Keys, h.lists.Keys
    ensures Current(h')
    ensures Resolved(h, root, steps).Err? ==> r == Err(Resolved(h, root, steps).error) && h' == h
    ensures Resolved(h, root, steps).Ok? ==>
              var locs := Resolved(h, root, steps).value;
              && (r.Ok? <==> AllEditable(h, root, locs, InsertAt(0, v)))
              && (r.Ok? ==> r.value == |locs| && ListsEdited(h, h', root, locs, InsertAt(0, v), ws))
              && (r.Err? ==> StoppedEditing(h, h', root, locs, InsertAt(0, v), ws))
  {
    hide ValueAt, Closed, Unshared, Foreign, AllEditable, Current, ListsEdited, StoppedEditing, Known, Resolved;
    r, h', ws := EditLists(root, steps, InsertAt(0, v), h);
    if r.Ok? {
      ghost var locs := Resolved(h, root, steps).value;
      InsertsOneEach(h, root, locs, InsertAt(0, v), |locs|);
    }
  }

  /** Insert a value at a position of every selected list. */
  method Insert(root: Value, steps: seq<PathStep>, idx: int, v: Value, ghost h: Snapshot)
    returns (r: Result<nat, PathError>, ghost h': Snapshot, ghost ws: seq<Written>)
    requires Current(h) && Known(h, root) && Known(h, v) && Unshared(h, root) && Foreign(h, v, root)
    requires forall i | 0 <= i < |steps| :: NamedStep(steps[i])
    modifies h.comps.Keys, h.lists.Keys
    ensures Current(h')
    ensures Resolved(h, root, steps).Err? ==> r == Err(Resolved(h, root, steps).error) && h' == h
    ensures Resolved(h, root, steps).Ok? ==>
              var locs := Resolved(h, root, steps).value;
              && (r.Ok? <==> AllEditable(h, root, locs, InsertAt(idx, v)))
              && (r.Ok? ==> r.value == |locs| && ListsEdited(h, h', root, locs, InsertAt(idx, v), ws))
              && (r.Err? ==> StoppedEditing(h, h', root, locs, InsertAt(idx, v), ws))
  {
    hide ValueAt, Closed, Unshared, Foreign, AllEditable, Current, ListsEdited, StoppedEditing, Known, Resolved;
    r, h', ws := EditLists(root, steps, InsertAt(idx, v), h);
    if r.Ok? {
      ghost var locs := Resolved(h, root, steps).value;
      InsertsOneEach(h, root, locs, InsertAt(idx, v), |locs|);
    }
  }

  // ----- removing

  /** The members of that name below the first `n` locations. */
  ghost function Doomed(h: Snapshot, root: Value, locs: seq<Location>, name: string, n: nat): seq<Location>
    requires n <= |locs|
  {
    if n == 0 then []
    else
      var p := locs[n - 1] + [Member(name)];
      Doomed(h, root, locs, name, n - 1) + if ValueAt(h, root, p).Some? then [p] else []
  }

  lemma {:induction false} DoomedAre(h: Snapshot, root: Value, locs: seq<Location>, name: string, n: nat)
    requires n <= |locs|
    ensures forall p | p in Doomed(h, root, locs, name, n) ::
              ValueAt(h, root, p).Some? && p != [] && Last(p) == Member(name) && Front(p) in locs[..n]
  {
    hide ValueAt;
    if n == 0 {
    } else {
      DoomedAre(h, root, locs, name, n - 1);
      assert forall q | q in locs[..n - 1] :: q in locs[..n];
      assert Front(locs[n - 1] + [Member(name)]) == locs[n - 1] && locs[n - 1] in locs[..n];
    }
  }

  lemma {:induction false} DoomedApart(h: Snapshot, root: Value, locs: seq<Location>, name: string, n: nat)
    requires n <= |locs| && Apart(locs)
    ensures Apart(Doomed(h, root, locs, name, n))
  {
    hide ValueAt, Apart, Doomed;
    DoomedNext(h, root, locs, name, if n == 0 then 0 else n - 1);
    if n == 0 {
      NoneApart();
    } else {
      DoomedApart(h, root, locs, name, n - 1);
      DoomedAre(h, root, locs, name, n - 1);
      var before, p := Doomed(h, root, locs, name, n - 1), locs[n - 1] + [Member(name)];
      forall i | 0 <= i < |before| ensures !(before[i] <= p) && !(p <= before[i]) {
        assert before[i] in before;
        var j :| 0 <= j < n - 1 && locs[j] == Front(before[i]);
        ApartBelow(locs, j, n - 1, Member(name));
        ApartBelow(locs, n - 1, j, Member(name));
        assert before[i] == locs[j] + [Member(name)];
      }
      ApartMore(before, p);
      assert Doomed(h, root, locs, name, n) == if ValueAt(h, root, p).Some? then before + [p] else before;
    }
  }

  lemma NoneApart()
    ensures Apart([])
  {
  }

  lemma ApartMore(locs: seq<Location>, p: Location)
    requires Apart(locs) && forall i | 0 <= i < |locs| :: !(locs[i] <= p) && !(p <= locs[i])
    ensures Apart(locs + [p])
  {
  }

  lemma ApartBelow(locs: seq<Location>, j: nat, k: nat, s: Selector)
    requires Apart(locs) && j < |locs| && k < |locs| && j != k
    ensures !(locs[j] + [s] <= locs[k] + [s]) && !(locs[j] + [s] <= locs[k])
  {
    NoneAbove(locs, k, j, locs[k] + [s]);
    PrefixesCompare(locs[j], locs[j] + [s], locs[k] + [s]);
    assert locs[j] <= locs[j] + [s] && locs[k] <= locs[k] + [s];
  }

  lemma {:induction false} DoomedPrefix(h: Snapshot, root: Value, locs: seq<Location>, name: string, n: nat, m: nat)
    requires n <= m <= |locs|
    ensures Doomed(h, root, locs, name, n) <= Doomed(h, root, locs, name, m)
    decreases m
  {
    if n == m {
    } else {
      DoomedPrefix(h, root, locs, name, n, m - 1);
    }
  }

  lemma DoomedSetting(h: Snapshot, root: Value, locs: seq<Location>, name: string)
    requires Setting(h, root, locs)
    ensures Setting(h, root, Doomed(h, root, locs, name, |locs|))
  {
    hide ValueAt, Unshared, Closed, Apart;
    DoomedAre(h, root, locs, name, |locs|);
    DoomedApart(h, root, locs, name, |locs|);
    var all := Doomed(h, root, locs, name, |locs|);
    forall i | 0 <= i < |all| ensures ValueAt(h, root, all[i]).Some? { assert all[i] in all; }
  }

  ghost predicate AllCompounds(h: Snapshot, root: Value, locs: seq<Location>, n: nat)
    requires n <= |locs|
  {
    forall i | 0 <= i < n :: ValueAt(h, root, locs[i]).Some? && ValueAt(h, root, locs[i]).value.CompoundRef?
  }

  /** Nothing deleted so far lies above the next compound or its member. */
  lemma NotYet(h: Snapshot, root: Value, locs: seq<Location>, name: string, k: nat)
    requires Setting(h, root, locs) && k < |locs|
    ensures forall p | p in Doomed(h, root, locs, name, k) :: !(p <= locs[k]) && !(p <= locs[k] + [Member(name)])
  {
    hide ValueAt, Unshared, Closed, Apart, Doomed;
    DoomedAre(h, root, locs, name, k);
    forall p | p in Doomed(h, root, locs, name, k) ensures !(p <= locs[k]) && !(p <= locs[k] + [Member(name)]) {
      var j :| 0 <= j < k && locs[j] == Front(p);
      ApartBelow(locs, j, k, Member(name));
      assert p == locs[j] + [Member(name)];
    }
  }

  /** What the next anchor reads is what was there, member and all. */
  lemma NextCompound(h0: Snapshot, h: Snapshot, root: Value, locs: seq<Location>, name: string, k: nat,
                     ws: seq<Written>)
    requires Setting(h0, root, locs) && k < |locs| && Named(locs[k])
    requires |ws| == |Doomed(h0, root, locs, name, k)|
    requires Progress(h0, h, root, Doomed(h0, root, locs, name, |locs|), ws)
    ensures AnchorValue(h, AnchorFor(h0, root, locs[k])) == ValueAt(h0, root, locs[k])
    ensures ValueAt(h0, root, locs[k]).Some?
    ensures ChildAt(h, ValueAt(h0, root, locs[k]).value, Member(name)) == ValueAt(h0, root, locs[k] + [Member(name)])
  {
    hide ValueAt, Unshared, Closed, Apart, Doomed, Placed, OthersKept, AllSound, ChildAt, AnchorValue, AnchorFor;
    var all := Doomed(h0, root, locs, name, |locs|);
    DoomedPrefix(h0, root, locs, name, k, |locs|);
    NotYet(h0, root, locs, name, k);
    forall i | 0 <= i < |ws| ensures !(all[i] <= locs[k]) && !(all[i] <= locs[k] + [Member(name)]) {
      assert all[i] == Doomed(h0, root, locs, name, k)[i];
      assert all[i] in Doomed(h0, root, locs, name, k);
    }
    OpenSetting(h0, root, locs, k);
    StillReads(h0, h, root, all, ws, locs[k]);
    ValueAtAt(h0, h, root, all, ws, locs[k] + [Member(name)]);
    ValueAtNext(h, root, locs[k], Member(name));
  }

  method DeleteMember(c: CompoundObj, name: string, ghost h: Snapshot) returns (ghost h': Snapshot)
    requires Current(h) && c in h.comps && name in h.comps[c]
    modifies c
    ensures CanWrite(h, CompoundRef(c), Member(name)) && h' == Write(h, CompoundRef(c), Member(name), None)
    ensures Current(h') && h'.comps.Keys == h.comps.Keys && h'.lists == h.lists
  {
    c.members := c.members - {name};
    h' := Write(h, CompoundRef(c), Member(name), None);
  }

  function Deletions(n: nat): (ws: seq<Written>)
    ensures |ws| == n && forall i | 0 <= i < n :: ws[i] == None
  {
    seq(n, _ => None)
  }

  /** The first value that is no compound ended it; the members before it are deleted, nothing else is. */
  ghost predicate StoppedDeleting(h: Snapshot, h': Snapshot, root: Value, locs: seq<Location>, name: string) {
    exists k {:trigger Doomed(h, root, locs, name, k)} ::
      && 0 <= k < |locs| && AllCompounds(h, root, locs, k) && !AllCompounds(h, root, locs, k + 1)
      && Placed(h, h', root, Doomed(h, root, locs, name, |locs|), Deletions(|Doomed(h, root, locs, name, k)|))
  }

  lemma ShowStoppedDeleting(h: Snapshot, h': Snapshot, root: Value, locs: seq<Location>, name: string, k: nat)
    requires k < |locs| && AllCompounds(h, root, locs, k) && !AllCompounds(h, root, locs, k + 1)
    requires Placed(h, h', root, Doomed(h, root, locs, name, |locs|), Deletions(|Doomed(h, root, locs, name, k)|))
    ensures StoppedDeleting(h, h', root, locs, name)
  {
  }

  /** Delete the member of every selected compound that has it. */
  method DeleteMembers(anchors: seq<Anchor>, name: string, ghost h: Snapshot, ghost root: Value,
                       ghost locs: seq<Location>)
    returns (r: Result<nat, PathError>, ghost h': Snapshot)
    requires Current(h) && Setting(h, root, locs) && anchors == AnchorsFor(h, root, locs) && AllNamed(locs)
    modifies h.comps.Keys, h.lists.Keys
    ensures Current(h')
    ensures r.Ok? <==> AllCompounds(h, root, locs, |locs|)
    ensures r.Ok? ==> var doomed := Doomed(h, root, locs, name, |locs|);
                      r.value == |doomed| && Placed(h, h', root, doomed, Deletions(|doomed|))
    ensures r.Err? ==> StoppedDeleting(h, h', root, locs, name)
  {
    hide ValueAt, Closed, Progress, Setting, AnchorFor, Placed, Named, Current, Known, Doomed, AnchorValue, ChildAt;
    hide Write, CanWrite, OthersKept, AllSound, Writable, StoppedDeleting;
    h' := h;
    ghost var all := Doomed(h, root, locs, name, |locs|);
    DoomedSetting(h, root, locs, name);
    Start(h, root, all);
    DoomedNext(h, root, locs, name, 0);
    assert Deletions(0) == [];
    var affected := 0;
    for k := 0 to |anchors|
      invariant Current(h') && h'.comps.Keys == h.comps.Keys && h'.lists.Keys == h.lists.Keys
      invariant affected == |Doomed(h, root, locs, name, k)| && Progress(h, h', root, all, Deletions(affected))
      invariant AllCompounds(h, root, locs, k)
    {
      ghost var loc := locs[k];
      assert Named(loc) by { assert loc in locs; }
      NextCompound(h, h', root, locs, name, k, Deletions(affected));
      OpenProgress(h, h', root, all, Deletions(affected));
      AnchorsKnown(h, h', root, locs, all, k);
      var read := ReadAnchor(anchors[k], h');
      var y := read.value;
      if !y.CompoundRef? {
        ShowStoppedDeleting(h, h', root, locs, name, k);
        return Err(NotACompound), h';
      }
      DoomedNext(h, root, locs, name, k);
      MemberThere(h', y.c, name);
      if name in y.c.members {
        DoomedAt(h, root, locs, name, k);
        ghost var before := h';
        h' := DeleteMember(y.c, name, h');
        OneMore(h, before, root, all, Deletions(affected), None);
        assert Deletions(affected) + [None] == Deletions(affected + 1);
        affected := affected + 1;
      }
    }
    OpenProgress(h, h', root, all, Deletions(affected));
    return Ok(affected), h';
  }

  lemma DoomedNext(h: Snapshot, root: Value, locs: seq<Location>, name: string, k: nat)
    ensures Doomed(h, root, locs, name, 0) == []
    ensures k < |locs| ==>
              var more := if ValueAt(h, root, locs[k] + [Member(name)]).Some? then [locs[k] + [Member(name)]] else [];
              Doomed(h, root, locs, name, k + 1) == Doomed(h, root, locs, name, k) + more
  {
    hide ValueAt;
  }

  /** The next member to go is the next one of the whole list. */
  lemma DoomedAt(h: Snapshot, root: Value, locs: seq<Location>, name: string, k: nat)
    requires Setting(h, root, locs) && k < |locs| && ValueAt(h, root, locs[k] + [Member(name)]).Some?
    requires ValueAt(h, root, locs[k]).Some? && ValueAt(h, root, locs[k]).value.CompoundRef?
    ensures var all, n := Doomed(h, root, locs, name, |locs|), |Doomed(h, root, locs, name, k)|;
            n < |all| && all[n] == locs[k] + [Member(name)] && Front(all[n]) == locs[k] && Last(all[n]) == Member(name)
            && Writable(h, root, all[n])
  {
    hide ValueAt, Doomed, Setting;
    DoomedNext(h, root, locs, name, k);
    DoomedPrefix(h, root, locs, name, k + 1, |locs|);
    assert Front(locs[k] + [Member(name)]) == locs[k];
  }

  lemma MemberThere(h: Snapshot, c: CompoundObj, name: string)
    requires Current(h) && Known(h, CompoundRef(c))
    ensures c in h.comps && c.members == h.comps[c] && CanWrite(h, CompoundRef(c), Member(name))
    ensures ChildAt(h, CompoundRef(c), Member(name)).Some? <==> name in c.members
  {
  }

  lemma AnchorsKnown(h0: Snapshot, h: Snapshot, root: Value, locs: seq<Location>, others: seq<Location>, k: nat)
    requires Setting(h0, root, locs) && OthersKept(h0, h, root, others) && k < |locs|
    ensures Known(h, AnchorFor(h0, root, locs[k]).parent)
    ensures ValueAt(h0, root, locs[k]).Some? && Known(h, ValueAt(h0, root, locs[k]).value)
  {
    hide ValueAt, OthersKept, AnchorFor, Unshared, Apart, Closed;
    AnchorParentKnown(h0, root, locs[k]);
    ReachedIsKnown(h0, root, locs[k]);
    KeptKnown(h0, h, root, others, AnchorFor(h0, root, locs[k]).parent);
    KeptKnown(h0, h, root, others, ValueAt(h0, root, locs[k]).value);
  }

  /** What the last step of a path removes below the locations of the rest. */
  ghost predicate Removed(h: Snapshot, h': Snapshot, root: Value, locs: seq<Location>, last: PathStep, n: nat,
                          ws: seq<Written>) {
    match last
    case MemberStep(name) =>
      var doomed := Doomed(h, root, locs, name, |locs|);
      n == |doomed| && Placed(h, h', root, doomed, Deletions(|doomed|))
    case SelfMatch(_) => n == 0 && h' == h
    case _ =>
      var e := RemovalOf(last);
      AllEditable(h, root, locs, e) && n == TotalAffected(h, root, locs, e, |locs|) &&
        ListsEdited(h, h', root, locs, e, ws)
  }

  function RemovalOf(last: PathStep): Edit
    requires !last.MemberStep? && !last.SelfMatch?
  {
    match last
    case IndexStep(i) => RemoveIndex(i)
    case AllStep => RemoveAll
    case MatchAll(filter) => RemoveMatching(filter)
  }

  /** When everything below the locations can be removed. A member that is not there need not be. */
  ghost predicate Removable(h: Snapshot, root: Value, locs: seq<Location>, last: PathStep) {
    match last
    case MemberStep(_) => AllCompounds(h, root, locs, |locs|)
    case SelfMatch(_) => locs == []
    case _ => AllEditable(h, root, locs, RemovalOf(last))
  }

  ghost predicate StoppedRemoving(h: Snapshot, h': Snapshot, root: Value, locs: seq<Location>, last: PathStep,
                                  ws: seq<Written>) {
    match last
    case MemberStep(name) => StoppedDeleting(h, h', root, locs, name)
    case SelfMatch(_) => h' == h
    case _ => StoppedEditing(h, h', root, locs, RemovalOf(last), ws)
  }

  /**
     Remove what a path selects: members are deleted, list elements go by putting a
     shorter list in place. The root and matched compounds themselves cannot go.
   */
  method Remove(root: Value, steps: seq<PathStep>, ghost h: Snapshot)
    returns (r: Result<nat, PathError>, ghost h': Snapshot, ghost ws: seq<Written>)
    requires Current(h) && Known(h, root) && Unshared(h, root)
    requires forall i | 0 <= i < |steps| :: NamedStep(steps[i])
    modifies h.comps.Keys, h.lists.Keys
    ensures Current(h')
    ensures steps == [] ==> r == Err(SelectsRoot) && h' == h
    ensures steps != [] ==>
              var locs := Resolved(h, root, steps[..|steps| - 1]);
              if locs.Err? then r == Err(locs.error) && h' == h
              else
                && (r.Ok? <==> Removable(h, root, locs.value, steps[|steps| - 1]))
                && (r.Ok? ==> Removed(h, h', root, locs.value, steps[|steps| - 1], r.value, ws))
                && (r.Err? ==> StoppedRemoving(h, h', root, locs.value, steps[|steps| - 1], ws))
  {
    hide ValueAt, Closed, Unshared, Setting, AllEditable, AnchorFor, Resolved, Current, ListsEdited, Known;
    hide TotalAffected, AllCompounds, Doomed, Placed, StoppedEditing, StoppedDeleting;
    h', ws := h, [];
    if |steps| == 0 { return Err(SelectsRoot), h, []; }
    var last, above := steps[|steps| - 1], steps[..|steps| - 1];
    var parents := Resolve(root, above, h);
    if parents.Err? { return Err(parents.error), h, []; }
    ghost var locs := Resolved(h, root, above).value;
    CurrentIsClosed(h);
    ResolvedSetting(h, root, above);
    if last.MemberStep? {
      r, h' := DeleteMembers(parents.value, last.name, h, root, locs);
    } else if last.SelfMatch? {
      if |parents.value| > 0 { return Err(SelectsRoot), h, []; }
      return Ok(0), h, [];
    } else {
      r, h', ws := EditAnchors(parents.value, RemovalOf(last), h, root, locs);
    }
  }
}
