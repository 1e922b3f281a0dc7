/** Merging one compound into another, in place. */
module NbtMerging {
  import opened Wrappers
  import opened NbtTrees
  import opened NbtObjects

  /** The compounds a value is made of. */
  ghost function CompoundsIn(h: Snapshot, v: Value, t: Tree): set<CompoundObj>
    requires Holds(h, v, t)
    decreases t
  {
    match t
    case Comp(ms) => {v.c} + set k, c | k in ms && c in CompoundsIn(h, h.comps[v.c][k], ms[k]) :: c
    case List(ts) => set i, c | 0 <= i < |ts| && c in CompoundsIn(h, h.lists[v.l][i], ts[i]) :: c
    case _ => {}
  }

  ghost function Below(h: Snapshot, c: CompoundObj, t: Tree, k: string): set<CompoundObj>
    requires Holds(h, CompoundRef(c), t)
  {
    if t.Comp? && k in t.members then CompoundsIn(h, h.comps[c][k], t.members[k]) else {}
  }

  /** No compound lies at two places. */
  ghost predicate Separate(h: Snapshot, v: Value, t: Tree)
    requires Holds(h, v, t)
    decreases t
  {
    match t
    case Comp(ms) =>
      && (forall k | k in ms :: v.c !in Below(h, v.c, t, k) && Separate(h, h.comps[v.c][k], ms[k]))
      && (forall j, k | j in ms && k in ms && j != k :: Below(h, v.c, t, j) !! Below(h, v.c, t, k))
    case List(ts) =>
      && (forall i | 0 <= i < |ts| :: Separate(h, h.lists[v.l][i], ts[i]))
      && (forall i, j | 0 <= i < j < |ts| ::
            CompoundsIn(h, h.lists[v.l][i], ts[i]) !! CompoundsIn(h, h.lists[v.l][j], ts[j]))
    case _ => true
  }

  /** The compounds of the set, and all lists, are as they were. */
  ghost predicate Untouched(h: Snapshot, h': Snapshot, cs: set<CompoundObj>) {
    && h'.lists == h.lists
    && forall c | c in cs && c in h.comps :: c in h'.comps && h'.comps[c] == h.comps[c]
  }

  /** A value whose compounds are untouched is what it was. */
  lemma {:induction false} HoldsStill(h: Snapshot, h': Snapshot, v: Value, t: Tree)
    requires Holds(h, v, t) && Untouched(h, h', CompoundsIn(h, v, t))
    ensures Holds(h', v, t) && CompoundsIn(h', v, t) == CompoundsIn(h, v, t)
    ensures Separate(h, v, t) ==> Separate(h', v, t)
    decreases t
  {
    match t
    case Comp(ms) =>
      forall k | k in ms
        ensures Holds(h', h'.comps[v.c][k], ms[k]) &&
                CompoundsIn(h', h'.comps[v.c][k], ms[k]) == CompoundsIn(h, h.comps[v.c][k], ms[k])
        ensures Separate(h, h.comps[v.c][k], ms[k]) ==> Separate(h', h'.comps[v.c][k], ms[k])
      {
        HoldsStill(h, h', h.comps[v.c][k], ms[k]);
      }
    case List(ts) =>
      forall i | 0 <= i < |ts|
        ensures Holds(h', h'.lists[v.l][i], ts[i]) &&
                CompoundsIn(h', h'.lists[v.l][i], ts[i]) == CompoundsIn(h, h.lists[v.l][i], ts[i])
        ensures Separate(h, h.lists[v.l][i], ts[i]) ==> Separate(h', h'.lists[v.l][i], ts[i])
      {
        HoldsStill(h, h', h.lists[v.l][i], ts[i]);
      }
    case _ =>
  }

  // ----- merging member by member

  /** What a member is once the source members `done` have been merged. */
  function MemberOf(td: Tree, ts: Tree, done: set<string>, k: string): Tree
    requires td.Comp? && ts.Comp? && (k in td.members || k in done) && done <= ts.members.Keys
  {
    if k !in done then td.members[k]
    else if ts.members[k].Comp? && k in td.members && td.members[k].Comp? then Merge(td.members[k], ts.members[k])
    else ts.members[k]
  }

  /** Two trees in memory with no compound in common, the first without sharing. */
  ghost predicate Mergeable(h: Snapshot, dst: CompoundObj, src: CompoundObj, td: Tree, ts: Tree) {
    && Holds(h, CompoundRef(dst), td) && Holds(h, CompoundRef(src), ts)
    && Separate(h, CompoundRef(dst), td)
    && CompoundsIn(h, CompoundRef(dst), td) !! CompoundsIn(h, CompoundRef(src), ts)
  }

  ghost predicate MemberMerged(h0: Snapshot, h: Snapshot, dst: CompoundObj, src: CompoundObj, td: Tree, ts: Tree,
                               done: set<string>, k: string)
    requires Holds(h0, CompoundRef(dst), td) && Holds(h0, CompoundRef(src), ts) && done <= ts.members.Keys
    requires k in td.members || k in done
  {
    && dst in h.comps && k in h.comps[dst]
    && Holds(h, h.comps[dst][k], MemberOf(td, ts, done, k))
    && CompoundsIn(h, h.comps[dst][k], MemberOf(td, ts, done, k)) <= Below(h0, dst, td, k) + Below(h0, src, ts, k)
    && (k !in done ==> h.comps[dst][k] == h0.comps[dst][k] && Untouched(h0, h, Below(h0, dst, td, k)))
  }

  /** Only compounds of the destination have changed. */
  ghost predicate OnlyWithin(h0: Snapshot, h: Snapshot, cs: set<CompoundObj>) {
    && h.lists == h0.lists && h.comps.Keys == h0.comps.Keys
    && forall c | c in h0.comps && c !in cs :: h.comps[c] == h0.comps[c]
  }

  ghost predicate PartlyMerged(h0: Snapshot, h: Snapshot, dst: CompoundObj, src: CompoundObj, td: Tree, ts: Tree,
                               done: set<string>)
    requires Holds(h0, CompoundRef(dst), td) && Holds(h0, CompoundRef(src), ts) && done <= ts.members.Keys
  {
    && dst in h.comps && h.comps[dst].Keys == td.members.Keys + done
    && (forall k | k in td.members || k in done :: MemberMerged(h0, h, dst, src, td, ts, done, k))
    && OnlyWithin(h0, h, CompoundsIn(h0, CompoundRef(dst), td))
  }

  lemma NothingMerged(h: Snapshot, dst: CompoundObj, src: CompoundObj, td: Tree, ts: Tree)
    requires Mergeable(h, dst, src, td, ts)
    ensures PartlyMerged(h, h, dst, src, td, ts, {})
  {
  }

  lemma AllMerged(h0: Snapshot, h: Snapshot, dst: CompoundObj, src: CompoundObj, td: Tree, ts: Tree)
    requires Mergeable(h0, dst, src, td, ts) && PartlyMerged(h0, h, dst, src, td, ts, ts.members.Keys)
    ensures Holds(h, CompoundRef(dst), Merge(td, ts))
    ensures CompoundsIn(h, CompoundRef(dst), Merge(td, ts))
            <= CompoundsIn(h0, CompoundRef(dst), td) + CompoundsIn(h0, CompoundRef(src), ts)
  {
    hide Separate, MemberMerged, Untouched;
    var m := Merge(td, ts);
    forall k | k in m.members
      ensures Holds(h, h.comps[dst][k], m.members[k])
      ensures CompoundsIn(h, h.comps[dst][k], m.members[k]) <= Below(h0, dst, td, k) + Below(h0, src, ts, k)
    {
      OpenMember(h0, h, dst, src, td, ts, ts.members.Keys, k);
    }
  }

  lemma OpenMember(h0: Snapshot, h: Snapshot, dst: CompoundObj, src: CompoundObj, td: Tree, ts: Tree,
                   done: set<string>, k: string)
    requires Holds(h0, CompoundRef(dst), td) && Holds(h0, CompoundRef(src), ts) && done <= ts.members.Keys
    requires (k in td.members || k in done) && MemberMerged(h0, h, dst, src, td, ts, done, k)
    ensures dst in h.comps && k in h.comps[dst] && Holds(h, h.comps[dst][k], MemberOf(td, ts, done, k))
    ensures CompoundsIn(h, h.comps[dst][k], MemberOf(td, ts, done, k)) <= Below(h0, dst, td, k) + Below(h0, src, ts, k)
    ensures k !in done ==> h.comps[dst][k] == h0.comps[dst][k] && Untouched(h0, h, Below(h0, dst, td, k))
  {
  }

  /** What lies below different members, or below the source, has nothing in common. */
  lemma Disjoint(h: Snapshot, dst: CompoundObj, src: CompoundObj, td: Tree, ts: Tree, j: string, k: string)
    requires Mergeable(h, dst, src, td, ts)
    ensures dst !in Below(h, dst, td, j) && dst !in Below(h, src, ts, j)
    ensures j != k ==> Below(h, dst, td, j) !! Below(h, dst, td, k)
    ensures Below(h, src, ts, j) !! Below(h, dst, td, k)
    ensures Below(h, dst, td, k) <= CompoundsIn(h, CompoundRef(dst), td) &&
            Below(h, src, ts, j) <= CompoundsIn(h, CompoundRef(src), ts)
    ensures dst in CompoundsIn(h, CompoundRef(dst), td)
  {
    hide Separate;
    PartOf(h, dst, td, k);
    PartOf(h, src, ts, j);
    PartsApart(h, dst, td, j, k);
  }

  lemma PartOf(h: Snapshot, c: CompoundObj, t: Tree, k: string)
    requires Holds(h, CompoundRef(c), t)
    ensures Below(h, c, t, k) <= CompoundsIn(h, CompoundRef(c), t) && c in CompoundsIn(h, CompoundRef(c), t)
  {
  }

  lemma PartsApart(h: Snapshot, c: CompoundObj, t: Tree, j: string, k: string)
    requires Holds(h, CompoundRef(c), t) && Separate(h, CompoundRef(c), t)
    ensures c !in Below(h, c, t, j) && (j != k ==> Below(h, c, t, j) !! Below(h, c, t, k))
    ensures k in t.members ==> Separate(h, h.comps[c][k], t.members[k])
  {
  }

  /** Another member is not affected by what happens below this one, or to this entry. */
  lemma OtherMember(h0: Snapshot, h: Snapshot, h': Snapshot, dst: CompoundObj, src: CompoundObj, td: Tree, ts: Tree,
                    done: set<string>, k: string, j: string)
    requires Mergeable(h0, dst, src, td, ts) && done <= ts.members.Keys && k in ts.members && j != k
    requires (j in td.members || j in done) && MemberMerged(h0, h, dst, src, td, ts, done, j)
    requires OnlyWithin(h, h', Below(h0, dst, td, k) + {dst}) && j in h'.comps[dst] &&
             h'.comps[dst][j] == h.comps[dst][j]
    ensures MemberMerged(h0, h', dst, src, td, ts, done + {k}, j)
  {
    hide Separate, CompoundsIn, Below;
    Disjoint(h0, dst, src, td, ts, j, k);
    var t := MemberOf(td, ts, done, j);
    assert t == MemberOf(td, ts, done + {k}, j);
    HoldsStill(h, h', h.comps[dst][j], t);
  }

  lemma StepMerged(h0: Snapshot, h: Snapshot, h': Snapshot, dst: CompoundObj, src: CompoundObj, td: Tree, ts: Tree,
                   done: set<string>, k: string)
    requires Mergeable(h0, dst, src, td, ts) && done <= ts.members.Keys && k in ts.members && k !in done
    requires PartlyMerged(h0, h, dst, src, td, ts, done)
    requires OnlyWithin(h, h', Below(h0, dst, td, k) + {dst})
    requires h'.comps[dst].Keys == h.comps[dst].Keys + {k} &&
             forall j | j in h.comps[dst] && j != k :: h'.comps[dst][j] == h.comps[dst][j]
    requires MemberMerged(h0, h', dst, src, td, ts, done + {k}, k)
    ensures PartlyMerged(h0, h', dst, src, td, ts, done + {k})
  {
    hide Separate, CompoundsIn, Below, MemberMerged;
    Disjoint(h0, dst, src, td, ts, k, k);
    forall j | j in td.members || j in done + {k}
      ensures MemberMerged(h0, h', dst, src, td, ts, done + {k}, j)
    {
      if j != k { OtherMember(h0, h, h', dst, src, td, ts, done, k, j); }
    }
  }

  /** The member one step is about: merged further down, or replaced. */
  lemma MergedBelow(h0: Snapshot, h: Snapshot, h': Snapshot, dst: CompoundObj, src: CompoundObj, td: Tree, ts: Tree,
                    done: set<string>, k: string)
    requires Mergeable(h0, dst, src, td, ts) && done <= ts.members.Keys && k in ts.members && k !in done
    requires k in td.members && td.members[k].Comp? && ts.members[k].Comp?
    requires MemberMerged(h0, h, dst, src, td, ts, done, k) && dst in h'.comps && k in h'.comps[dst] &&
             h'.comps[dst][k] == h.comps[dst][k]
    requires Holds(h', h'.comps[dst][k], Merge(td.members[k], ts.members[k]))
    requires CompoundsIn(h', h'.comps[dst][k], Merge(td.members[k], ts.members[k]))
             <= Below(h0, dst, td, k) + Below(h0, src, ts, k)
    ensures MemberMerged(h0, h', dst, src, td, ts, done + {k}, k)
  {
    hide Separate, Holds, CompoundsIn;
  }

  lemma Replaced(h0: Snapshot, h: Snapshot, h': Snapshot, dst: CompoundObj, src: CompoundObj, td: Tree, ts: Tree,
                 done: set<string>, k: string)
    requires Mergeable(h0, dst, src, td, ts) && done <= ts.members.Keys && k in ts.members && k !in done
    requires !(k in td.members && td.members[k].Comp? && ts.members[k].Comp?)
    requires OnlyWithin(h0, h, CompoundsIn(h0, CompoundRef(dst), td)) && OnlyWithin(h, h', {dst})
    requires dst in h'.comps && k in h'.comps[dst] && h'.comps[dst][k] == h0.comps[src][k]
    ensures MemberMerged(h0, h', dst, src, td, ts, done + {k}, k)
  {
    SourceMember(h0, src, ts, k);
    assert td.Comp? && ts.Comp?;
    hide Separate, Holds;
    Disjoint(h0, dst, src, td, ts, k, k);
    HoldsStill(h0, h', h0.comps[src][k], ts.members[k]);
  }

  lemma SourceMember(h: Snapshot, c: CompoundObj, t: Tree, k: string)
    requires Holds(h, CompoundRef(c), t) && k in t.members
    ensures c in h.comps && k in h.comps[c] && Holds(h, h.comps[c][k], t.members[k])
    ensures Below(h, c, t, k) == CompoundsIn(h, h.comps[c][k], t.members[k])
    ensures t.members[k].Comp? <==> h.comps[c][k].CompoundRef?
  {
  }

  /** The two compounds of a common member can be merged in turn. */
  lemma MembersMergeable(h0: Snapshot, h: Snapshot, dst: CompoundObj, src: CompoundObj, td: Tree, ts: Tree,
                         done: set<string>, k: string)
    requires Mergeable(h0, dst, src, td, ts) && done <= ts.members.Keys && k in ts.members && k !in done
    requires k in td.members && td.members[k].Comp? && ts.members[k].Comp?
    requires MemberMerged(h0, h, dst, src, td, ts, done, k) && OnlyWithin(h0, h, CompoundsIn(h0, CompoundRef(dst), td))
    ensures h.comps[dst][k].CompoundRef? && h0.comps[src][k].CompoundRef?
    ensures Mergeable(h, h.comps[dst][k].c, h0.comps[src][k].c, td.members[k], ts.members[k])
    ensures CompoundsIn(h, h.comps[dst][k], td.members[k]) == Below(h0, dst, td, k)
    ensures CompoundsIn(h, h0.comps[src][k], ts.members[k]) == Below(h0, src, ts, k)
  {
    SourceMember(h0, dst, td, k);
    SourceMember(h0, src, ts, k);
    PartsApart(h0, dst, td, k, k);
    Disjoint(h0, dst, src, td, ts, k, k);
    hide Separate, Holds, CompoundsIn, Below;
    HoldsStill(h0, h, h0.comps[dst][k], td.members[k]);
    HoldsStill(h0, h, h0.comps[src][k], ts.members[k]);
  }

  lemma SourceStays(h0: Snapshot, h: Snapshot, dst: CompoundObj, src: CompoundObj, td: Tree, ts: Tree)
    requires Mergeable(h0, dst, src, td, ts) && OnlyWithin(h0, h, CompoundsIn(h0, CompoundRef(dst), td))
    ensures src in h.comps && h.comps[src] == h0.comps[src] && h0.comps[src].Keys == ts.members.Keys
  {
    hide Separate;
    PartOf(h0, src, ts, "");
  }

  /**
     Merge `src` into `dst` in place, compound into compound and anything else replacing.
     The destination ends up holding the merge of the two trees, and no compound outside
     it changes.
   */
  method MergeCompound(dst: CompoundObj, src: CompoundObj, ghost td: Tree, ghost ts: Tree,
                       ghost h: Snapshot) returns (ghost h': Snapshot)
    requires Current(h) && Mergeable(h, dst, src, td, ts)
    modifies CompoundsIn(h, CompoundRef(dst), td)
    ensures Current(h') && OnlyWithin(h, h', CompoundsIn(h, CompoundRef(dst), td))
    ensures Holds(h', CompoundRef(dst), Merge(td, ts))
    ensures CompoundsIn(h', CompoundRef(dst), Merge(td, ts))
            <= CompoundsIn(h, CompoundRef(dst), td) + CompoundsIn(h, CompoundRef(src), ts)
    decreases ts, 2
  {
    assert td.Comp? && ts.Comp?;
    hide Separate, Mergeable, Holds, CompoundsIn, Below, MemberMerged, PartlyMerged, Current, OnlyWithin, Merge;
    h' := h;
    NothingMerged(h, dst, src, td, ts);
    ghost var done: set<string> := {};
    var todo := src.members.Keys;
    SourceNow(h, h, dst, src, td, ts);
    while todo != {}
      invariant Current(h') && done <= ts.members.Keys && todo == ts.members.Keys - done
      invariant PartlyMerged(h, h', dst, src, td, ts, done)
      invariant src.members == old(src.members)
      decreases todo
    {
      var k :| k in todo;
      todo := todo - {k};
      OnlyIn(h, h', dst, src, td, ts, done);
      SourceNow(h, h', dst, src, td, ts);
      h' := MergeMember(dst, src, k, td, ts, done, h, h');
      done := done + {k};
    }
    assert done == ts.members.Keys;
    OnlyIn(h, h', dst, src, td, ts, done);
    AllMerged(h, h', dst, src, td, ts);
  }

  lemma OnlyIn(h0: Snapshot, h: Snapshot, dst: CompoundObj, src: CompoundObj, td: Tree, ts: Tree, done: set<string>)
    requires Holds(h0, CompoundRef(dst), td) && Holds(h0, CompoundRef(src), ts) && done <= ts.members.Keys
    requires PartlyMerged(h0, h, dst, src, td, ts, done)
    ensures OnlyWithin(h0, h, CompoundsIn(h0, CompoundRef(dst), td))
  {
  }

  lemma SourceNow(h0: Snapshot, h: Snapshot, dst: CompoundObj, src: CompoundObj, td: Tree, ts: Tree)
    requires Current(h) && Mergeable(h0, dst, src, td, ts) && OnlyWithin(h0, h, CompoundsIn(h0, CompoundRef(dst), td))
    ensures src in h.comps && src.members == h.comps[src] == h0.comps[src] && src.members.Keys == ts.members.Keys
  {
    SourceStays(h0, h, dst, src, td, ts);
  }

  /** What the loop sees of the two entries is what the trees say. */
  lemma EntriesNow(h0: Snapshot, h: Snapshot, dst: CompoundObj, src: CompoundObj, td: Tree, ts: Tree,
                   done: set<string>, k: string)
    requires Current(h) && Mergeable(h0, dst, src, td, ts) && done <= ts.members.Keys && k in ts.members && k !in done
    requires PartlyMerged(h0, h, dst, src, td, ts, done)
    ensures dst in h.comps && dst.members == h.comps[dst] && k in h0.comps[src]
    ensures h0.comps[src][k].CompoundRef? <==> ts.members[k].Comp?
    ensures k in dst.members <==> k in td.members
    ensures k in td.members ==> MemberMerged(h0, h, dst, src, td, ts, done, k)
    ensures k in td.members ==>
            dst.members[k] == h0.comps[dst][k] && (dst.members[k].CompoundRef? <==> td.members[k].Comp?)
  {
    hide Separate, CompoundsIn, Below, OnlyWithin;
    SourceMember(h0, src, ts, k);
    if k in td.members { SourceMember(h0, dst, td, k); }
  }

  lemma Narrower(h: Snapshot, h': Snapshot, small: set<CompoundObj>, large: set<CompoundObj>)
    requires OnlyWithin(h, h', small) && small <= large
    ensures OnlyWithin(h, h', large)
  {
  }

  method PutEntry(dst: CompoundObj, k: string, sv: Value, ghost h: Snapshot) returns (ghost h': Snapshot)
    requires Current(h) && dst in h.comps && Known(h, sv)
    modifies dst
    ensures Current(h') && OnlyWithin(h, h', {dst}) && dst in h'.comps && h'.comps[dst] == h.comps[dst][k := sv]
  {
    dst.members := dst.members[k := sv];
    h' := h.(comps := h.comps[dst := h.comps[dst][k := sv]]);
  }

  method MergeMember(dst: CompoundObj, src: CompoundObj, k: string, ghost td: Tree, ghost ts: Tree,
                     ghost done: set<string>,
                     ghost h0: Snapshot, ghost h: Snapshot)
    returns (ghost h': Snapshot)
    requires Current(h) && Mergeable(h0, dst, src, td, ts) && done <= ts.members.Keys && k in ts.members && k !in done
    requires PartlyMerged(h0, h, dst, src, td, ts, done)
    requires src in h.comps && src.members == h.comps[src] == h0.comps[src] && k in src.members
    modifies CompoundsIn(h0, CompoundRef(dst), td)
    ensures Current(h') && PartlyMerged(h0, h', dst, src, td, ts, done + {k})
    decreases ts, 1
  {
    assert td.Comp? && ts.Comp?;
    hide Separate, Mergeable, Holds, CompoundsIn, Below, MemberMerged, PartlyMerged, Current, OnlyWithin;
    OnlyIn(h0, h, dst, src, td, ts, done);
    EntriesNow(h0, h, dst, src, td, ts, done, k);
    Disjoint(h0, dst, src, td, ts, k, k);
    var sv := src.members[k];
    if sv.CompoundRef? && k in dst.members && dst.members[k].CompoundRef? {
      h' := MergeBelow(dst, src, k, td, ts, done, h0, h);
    } else {
      h' := ReplaceEntry(dst, src, k, td, ts, done, h0, h);
    }
  }

  /** Part of the way through the members, with `k` next. */
  ghost predicate Stage(h0: Snapshot, h: Snapshot, dst: CompoundObj, src: CompoundObj, td: Tree, ts: Tree,
                        done: set<string>, k: string) {
    && Mergeable(h0, dst, src, td, ts) && done <= ts.members.Keys && k in ts.members && k !in done
    && PartlyMerged(h0, h, dst, src, td, ts, done)
    && src in h.comps && h.comps[src] == h0.comps[src] && k in h.comps[src] && dst in h.comps
  }

  ghost predicate NextStage(h0: Snapshot, h: Snapshot, dst: CompoundObj, src: CompoundObj, td: Tree, ts: Tree,
                            done: set<string>, k: string) {
    Mergeable(h0, dst, src, td, ts) && done + {k} <= ts.members.Keys &&
      PartlyMerged(h0, h, dst, src, td, ts, done + {k})
  }

  ghost predicate BothCompounds(td: Tree, ts: Tree, k: string) {
    td.Comp? && ts.Comp? && k in td.members && k in ts.members && td.members[k].Comp? && ts.members[k].Comp?
  }

  lemma ReplacedStep(h0: Snapshot, h: Snapshot, h': Snapshot, dst: CompoundObj, src: CompoundObj, td: Tree, ts: Tree,
                     done: set<string>, k: string)
    requires Stage(h0, h, dst, src, td, ts, done, k) && !BothCompounds(td, ts, k)
    requires OnlyWithin(h, h', {dst}) && dst in h'.comps && h'.comps[dst] == h.comps[dst][k := h.comps[src][k]]
    ensures NextStage(h0, h', dst, src, td, ts, done, k)
  {
    assert td.Comp? && ts.Comp?;
    hide Separate, Holds, CompoundsIn, Below, MemberMerged, PartlyMerged, OnlyWithin, Merge;
    OnlyIn(h0, h, dst, src, td, ts, done);
    Narrower(h, h', {dst}, Below(h0, dst, td, k) + {dst});
    Replaced(h0, h, h', dst, src, td, ts, done, k);
    StepMerged(h0, h, h', dst, src, td, ts, done, k);
  }

  lemma BelowStep(h0: Snapshot, h: Snapshot, h': Snapshot, dst: CompoundObj, src: CompoundObj, td: Tree, ts: Tree,
                  done: set<string>, k: string)
    requires Stage(h0, h, dst, src, td, ts, done, k) && BothCompounds(td, ts, k)
    requires MemberMerged(h0, h, dst, src, td, ts, done, k)
    requires OnlyWithin(h, h', Below(h0, dst, td, k))
    requires Holds(h', h.comps[dst][k], Merge(td.members[k], ts.members[k]))
    requires CompoundsIn(h', h.comps[dst][k], Merge(td.members[k], ts.members[k]))
             <= Below(h0, dst, td, k) + Below(h0, src, ts, k)
    ensures NextStage(h0, h', dst, src, td, ts, done, k)
  {
    hide Separate, Holds, CompoundsIn, Below, MemberMerged, PartlyMerged, OnlyWithin, Merge;
    Disjoint(h0, dst, src, td, ts, k, k);
    OpenMember(h0, h, dst, src, td, ts, done, k);
    Unchanged(h, h', Below(h0, dst, td, k), dst);
    Narrower(h, h', Below(h0, dst, td, k), Below(h0, dst, td, k) + {dst});
    MergedBelow(h0, h, h', dst, src, td, ts, done, k);
    StepMerged(h0, h, h', dst, src, td, ts, done, k);
  }

  lemma ReadyBelow(h0: Snapshot, h: Snapshot, dst: CompoundObj, src: CompoundObj, td: Tree, ts: Tree,
                   done: set<string>, k: string)
    requires Stage(h0, h, dst, src, td, ts, done, k) && BothCompounds(td, ts, k) &&
             MemberMerged(h0, h, dst, src, td, ts, done, k)
    ensures k in h.comps[dst] && h.comps[dst][k].CompoundRef? && h.comps[src][k].CompoundRef?
    ensures Mergeable(h, h.comps[dst][k].c, h.comps[src][k].c, td.members[k], ts.members[k])
    ensures CompoundsIn(h, h.comps[dst][k], td.members[k]) == Below(h0, dst, td, k)
            <= CompoundsIn(h0, CompoundRef(dst), td)
    ensures CompoundsIn(h, h.comps[src][k], ts.members[k]) == Below(h0, src, ts, k)
  {
    hide Separate, Holds, CompoundsIn, Below, MemberMerged, PartlyMerged, OnlyWithin, Merge;
    OnlyIn(h0, h, dst, src, td, ts, done);
    Disjoint(h0, dst, src, td, ts, k, k);
    OpenMember(h0, h, dst, src, td, ts, done, k);
    MembersMergeable(h0, h, dst, src, td, ts, done, k);
  }

  method MergeBelow(dst: CompoundObj, src: CompoundObj, k: string, ghost td: Tree, ghost ts: Tree,
                    ghost done: set<string>,
                    ghost h0: Snapshot, ghost h: Snapshot)
    returns (ghost h': Snapshot)
    requires Current(h) && Stage(h0, h, dst, src, td, ts, done, k) && BothCompounds(td, ts, k)
    requires MemberMerged(h0, h, dst, src, td, ts, done, k)
    requires src.members == h.comps[src] && dst.members == h.comps[dst] && k in dst.members &&
             dst.members[k].CompoundRef? && src.members[k].CompoundRef?
    modifies CompoundsIn(h0, CompoundRef(dst), td)
    ensures Current(h') && NextStage(h0, h', dst, src, td, ts, done, k)
    decreases ts, 0
  {
    assert k in src.members;
    hide Separate, Mergeable, Holds, CompoundsIn, Below, MemberMerged, PartlyMerged, Current, OnlyWithin, Merge, Stage;
    hide NextStage;
    ReadyBelow(h0, h, dst, src, td, ts, done, k);
    h' := MergeCompound(dst.members[k].c, src.members[k].c, td.members[k], ts.members[k], h);
    BelowStep(h0, h, h', dst, src, td, ts, done, k);
  }

  method ReplaceEntry(dst: CompoundObj, src: CompoundObj, k: string, ghost td: Tree, ghost ts: Tree,
                      ghost done: set<string>,
                      ghost h0: Snapshot, ghost h: Snapshot)
    returns (ghost h': Snapshot)
    requires Current(h) && Stage(h0, h, dst, src, td, ts, done, k) && !BothCompounds(td, ts, k)
    requires src.members == h.comps[src] && k in src.members
    modifies dst
    ensures Current(h') && NextStage(h0, h', dst, src, td, ts, done, k)
  {
    EntryKnown(h, src, k);
    hide Current, OnlyWithin, Stage, NextStage, BothCompounds;
    h' := PutEntry(dst, k, src.members[k], h);
    ReplacedStep(h0, h, h', dst, src, td, ts, done, k);
  }

  lemma Unchanged(h: Snapshot, h': Snapshot, cs: set<CompoundObj>, c: CompoundObj)
    requires OnlyWithin(h, h', cs) && c in h.comps && c !in cs
    ensures c in h'.comps && h'.comps[c] == h.comps[c]
  {
  }

  lemma EntryKnown(h: Snapshot, c: CompoundObj, k: string)
    requires Current(h) && c in h.comps && k in h.comps[c]
    ensures Known(h, h.comps[c][k])
  {
  }
}
