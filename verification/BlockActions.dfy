/**
 Applying what a block's placement or breaking asks for: block writes in order,
 recording what they overwrote, and the block entities that go with them.
 */
module BlockActions {
  import opened Wrappers
  import opened Sections
  import opened Chunks
  import opened Dimensions

  datatype BlockChange = BlockChange(pos: BlockPos, oldState: State, newState: BlockState)

  datatype PlaceResult = PlaceResult(ok: bool, writes: seq<BlockChange>, beAdds: seq<BlockEntity>)

  datatype BreakResult = BreakResult(ok: bool, changes: seq<BlockChange>, beRemovals: seq<BlockPos>)

  /** Placing can refuse, loudly, a block entity for a position it does not write. */
  datatype PlaceOutcome = Placed(result: PlaceResult) | Panicked(pos: BlockPos)

  type Write = (BlockPos, State)

  // ----- what a run of writes means

  /** The state of `q` after `ws`, if it was `init` before: the last write to its cell. */
  function LastWrite(ws: seq<Write>, q: BlockPos, init: State): State {
    if ws == [] then init
    else
      var w := ws[|ws| - 1];
      if SameCell(w.0, q) then w.1 else LastWrite(ws[..|ws| - 1], q, init)
  }

  function Writes(cs: seq<BlockChange>): (ws: seq<Write>)
    ensures |ws| == |cs| && forall i | 0 <= i < |cs| :: ws[i] == (cs[i].pos, cs[i].newState)
  {
    seq(|cs|, i requires 0 <= i < |cs| => (cs[i].pos, cs[i].newState))
  }

  /** The overwritten states, to be written back last first. */
  function Undo(cs: seq<BlockChange>): (ws: seq<Write>)
    ensures |ws| == |cs|
  {
    if cs == [] then [] else [(cs[|cs| - 1].pos, cs[|cs| - 1].oldState)] + Undo(cs[..|cs| - 1])
  }

  /** What a dimension shows at `q` after `ws`, `held` saying whether it holds blocks there. */
  function Seen(held: bool, ws: seq<Write>, q: BlockPos, init: State): State {
    if held then LastWrite(ws, q, init) else init
  }

  /** Each change holds the state its position had just before it. */
  ghost predicate Recorded(cs: seq<BlockChange>, before: BlockPos -> State, held: int -> bool) {
    forall i | 0 <= i < |cs| ::
      cs[i].oldState == Seen(held(cs[i].pos.y), Writes(cs)[..i], cs[i].pos, before(cs[i].pos))
  }

  ghost predicate PerCell(before: BlockPos -> State) {
    forall p, q | SameCell(p, q) :: before(p) == before(q)
  }

  lemma {:induction false} LastWriteConcat(a: seq<Write>, b: seq<Write>, q: BlockPos, init: State)
    ensures LastWrite(a + b, q, init) == LastWrite(b, q, LastWrite(a, q, init))
  {
    if b == [] {
      assert a + b == a;
    } else {
      assert (a + b)[..|a + b| - 1] == a + b[..|b| - 1];
      LastWriteConcat(a, b[..|b| - 1], q, init);
    }
  }

  lemma {:induction false} LastWritePerCell(ws: seq<Write>, p: BlockPos, q: BlockPos, init: State)
    requires SameCell(p, q)
    ensures LastWrite(ws, p, init) == LastWrite(ws, q, init)
  {
    if ws == [] {
    } else {
      LastWritePerCell(ws[..|ws| - 1], p, q, init);
    }
  }

  lemma {:induction false} UndoCell(cs: seq<BlockChange>, before: BlockPos -> State, held: int -> bool, q: BlockPos)
    requires Recorded(cs, before, held) && PerCell(before) && held(q.y)
    ensures LastWrite(Undo(cs), q, LastWrite(Writes(cs), q, before(q))) == before(q)
    decreases |cs|
  {
    if cs == [] {
    } else {
      var n := |cs| - 1;
      var c, front := cs[n], cs[..n];
      var after := LastWrite(Writes(cs), q, before(q));
      assert Writes(cs)[..n] == Writes(front);
      assert Recorded(front, before, held) by {
        forall i | 0 <= i < n ensures Writes(front)[..i] == Writes(cs)[..i] {}
      }
      UndoCell(front, before, held, q);
      LastWriteConcat([(c.pos, c.oldState)], Undo(front), q, after);
      OneWrite((c.pos, c.oldState), q, after);
      if SameCell(c.pos, q) {
        LastWritePerCell(Writes(front), c.pos, q, before(q));
      }
      assert LastWrite([(c.pos, c.oldState)], q, after) == LastWrite(Writes(front), q, before(q));
    }
  }

  /** Writing the recorded states back, last first, restores every block, repeated positions included. */
  lemma UndoRestores(cs: seq<BlockChange>, before: BlockPos -> State, held: int -> bool, q: BlockPos)
    requires Recorded(cs, before, held) && PerCell(before)
    ensures var h := held(q.y); Seen(h, Undo(cs), q, Seen(h, Writes(cs), q, before(q))) == before(q)
  {
    if held(q.y) {
      UndoCell(cs, before, held, q);
    }
  }

  /** Write `i` is the last of `ws` to the cell of `q`. */
  ghost predicate LastAt(ws: seq<Write>, i: nat, q: BlockPos)
    requires i < |ws|
  {
    SameCell(ws[i].0, q) && forall k | i < k < |ws| :: !SameCell(ws[k].0, q)
  }

  ghost predicate Unwritten(ws: seq<Write>, q: BlockPos) {
    forall k | 0 <= k < |ws| :: !SameCell(ws[k].0, q)
  }

  lemma {:induction false} LastWriteIs(ws: seq<Write>, q: BlockPos, init: State)
    ensures Unwritten(ws, q) ==> LastWrite(ws, q, init) == init
    ensures forall i: nat | i < |ws| && LastAt(ws, i, q) :: LastWrite(ws, q, init) == ws[i].1
  {
    hide SameCell;
    if ws == [] {
    } else {
      var front := ws[..|ws| - 1];
      LastWriteIs(front, q, init);
      assert Unwritten(ws, q) ==> Unwritten(front, q);
      forall i: nat | i < |ws| && LastAt(ws, i, q) ensures LastWrite(ws, q, init) == ws[i].1 {
        if i < |front| {
          assert !SameCell(ws[|ws| - 1].0, q);
          assert LastAt(front, i, q);
        }
      }
    }
  }

  /**
   What is seen after a run of writes, said without counting through them: a position
   shows what the last write to its cell wrote, and one that no write reaches, or that
   the dimension does not hold, shows what it did.
   */
  lemma SeenIs(held: bool, ws: seq<Write>, q: BlockPos, init: State)
    ensures !held || Unwritten(ws, q) ==> Seen(held, ws, q, init) == init
    ensures forall i: nat | held && i < |ws| && LastAt(ws, i, q) :: Seen(held, ws, q, init) == ws[i].1
  {
    hide LastAt, Unwritten, LastWrite;
    LastWriteIs(ws, q, init);
  }

  lemma OneWrite(w: Write, q: BlockPos, init: State)
    ensures LastWrite([w], q, init) == if SameCell(w.0, q) then w.1 else init
  {
    assert LastWrite([w][..0], q, init) == init;
  }

  /** The last of `bes` at `q`. */
  function LastEntity(bes: seq<BlockEntity>, q: BlockPos): Option<BlockEntity> {
    if bes == [] then None
    else if bes[|bes| - 1].pos == q then Some(bes[|bes| - 1])
    else LastEntity(bes[..|bes| - 1], q)
  }

  /** Of the entities at one position the one that comes last is kept; at others there is none. */
  lemma {:induction false} LastEntityIs(bes: seq<BlockEntity>, q: BlockPos)
    ensures LastEntity(bes, q).None? <==> forall i | 0 <= i < |bes| :: bes[i].pos != q
    ensures forall i | 0 <= i < |bes| && bes[i].pos == q && (forall k | i < k < |bes| :: bes[k].pos != q) ::
              LastEntity(bes, q) == Some(bes[i])
  {
    if bes == [] {
    } else {
      var front := bes[..|bes| - 1];
      LastEntityIs(front, q);
      forall i | 0 <= i < |bes| && bes[i].pos == q && (forall k | i < k < |bes| :: bes[k].pos != q)
        ensures LastEntity(bes, q) == Some(bes[i])
      {
        if i < |front| {
          assert front[i] == bes[i] && bes[|bes| - 1].pos != q;
        }
      }
      assert forall i | 0 <= i < |front| :: front[i] == bes[i];
    }
  }

  function Positions(cs: seq<BlockChange>): (ps: set<BlockPos>)
    ensures forall p :: p in ps <==> exists i :: 0 <= i < |cs| && cs[i].pos == p
  {
    set i | 0 <= i < |cs| :: cs[i].pos
  }

  lemma LastWriteNext(cs: seq<BlockChange>, i: nat, q: BlockPos, init: State)
    requires i < |cs|
    ensures LastWrite(Writes(cs)[..i + 1], q, init)
            == if SameCell(cs[i].pos, q) then cs[i].newState else LastWrite(Writes(cs)[..i], q, init)
  {
    assert Writes(cs)[..i + 1][..i] == Writes(cs)[..i];
  }

  /** The entity left at `q` once every position in `dropped` has lost its own. */
  function AfterDrop(dropped: set<BlockPos>, q: BlockPos, before: Option<BlockEntity>): Option<BlockEntity> {
    if q in dropped then None else before
  }

  lemma SeenNext(held: bool, cs: seq<BlockChange>, i: nat, q: BlockPos, init: State)
    requires i < |cs|
    ensures Seen(held, Writes(cs)[..i + 1], q, init)
            == if held && SameCell(cs[i].pos, q) then cs[i].newState else Seen(held, Writes(cs)[..i], q, init)
  {
    LastWriteNext(cs, i, q, init);
  }

  lemma PositionsNext(cs: seq<BlockChange>, i: nat)
    requires i < |cs|
    ensures Positions(cs[..i + 1]) == Positions(cs[..i]) + {cs[i].pos}
  {
    forall p ensures p in Positions(cs[..i + 1]) <==> p in Positions(cs[..i]) + {cs[i].pos} {
      if p in Positions(cs[..i]) {
        var k :| 0 <= k < i && cs[k].pos == p;
        assert cs[..i + 1][k].pos == p;
      }
      assert cs[..i + 1][i].pos == cs[i].pos;
    }
  }

  lemma NothingYet(cs: seq<BlockChange>)
    ensures forall held, q, init :: Seen(held, Writes(cs)[..0], q, init) == init
    ensures forall q, b :: AfterDrop(Positions(cs[..0]), q, b) == b
  {
  }

  // ----- the implementation

  /** The state at `pos`, or 0 where the dimension holds no blocks. */
  method GetState(d: Dimension, pos: BlockPos) returns (state: State, ok: bool)
    requires d.Valid()
    modifies d`Chunks, d`Repr
    ensures d.Valid() && fresh(d.Repr - old(d.Repr)) && old(d.Repr) <= d.Repr
    ensures forall q :: d.StateAt(q) == old(d.StateAt(q))
    ensures forall q :: d.EntityAt(q) == old(d.EntityAt(q))
    ensures ok == d.HasY(pos.y) && state == old(d.StateAt(pos))
  {
    hide Dimension.Valid, Dimension.Column, Dimension.EntitiesIn, KeyOf;
    var r := d.GetBlock(pos.x, pos.y, pos.z);
    forall q ensures d.EntityAt(q) == old(d.EntityAt(q)) {
      assert d.EntitiesIn(KeyOf(q)) == old(d.EntitiesIn(KeyOf(q)));
    }
    match r {
      case Err(_) => return 0, false;
      case Ok(s) => return s, true;
    }
  }

  /** One write of a placement: what was there is recorded, any entity removed, the block written. */
  method ApplyWrite(d: Dimension, c: BlockChange) returns (after: BlockChange)
    requires d.Valid()
    modifies d, d.Repr
    ensures d.Valid() && fresh(d.Repr - old(d.Repr))
    ensures after == c.(oldState := old(d.StateAt(c.pos)))
    ensures forall q :: d.StateAt(q) == if d.HasY(q.y) && SameCell(c.pos, q) then c.newState else old(d.StateAt(q))
    ensures forall q :: d.EntityAt(q) == if q == c.pos then None else old(d.EntityAt(q))
  {
    hide Dimension.Valid, Dimension.Column, Dimension.EntitiesIn, Dimension.StateAt, Dimension.EntityAt, SameCell;
    var state, _ := GetState(d, c.pos);
    after := c.(oldState := state);
    d.RemoveBlockEntity(c.pos);
    var _ := d.SetBlock(c.pos.x, c.pos.y, c.pos.z, c.newState);
  }

  /** The writes of a placement, in order. */
  method ApplyWrites(d: Dimension, cs: seq<BlockChange>) returns (done: seq<BlockChange>)
    requires d.Valid()
    modifies d, d.Repr
    ensures d.Valid() && fresh(d.Repr - old(d.Repr))
    ensures |done| == |cs|
    ensures forall i | 0 <= i < |cs| ::
              done[i] == cs[i].(oldState :=
                Seen(d.HasY(cs[i].pos.y), Writes(cs)[..i], cs[i].pos, old(d.StateAt(cs[i].pos))))
    ensures forall q :: d.StateAt(q) == Seen(d.HasY(q.y), Writes(cs), q, old(d.StateAt(q)))
    ensures forall q :: d.EntityAt(q) == AfterDrop(Positions(cs), q, old(d.EntityAt(q)))
  {
    hide Dimension.Valid, Dimension.StateAt, Dimension.EntityAt, Dimension.HasY, SameCell, Seen, Writes, Positions;
    done := [];
    NothingYet(cs);
    for i := 0 to |cs|
      invariant d.Valid() && fresh(d.Repr - old(d.Repr)) && |done| == i
      invariant forall k | 0 <= k < i ::
                  done[k] == cs[k].(oldState :=
                    Seen(d.HasY(cs[k].pos.y), Writes(cs)[..k], cs[k].pos, old(d.StateAt(cs[k].pos))))
      invariant forall q :: d.StateAt(q) == Seen(d.HasY(q.y), Writes(cs)[..i], q, old(d.StateAt(q)))
      invariant forall q :: d.EntityAt(q) == AfterDrop(Positions(cs[..i]), q, old(d.EntityAt(q)))
    {
      PositionsNext(cs, i);
      var after := ApplyWrite(d, cs[i]);
      forall q: BlockPos ensures d.StateAt(q) == Seen(d.HasY(q.y), Writes(cs)[..i + 1], q, old(d.StateAt(q))) {
        SeenNext(d.HasY(q.y), cs, i, q, old(d.StateAt(q)));
      }
      done := done + [after];
    }
    assert Writes(cs)[..|cs|] == Writes(cs) && cs[..|cs|] == cs;
  }

  method AddEntities(d: Dimension, bes: seq<BlockEntity>)
    requires d.Valid()
    modifies d, d.Repr
    ensures d.Valid() && fresh(d.Repr - old(d.Repr))
    ensures forall q :: d.StateAt(q) == old(d.StateAt(q))
    ensures forall q :: d.EntityAt(q) ==
              if LastEntity(bes, q).Some? then LastEntity(bes, q) else old(d.EntityAt(q))
  {
    hide Dimension.Valid, Dimension.StateAt, Dimension.EntityAt;
    for i := 0 to |bes|
      invariant d.Valid() && fresh(d.Repr - old(d.Repr))
      invariant forall q :: d.StateAt(q) == old(d.StateAt(q))
      invariant forall q :: d.EntityAt(q) ==
                  if LastEntity(bes[..i], q).Some? then LastEntity(bes[..i], q) else old(d.EntityAt(q))
    {
      assert bes[..i + 1][..i] == bes[..i];
      d.AddBlockEntity(bes[i]);
    }
    assert bes[..|bes|] == bes;
  }

  /**
   A refused placement, or one asking for an entity outside its writes, changes
   nothing. Otherwise each cell holds its last write and no other cell changes, the
   overwritten states are recorded in order, and a written position keeps an entity
   only if the placement adds one.
   */
  method PlaceBlock(d: Dimension, result: PlaceResult) returns (outcome: PlaceOutcome)
    requires d.Valid()
    modifies d, d.Repr
    ensures d.Valid() && fresh(d.Repr - old(d.Repr))
    ensures outcome.Panicked? <==>
              result.ok && exists i | 0 <= i < |result.beAdds| :: result.beAdds[i].pos !in Positions(result.writes)
    ensures !result.ok ==> outcome == Placed(result)
    ensures !result.ok || outcome.Panicked? ==>
              && (forall q :: d.StateAt(q) == old(d.StateAt(q)))
              && (forall q :: d.EntityAt(q) == old(d.EntityAt(q)))
    ensures result.ok && outcome.Placed? ==>
              && outcome.result == result.(writes := outcome.result.writes)
              && |outcome.result.writes| == |result.writes|
              && (forall i | 0 <= i < |result.writes| ::
                    var c := result.writes[i];
                    outcome.result.writes[i] ==
                    c.(oldState := Seen(d.HasY(c.pos.y), Writes(result.writes)[..i], c.pos, old(d.StateAt(c.pos)))))
              && (forall q :: d.StateAt(q) == Seen(d.HasY(q.y), Writes(result.writes), q, old(d.StateAt(q))))
              && (forall q :: d.EntityAt(q) ==
                    if LastEntity(result.beAdds, q).Some? then LastEntity(result.beAdds, q)
                    else if q in Positions(result.writes) then None else old(d.EntityAt(q)))
  {
    hide Dimension.Valid, Dimension.StateAt, Dimension.EntityAt, Dimension.HasY, Seen, Writes, Positions, LastEntity;
    if !result.ok {
      return Placed(result);
    }
    if |result.beAdds| > 0 {
      var writeSet := Positions(result.writes);
      for i := 0 to |result.beAdds|
        invariant forall k | 0 <= k < i :: result.beAdds[k].pos in writeSet
      {
        if result.beAdds[i].pos !in writeSet {
          return Panicked(result.beAdds[i].pos);
        }
      }
    }
    var writes := ApplyWrites(d, result.writes);
    AddEntities(d, result.beAdds);
    return Placed(result.(writes := writes));
  }

  /** The positions a breaking clears of their entities: those it turns to air. */
  function Cleared(cs: seq<BlockChange>): (ps: set<BlockPos>)
    ensures forall p :: p in ps <==> exists i :: 0 <= i < |cs| && cs[i].pos == p && cs[i].newState == 0
  {
    set c | c in cs && c.newState == 0 :: c.pos
  }

  lemma ClearedNext(cs: seq<BlockChange>, i: nat)
    requires i < |cs|
    ensures Cleared(cs[..i + 1]) == Cleared(cs[..i]) + (if cs[i].newState == 0 then {cs[i].pos} else {})
  {
    assert cs[..i + 1] == cs[..i] + [cs[i]];
    assert forall c :: c in cs[..i + 1] <==> c in cs[..i] || c == cs[i];
  }

  lemma NothingCleared(cs: seq<BlockChange>)
    ensures forall q, b :: AfterDrop(Cleared(cs[..0]), q, b) == b
  {
  }

  method ApplyChange(d: Dimension, c: BlockChange) returns (after: BlockChange)
    requires d.Valid()
    modifies d, d.Repr
    ensures d.Valid() && fresh(d.Repr - old(d.Repr))
    ensures after == c.(oldState := old(d.StateAt(c.pos)))
    ensures forall q :: d.StateAt(q) == if d.HasY(q.y) && SameCell(c.pos, q) then c.newState else old(d.StateAt(q))
    ensures forall q :: d.EntityAt(q) == if c.newState == 0 && q == c.pos then None else old(d.EntityAt(q))
  {
    hide Dimension.Valid, Dimension.Column, Dimension.EntitiesIn, Dimension.StateAt, Dimension.EntityAt, SameCell;
    var state, _ := GetState(d, c.pos);
    after := c.(oldState := state);
    var _ := d.SetBlock(c.pos.x, c.pos.y, c.pos.z, c.newState);
    if c.newState == 0 {
      d.RemoveBlockEntity(c.pos);
    }
  }

  method ApplyChanges(d: Dimension, cs: seq<BlockChange>) returns (done: seq<BlockChange>)
    requires d.Valid()
    modifies d, d.Repr
    ensures d.Valid() && fresh(d.Repr - old(d.Repr))
    ensures |done| == |cs|
    ensures forall i | 0 <= i < |cs| ::
              done[i] == cs[i].(oldState :=
                Seen(d.HasY(cs[i].pos.y), Writes(cs)[..i], cs[i].pos, old(d.StateAt(cs[i].pos))))
    ensures forall q :: d.StateAt(q) == Seen(d.HasY(q.y), Writes(cs), q, old(d.StateAt(q)))
    ensures forall q :: d.EntityAt(q) == AfterDrop(Cleared(cs), q, old(d.EntityAt(q)))
  {
    hide Dimension.Valid, Dimension.StateAt, Dimension.EntityAt, Dimension.HasY, SameCell, Seen, Writes, Cleared;
    done := [];
    NothingYet(cs);
    NothingCleared(cs);
    for i := 0 to |cs|
      invariant d.Valid() && fresh(d.Repr - old(d.Repr)) && |done| == i
      invariant forall k | 0 <= k < i ::
                  done[k] == cs[k].(oldState :=
                    Seen(d.HasY(cs[k].pos.y), Writes(cs)[..k], cs[k].pos, old(d.StateAt(cs[k].pos))))
      invariant forall q :: d.StateAt(q) == Seen(d.HasY(q.y), Writes(cs)[..i], q, old(d.StateAt(q)))
      invariant forall q :: d.EntityAt(q) == AfterDrop(Cleared(cs[..i]), q, old(d.EntityAt(q)))
    {
      ClearedNext(cs, i);
      var after := ApplyChange(d, cs[i]);
      forall q: BlockPos ensures d.StateAt(q) == Seen(d.HasY(q.y), Writes(cs)[..i + 1], q, old(d.StateAt(q))) {
        SeenNext(d.HasY(q.y), cs, i, q, old(d.StateAt(q)));
      }
      done := done + [after];
    }
    assert Writes(cs)[..|cs|] == Writes(cs) && cs[..|cs|] == cs;
  }

  method RemoveEntities(d: Dimension, ps: seq<BlockPos>)
    requires d.Valid()
    modifies d, d.Repr
    ensures d.Valid() && fresh(d.Repr - old(d.Repr))
    ensures forall q :: d.StateAt(q) == old(d.StateAt(q))
    ensures forall q :: d.EntityAt(q) == if q in ps then None else old(d.EntityAt(q))
  {
    hide Dimension.Valid, Dimension.StateAt, Dimension.EntityAt;
    for i := 0 to |ps|
      invariant d.Valid() && fresh(d.Repr - old(d.Repr))
      invariant forall q :: d.StateAt(q) == old(d.StateAt(q))
      invariant forall q :: d.EntityAt(q) == if q in ps[..i] then None else old(d.EntityAt(q))
    {
      assert ps[..i + 1] == ps[..i] + [ps[i]];
      d.RemoveBlockEntity(ps[i]);
    }
    assert ps[..|ps|] == ps;
  }

  /**
   A refused breaking changes nothing. Otherwise the changes are written in order,
   recording what they overwrote, and exactly the positions turned to air and those
   listed for removal lose their entities.
   */
  method BreakBlock(d: Dimension, result: BreakResult) returns (after: BreakResult)
    requires d.Valid()
    modifies d, d.Repr
    ensures d.Valid() && fresh(d.Repr - old(d.Repr))
    ensures !result.ok ==>
              && after == result
              && (forall q :: d.StateAt(q) == old(d.StateAt(q)))
              && (forall q :: d.EntityAt(q) == old(d.EntityAt(q)))
    ensures result.ok ==>
              && after == result.(changes := after.changes)
              && |after.changes| == |result.changes|
              && (forall i | 0 <= i < |result.changes| ::
                    var c := result.changes[i];
                    after.changes[i] ==
                    c.(oldState := Seen(d.HasY(c.pos.y), Writes(result.changes)[..i], c.pos, old(d.StateAt(c.pos)))))
              && (forall q :: d.StateAt(q) == Seen(d.HasY(q.y), Writes(result.changes), q, old(d.StateAt(q))))
              && (forall q :: d.EntityAt(q) ==
                    if q in result.beRemovals || q in Cleared(result.changes) then None else old(d.EntityAt(q)))
  {
    hide Dimension.Valid, Dimension.StateAt, Dimension.EntityAt, Dimension.HasY, Seen, Writes, Cleared;
    if !result.ok {
      return result;
    }
    var changes := ApplyChanges(d, result.changes);
    RemoveEntities(d, result.beRemovals);
    return result.(changes := changes);
  }

  /** Cells are shared only by positions the dimension shows alike, so a placement can be undone. */
  lemma StatesArePerCell(d: Dimension, p: BlockPos, q: BlockPos)
    requires d.Valid() && SameCell(p, q)
    ensures d.StateAt(p) == d.StateAt(q)
  {
    hide Dimension.Valid, ChunkKey;
  }

  // ----- undoing

  /** A dimension's states fit sixteen bits, so each can be written back. */
  lemma StatesFit(d: Dimension, q: BlockPos)
    requires d.Valid()
    ensures 0 <= d.StateAt(q) < 0x1_0000
  {
    hide Dimension.Valid, KeyOf, CellOf;
    if d.HasY(q.y) {
      AddressInColumn(q, d.MinY, d.Height / 16);
      ColumnFits(d, KeyOf(q), SectionIndex(q.y, d.MinY));
    }
  }

  lemma ColumnFits(d: Dimension, key: nat, si: nat)
    requires d.Valid() && si < d.Height / 16
    ensures InU16(d.Column(key)[si])
  {
    hide Section.Valid, Section.Cells, Indexed;
    if key in d.Chunks {
      var c := d.Chunks[key];
      assert d.ChunkOk(c);
      if c.Sections[si] != null { assert c.SectionOk(c.Sections[si]); }
    }
  }

  lemma {:induction false} LastWriteFits(ws: seq<Write>, q: BlockPos, init: State)
    requires 0 <= init < 0x1_0000 && forall i | 0 <= i < |ws| :: 0 <= ws[i].1 < 0x1_0000
    ensures 0 <= LastWrite(ws, q, init) < 0x1_0000
  {
    if ws == [] {
    } else {
      LastWriteFits(ws[..|ws| - 1], q, init);
    }
  }

  lemma {:induction false} UndoFits(cs: seq<BlockChange>)
    requires forall i | 0 <= i < |cs| :: 0 <= cs[i].oldState < 0x1_0000
    ensures forall i | 0 <= i < |Undo(cs)| :: 0 <= Undo(cs)[i].1 < 0x1_0000
    decreases |cs|
  {
    if cs == [] {
    } else {
      UndoFits(cs[..|cs| - 1]);
    }
  }

  /** Write states back in order. */
  method WriteBack(d: Dimension, ws: seq<Write>)
    requires d.Valid() && forall i | 0 <= i < |ws| :: 0 <= ws[i].1 < 0x1_0000
    modifies d, d.Repr
    ensures d.Valid() && fresh(d.Repr - old(d.Repr))
    ensures forall q :: d.StateAt(q) == Seen(d.HasY(q.y), ws, q, old(d.StateAt(q)))
  {
    hide Dimension.Valid, Dimension.StateAt, Dimension.EntityAt, Dimension.HasY, SameCell;
    for i := 0 to |ws|
      invariant d.Valid() && fresh(d.Repr - old(d.Repr))
      invariant forall q :: d.StateAt(q) == Seen(d.HasY(q.y), ws[..i], q, old(d.StateAt(q)))
    {
      assert ws[..i + 1][..i] == ws[..i];
      var _ := d.SetBlock(ws[i].0.x, ws[i].0.y, ws[i].0.z, ws[i].1);
    }
    assert ws[..|ws|] == ws;
  }

  /** Changes that record what they overwrote can be undone on any dimension's states. */
  lemma UndoShows(cs: seq<BlockChange>, before: BlockPos -> State, held: int -> bool)
    requires Recorded(cs, before, held) && PerCell(before) && forall q :: 0 <= before(q) < 0x1_0000
    ensures forall i | 0 <= i < |Undo(cs)| :: 0 <= Undo(cs)[i].1 < 0x1_0000
    ensures forall q: BlockPos :: Seen(held(q.y), Undo(cs), q, Seen(held(q.y), Writes(cs), q, before(q))) == before(q)
  {
    hide PerCell, LastWrite, Undo, SameCell;
    forall i | 0 <= i < |cs| ensures 0 <= cs[i].oldState < 0x1_0000 {
      LastWriteFits(Writes(cs)[..i], cs[i].pos, before(cs[i].pos));
    }
    UndoFits(cs);
    forall q: BlockPos
      ensures Seen(held(q.y), Undo(cs), q, Seen(held(q.y), Writes(cs), q, before(q))) == before(q)
    {
      UndoRestores(cs, before, held, q);
    }
  }

  lemma SameWrites(a: seq<BlockChange>, b: seq<BlockChange>)
    requires |a| == |b| && forall i | 0 <= i < |a| :: b[i] == a[i].(oldState := b[i].oldState)
    ensures Writes(a) == Writes(b)
  {
  }

  lemma StatesAreCells(d: Dimension)
    requires d.Valid()
    ensures forall p, q | SameCell(p, q) :: d.StateAt(p) == d.StateAt(q)
    ensures forall q :: 0 <= d.StateAt(q) < 0x1_0000
  {
    hide Dimension.Valid, Dimension.StateAt, SameCell;
    forall p, q | SameCell(p, q) ensures d.StateAt(p) == d.StateAt(q) { StatesArePerCell(d, p, q); }
    forall q ensures 0 <= d.StateAt(q) < 0x1_0000 { StatesFit(d, q); }
  }

  /** A placement whose recorded states are written back, last first, leaves every block as it was. */
  method PlaceAndUndo(d: Dimension, result: PlaceResult) returns (outcome: PlaceOutcome)
    requires d.Valid()
    modifies d, d.Repr
    ensures d.Valid() && fresh(d.Repr - old(d.Repr))
    ensures forall q :: d.StateAt(q) == old(d.StateAt(q))
  {
    hide Dimension.Valid, Dimension.StateAt, Dimension.EntityAt, Dimension.HasY, SameCell, Seen, Writes, Positions;
    hide LastEntity, Undo;
    StatesAreCells(d);
    ghost var before: BlockPos -> State := q => if old(d.Valid()) then old(d.StateAt(q)) else 0;
    ghost var held: int -> bool := y => d.HasY(y);
    outcome := PlaceBlock(d, result);
    if result.ok && outcome.Placed? {
      var cs := outcome.result.writes;
      SameWrites(result.writes, cs);
      UndoShows(cs, before, held);
      WriteBack(d, Undo(cs));
    }
  }

  /** And so does a breaking. */
  method BreakAndUndo(d: Dimension, result: BreakResult) returns (after: BreakResult)
    requires d.Valid()
    modifies d, d.Repr
    ensures d.Valid() && fresh(d.Repr - old(d.Repr))
    ensures forall q :: d.StateAt(q) == old(d.StateAt(q))
  {
    hide Dimension.Valid, Dimension.StateAt, Dimension.EntityAt, Dimension.HasY, SameCell, Seen, Writes, Cleared;
    hide Undo;
    StatesAreCells(d);
    ghost var before: BlockPos -> State := q => if old(d.Valid()) then old(d.StateAt(q)) else 0;
    ghost var held: int -> bool := y => d.HasY(y);
    after := BreakBlock(d, result);
    if result.ok {
      SameWrites(result.changes, after.changes);
      UndoShows(after.changes, before, held);
      WriteBack(d, Undo(after.changes));
    }
  }
}
