/** Whole runs of edits on block storage, against the same edits on plain values. */
module StorageRuns {
  import opened Wrappers
  import V = VarInts
  import P = Palettes
  import PC = PalettedContainers
  import S = Sections
  import C = Chunks
  import D = Dimensions
  import A = BlockActions

  // ----- sections

  datatype SectionEdit =
    | SetCell(idx: int, state: S.State)
    | FillAll(state: S.State)
    | FillRows(yStart: int, yEnd: int, state: S.State)

  /** The edit on a plain array of cells. */
  function Edited(cells: S.Cells, e: SectionEdit): S.Cells {
    match e
    case SetCell(idx, state) => if 0 <= idx < S.SECTION_SIZE then cells[idx := state] else cells
    case FillAll(state) => S.Uniform(state)
    case FillRows(a, b, state) =>
      if S.Clamp(a) >= S.Clamp(b) then cells else S.Slab(cells, S.SLAB * S.Clamp(a), S.SLAB * S.Clamp(b), state)
  }

  function AllEdited(cells: S.Cells, es: seq<SectionEdit>): S.Cells {
    if es == [] then cells else Edited(AllEdited(cells, es[..|es| - 1]), es[|es| - 1])
  }

  /** Whether the edit writes cell `k`, of layer `k / 256`. */
  predicate Covers(e: SectionEdit, k: nat) {
    match e
    case SetCell(idx, _) => idx == k
    case FillAll(_) => true
    case FillRows(yStart, yEnd, _) => yStart <= k / 256 < yEnd
  }

  lemma EditedCell(cells: S.Cells, es: seq<SectionEdit>, k: nat)
    requires k < S.SECTION_SIZE
    ensures es == [] ==> AllEdited(cells, es)[k] == cells[k]
    ensures es != [] ==>
              AllEdited(cells, es)[k] == if Covers(es[|es| - 1], k) then es[|es| - 1].state
                else AllEdited(cells, es[..|es| - 1])[k]
  {
  }

  /** Edit `i` is the last to cover the cell. */
  ghost predicate LastCovers(es: seq<SectionEdit>, i: nat, k: nat)
    requires i < |es|
  {
    Covers(es[i], k) && forall j | i < j < |es| :: !Covers(es[j], k)
  }

  ghost predicate Uncovered(es: seq<SectionEdit>, k: nat) {
    forall j | 0 <= j < |es| :: !Covers(es[j], k)
  }

  lemma OneMoreEdit(es: seq<SectionEdit>, k: nat)
    requires es != []
    ensures var front := es[..|es| - 1];
            if Covers(es[|es| - 1], k) then !Uncovered(es, k) && forall i: nat | i < |front| :: !LastCovers(es, i, k)
            else
              (Uncovered(es, k) <==> Uncovered(front, k)) && !LastCovers(es, |front|, k)
              && forall i: nat | i < |front| :: LastCovers(es, i, k) <==> LastCovers(front, i, k)
  {
    hide Covers;
    var front := es[..|es| - 1];
    assert forall j | 0 <= j < |front| :: front[j] == es[j];
  }

  /** A cell holds what the last edit that covers it wrote, or what it held before them all. */
  lemma {:induction false} EditedCells(cells: S.Cells, es: seq<SectionEdit>, k: nat)
    requires k < S.SECTION_SIZE
    ensures Uncovered(es, k) ==> AllEdited(cells, es)[k] == cells[k]
    ensures forall i: nat | i < |es| && LastCovers(es, i, k) :: AllEdited(cells, es)[k] == es[i].state
    decreases |es|
  {
    hide AllEdited, Covers, LastCovers, Uncovered;
    EditedCell(cells, es, k);
    if es == [] {
    } else {
      var front := es[..|es| - 1];
      EditedCells(cells, front, k);
      OneMoreEdit(es, k);
    }
  }

  lemma EditInU16(cells: S.Cells, e: SectionEdit)
    requires S.InU16(cells) && 0 <= e.state < 0x1_0000
    ensures S.InU16(Edited(cells, e))
  {
  }

  method ApplyEdit(section: S.Section, e: SectionEdit)
    requires section.Valid() && section.Counted() && S.InU16(section.Cells()) && 0 <= e.state < 0x1_0000
    modifies section, section.Objects()
    ensures section.Valid() && fresh(section.Objects() - old(section.Objects()))
    ensures section.Cells() == Edited(old(section.Cells()), e) && section.Counted() && S.InU16(section.Cells())
  {
    hide S.NonAir, S.Slab, S.InU16, S.Section.Cells, S.Section.Valid, S.Section.GoesDirect, S.Uniform;
    hide S.Section.Objects;
    EditInU16(section.Cells(), e);
    match e {
      case SetCell(idx, state) => var _ := section.Set(idx, state);
      case FillAll(state) => section.Fill(state);
      case FillRows(a, b, state) => section.FillRange(a, b, state);
    }
  }

  /** Any run of edits leaves a section what the same edits make of a plain array, its count exact. */
  method ApplyEdits(section: S.Section, es: seq<SectionEdit>)
    requires section.Valid() && section.Counted() && S.InU16(section.Cells())
    requires forall i | 0 <= i < |es| :: 0 <= es[i].state < 0x1_0000
    modifies section, section.Objects()
    ensures section.Valid() && fresh(section.Objects() - old(section.Objects()))
    ensures section.Cells() == AllEdited(old(section.Cells()), es)
    ensures section.blockCount == S.NonAir(section.Cells())
  {
    hide S.NonAir, S.InU16, S.Section.Cells, S.Section.Valid, Edited;
    ghost var before := section.Objects();
    for i := 0 to |es|
      invariant section.Valid() && fresh(section.Objects() - before)
      invariant section.Counted() && S.InU16(section.Cells())
      invariant section.Cells() == AllEdited(old(section.Cells()), es[..i])
    {
      assert es[..i + 1][..i] == es[..i];
      ghost var objects := section.Objects();
      ApplyEdit(section, es[i]);
      forall o | o in section.Objects() - before ensures fresh(o) {
        if o in objects { assert o in objects - before; }
      }
    }
    assert es[..|es|] == es;
  }

  // ----- the wire container

  /** Cell writes in order on a plain array. */
  function AllWritten(cells: P.Cells, ws: seq<(int, V.Int32)>): P.Cells {
    if ws == [] then cells else P.Update(AllWritten(cells, ws[..|ws| - 1]), ws[|ws| - 1].0, ws[|ws| - 1].1)
  }

  /** A cell holds the last value written to it, or what it held before; writes outside the section do nothing. */
  lemma {:induction false} WrittenCells(cells: P.Cells, ws: seq<(int, V.Int32)>, k: nat)
    requires k < P.SECTION_SIZE
    ensures (forall j | 0 <= j < |ws| :: ws[j].0 != k) ==> AllWritten(cells, ws)[k] == cells[k]
    ensures forall i | 0 <= i < |ws| && ws[i].0 == k && (forall j | i < j < |ws| :: ws[j].0 != k) ::
              AllWritten(cells, ws)[k] == ws[i].1
    decreases |ws|
  {
    if ws == [] {
    } else {
      var front := ws[..|ws| - 1];
      WrittenCells(cells, front, k);
      assert forall j | 0 <= j < |front| :: front[j] == ws[j];
    }
  }

  function StatesWritten(ws: seq<(int, V.Int32)>): set<V.Int32> {
    if ws == [] then {} else StatesWritten(ws[..|ws| - 1]) + {ws[|ws| - 1].1}
  }

  lemma {:induction false} StatesWrittenAre(ws: seq<(int, V.Int32)>, v: V.Int32)
    ensures v in StatesWritten(ws) <==> exists i | 0 <= i < |ws| :: ws[i].1 == v
    decreases |ws|
  {
    if ws == [] {
    } else {
      var front := ws[..|ws| - 1];
      StatesWrittenAre(front, v);
      assert forall j | 0 <= j < |front| :: front[j] == ws[j];
    }
  }

  lemma NextWritten(cells: P.Cells, ws: seq<(int, V.Int32)>, n: nat)
    requires n < |ws|
    ensures AllWritten(cells, ws[..n + 1]) == P.Update(AllWritten(cells, ws[..n]), ws[n].0, ws[n].1)
  {
    assert ws[..n + 1][..n] == ws[..n];
  }

  lemma NextKnown(known: set<V.Int32>, ws: seq<(int, V.Int32)>, n: nat)
    requires n < |ws|
    ensures known + StatesWritten(ws[..n]) + {ws[n].1} == known + StatesWritten(ws[..n + 1])
    ensures |known + StatesWritten(ws[..n])| <= |known + StatesWritten(ws[..n + 1])|
  {
    assert ws[..n + 1][..n] == ws[..n];
    P.MoreStates(known + StatesWritten(ws[..n]), known + StatesWritten(ws[..n + 1]));
  }

  /**
   Any run of writes leaves a container what the same writes make of a plain array,
   through every change of form, if and only if it does not know more than 256 states on
   the way or all of the result fits fifteen bits; otherwise the low fifteen bits are kept.
   */
  method ApplyWrites(c: PC.PalettedContainer, ws: seq<(int, V.Int32)>)
    requires c.Valid()
    modifies c.Repr
    ensures c.Valid() && fresh(c.Repr - old(c.Repr))
    ensures c.c.Direct? <==> old(c.c.Direct?) || |old(c.Known()) + StatesWritten(ws)| > P.MAX_PALETTE
    ensures c.Cells() == P.Kept(AllWritten(old(c.Cells()), ws), c.c.Direct?)
    ensures c.Cells() == AllWritten(old(c.Cells()), ws) <==>
            (c.c.Direct? ==> P.InWireRange(AllWritten(old(c.Cells()), ws)))
  {
    hide PC.PalettedContainer.Valid, PC.PalettedContainer.Cells, PC.PalettedContainer.Known;
    hide P.Update, P.Written, P.InWireRange, P.Kept, StatesWritten, AllWritten;
    ghost var known, cells, direct := c.Known(), c.Cells(), c.c.Direct?;
    NothingWritten(c);
    for i := 0 to |ws|
      invariant c.Valid() && fresh(c.Repr - old(c.Repr)) && (direct ==> c.c.Direct?)
      invariant c.c.Direct? <==> direct || |known + StatesWritten(ws[..i])| > P.MAX_PALETTE
      invariant !c.c.Direct? ==> c.Known() == known + StatesWritten(ws[..i])
      invariant c.Cells() == P.Kept(AllWritten(cells, ws[..i]), c.c.Direct?)
    {
      NextWritten(cells, ws, i);
      NextKnown(known, ws, i);
      ghost var before := c.c.Direct?;
      c.Set(ws[i].0, ws[i].1);
      P.KeptWrite(AllWritten(cells, ws[..i]), ws[i].0, ws[i].1, before, c.c.Direct?);
    }
    assert ws[..|ws|] == ws;
    P.KeptExactly(AllWritten(cells, ws), c.c.Direct?);
  }

  lemma NothingWritten(c: PC.PalettedContainer)
    requires c.Valid()
    ensures StatesWritten([]) == {} && c.Known() + StatesWritten([]) == c.Known()
    ensures AllWritten(c.Cells(), []) == c.Cells() == P.Kept(c.Cells(), c.c.Direct?)
    ensures !c.c.Direct? ==> |c.Known()| <= P.MAX_PALETTE
  {
    if c.c.Direct? { c.c.direct.AlreadyTruncated(); } else { c.KnownBound(); }
  }

  // ----- the dimension

  datatype Access = Put(pos: C.BlockPos, state: C.BlockState) | Look(pos: C.BlockPos)

  /** The writes among the first `n` accesses. */
  function PutsOf(ops: seq<Access>, n: nat): seq<A.Write>
    requires n <= |ops|
  {
    if n == 0 then []
    else PutsOf(ops, n - 1) + if ops[n - 1].Put? then [(ops[n - 1].pos, ops[n - 1].state as S.State)] else []
  }

  lemma NextPut(ops: seq<Access>, n: nat, q: C.BlockPos, init: S.State)
    requires n < |ops|
    ensures A.LastWrite(PutsOf(ops, n + 1), q, init) ==
            if ops[n].Put? && D.SameCell(ops[n].pos, q) then ops[n].state as S.State
            else A.LastWrite(PutsOf(ops, n), q, init)
  {
    hide D.SameCell;
    if ops[n].Put? {
      assert PutsOf(ops, n + 1)[..|PutsOf(ops, n)|] == PutsOf(ops, n);
    } else {
      assert PutsOf(ops, n + 1) == PutsOf(ops, n);
    }
  }

  /**
     Any run of writes and reads, at any positions: a read answers the last state written to
     its cell before it, or what was there at the start, and fails only outside the heights
     held. Reading, and generating chunks and sections on the way, is never seen.
   */
  method Accesses(d: D.Dimension, ops: seq<Access>) returns (answers: seq<Option<S.State>>)
    requires d.Valid()
    modifies d, d.Repr
    ensures d.Valid() && fresh(d.Repr - old(d.Repr)) && |answers| == |ops|
    ensures forall i | 0 <= i < |ops| && ops[i].Look? ::
              answers[i] == if d.HasY(ops[i].pos.y)
                            then Some(A.LastWrite(PutsOf(ops, i), ops[i].pos, old(d.StateAt(ops[i].pos))))
                            else None
    ensures forall q ::
            d.StateAt(q) == if d.HasY(q.y) then A.LastWrite(PutsOf(ops, |ops|), q, old(d.StateAt(q)))
                            else old(d.StateAt(q))
  {
    hide D.Dimension.Valid, D.Dimension.StateAt, D.Dimension.Column, D.Dimension.EntityAt, D.SameCell, A.LastWrite;
    hide PutsOf, D.Dimension.EntitiesIn;
    answers := [];
    forall q ensures A.LastWrite(PutsOf(ops, 0), q, d.StateAt(q)) == d.StateAt(q) { NoPuts(ops, q, d.StateAt(q)); }
    for i := 0 to |ops|
      invariant d.Valid() && fresh(d.Repr - old(d.Repr)) && |answers| == i
      invariant forall k | 0 <= k < i && ops[k].Look? ::
                  answers[k] == if d.HasY(ops[k].pos.y)
                                then Some(A.LastWrite(PutsOf(ops, k), ops[k].pos, old(d.StateAt(ops[k].pos))))
                                else None
      invariant forall q ::
                d.StateAt(q) == if d.HasY(q.y) then A.LastWrite(PutsOf(ops, i), q, old(d.StateAt(q)))
                                else old(d.StateAt(q))
    {
      label Before:
      match ops[i] {
        case Put(pos, state) =>
          var _ := d.SetBlock(pos.x, pos.y, pos.z, state);
          answers := answers + [None];
        case Look(pos) =>
          var seen := Read(d, pos);
          answers := answers + [seen];
      }
      forall q
        ensures d.StateAt(q) == if d.HasY(q.y) then A.LastWrite(PutsOf(ops, i + 1), q, old(d.StateAt(q)))
                                else old(d.StateAt(q))
      {
        NextPut(ops, i, q, old(d.StateAt(q)));
        assert d.StateAt(q) == if ops[i].Put? && d.HasY(q.y) && D.SameCell(ops[i].pos, q) then ops[i].state as S.State
                               else old@Before(d.StateAt(q));
      }
    }
  }

  lemma NoPuts(ops: seq<Access>, q: C.BlockPos, init: S.State)
    ensures A.LastWrite(PutsOf(ops, 0), q, init) == init
  {
  }

  method Read(d: D.Dimension, pos: C.BlockPos) returns (seen: Option<S.State>)
    requires d.Valid()
    modifies d`Chunks, d`Repr
    ensures d.Valid() && fresh(d.Repr - old(d.Repr)) && old(d.Repr) <= d.Repr
    ensures forall q :: d.StateAt(q) == old(d.StateAt(q))
    ensures seen == if d.HasY(pos.y) then Some(d.StateAt(pos)) else None
  {
    hide D.Dimension.Valid, D.Dimension.Column;
    var r := d.GetBlock(pos.x, pos.y, pos.z);
    seen := if r.Ok? then Some(r.value) else None;
  }
}
