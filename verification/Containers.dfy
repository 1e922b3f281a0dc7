/** Inventories, and inserting a stack into a range of slots. */
module Containers {
  import opened Wrappers

  /** Counts are never negative when written here, but an empty slot may be any count that is not positive. */
  datatype Slot = Slot(itemID: int, components: Option<map<int, int>>, removeList: Option<seq<int>>, count: int)

  const EMPTY := Slot(0, None, None, 0)

  function Amount(s: Slot): nat {
    if s.count > 0 then s.count else 0
  }

  predicate SameKind(a: Slot, b: Slot) {
    a.itemID == b.itemID && a.components == b.components && a.removeList == b.removeList
  }

  predicate StacksWith(a: Slot, b: Slot) {
    a.count > 0 && b.count > 0 && SameKind(a, b)
  }

  /** How many items of a kind the slots hold. */
  function Held(slots: seq<Slot>, kind: Slot): nat {
    if slots == [] then 0
    else (if SameKind(slots[0], kind) then Amount(slots[0]) else 0) + Held(slots[1..], kind)
  }

  function Share(s: Slot, kind: Slot): nat {
    if SameKind(s, kind) then Amount(s) else 0
  }

  lemma {:induction false} HeldAfter(slots: seq<Slot>, i: nat, s: Slot, kind: Slot)
    requires i < |slots|
    ensures Held(slots[i := s], kind) + Share(slots[i], kind) == Held(slots, kind) + Share(s, kind)
  {
    if i == 0 {
    } else {
      assert slots[i := s][1..] == slots[1..][i - 1 := s];
      HeldAfter(slots[1..], i - 1, s, kind);
    }
  }

  function Min(a: int, b: int): int {
    if a < b then a else b
  }

  /** What may still be put on a slot that stacks with the incoming one. */
  function Room(s: Slot, stack: Slot, max: int): int {
    if StacksWith(s, stack) then max - s.count else 0
  }

  /** Slots from `i` up to `e` topped up, first one first; what is left over. */
  function ToppedUp(slots: seq<Slot>, stack: Slot, max: int, i: nat, e: int): (seq<Slot>, Slot)
    requires e <= |slots|
    decreases e - i
  {
    if i >= e || stack.count <= 0 then (slots, stack)
    else if Room(slots[i], stack, max) <= 0 then ToppedUp(slots, stack, max, i + 1, e)
    else
      var take := Min(Room(slots[i], stack, max), stack.count);
      ToppedUp(slots[i := slots[i].(count := slots[i].count + take)], stack.(count := stack.count - take),
               max, i + 1, e)
  }

  /** Empty slots from `i` up to `e` filled, first one first; what is left over. */
  function Filled(slots: seq<Slot>, stack: Slot, max: int, i: nat, e: int): (seq<Slot>, Slot)
    requires e <= |slots|
    decreases e - i
  {
    if i >= e || stack.count <= 0 then (slots, stack)
    else if slots[i].count > 0 then Filled(slots, stack, max, i + 1, e)
    else
      var take := Min(stack.count, max);
      Filled(slots[i := stack.(count := take)], stack.(count := stack.count - take), max, i + 1, e)
  }

  function First(start: int): nat {
    if start < 0 then 0 else start
  }

  function Beyond(end: int, size: nat): int {
    if end >= size then size else end + 1
  }

  function Added(slots: seq<Slot>, stack: Slot, max: int, start: int, end: int): (seq<Slot>, Slot) {
    if stack.count <= 0 then (slots, stack)
    else
      var topped := ToppedUp(slots, stack, max, First(start), Beyond(end, |slots|));
      ToppedLength(slots, stack, max, First(start), Beyond(end, |slots|));
      Filled(topped.0, topped.1, max, First(start), Beyond(end, |slots|))
  }

  lemma {:induction false} ToppedLength(slots: seq<Slot>, stack: Slot, max: int, i: nat, e: int)
    requires e <= |slots|
    ensures |ToppedUp(slots, stack, max, i, e).0| == |slots|
    decreases e - i
  {
    if i >= e || stack.count == 0 {
    } else {
      if Room(slots[i], stack, max) <= 0 {
        ToppedLength(slots, stack, max, i + 1, e);
      } else {
        var take := Min(Room(slots[i], stack, max), stack.count);
        ToppedLength(slots[i := slots[i].(count := slots[i].count + take)], stack.(count := stack.count - take),
                     max, i + 1, e);
      }
    }
  }

  // ----- what inserting keeps

  /** A slot unchanged, or with more of the stack's kind up to the limit. */
  predicate Grew(before: Slot, after: Slot, stack: Slot, max: int) {
    after == before ||
      (SameKind(after, stack) && Amount(before) < after.count <= max && (before.count > 0 ==> SameKind(before, stack)))
  }

  /** The outcome of one pass: the rest is of the same kind, and only slots in range have grown. */
  ghost predicate Within(slots: seq<Slot>, out: (seq<Slot>, Slot), stack: Slot, max: int, i: nat, e: int) {
    && |out.0| == |slots|
    && out.1 == stack.(count := out.1.count) && 0 <= out.1.count <= stack.count
    && (forall k | 0 <= k < |slots| ::
         if i <= k < e then Grew(slots[k], out.0[k], stack, max) else out.0[k] == slots[k])
  }

  /** Nothing is lost or made: what is held and what is left over is what was held and what came in. */
  ghost predicate Conserves(slots: seq<Slot>, out: (seq<Slot>, Slot), stack: Slot, kind: Slot) {
    Held(out.0, kind) + Share(out.1, kind) == Held(slots, kind) + Share(stack, kind)
  }

  /** A matching slot only gains once all matching slots before it are full. */
  ghost predicate InTurn(slots: seq<Slot>, out: seq<Slot>, stack: Slot, max: int, i: nat, e: int)
    requires |out| == |slots| && e <= |slots|
  {
    forall j, k | i <= j < k < e && StacksWith(slots[j], stack) && slots[k].count > 0 && out[k] != slots[k] ::
      out[j].count >= max
  }

  /** An empty slot is only used once all empty slots before it are full. */
  ghost predicate EmptyInTurn(slots: seq<Slot>, out: seq<Slot>, max: int, i: nat, e: int)
    requires |out| == |slots| && e <= |slots|
  {
    forall j, k | i <= j < k < e && slots[j].count <= 0 && slots[k].count <= 0 && out[k] != slots[k] ::
      out[j].count >= max
  }

  lemma {:induction false} ToppedKeeps(slots: seq<Slot>, stack: Slot, max: int, i: nat, e: int, kind: Slot)
    requires e <= |slots| && stack.count >= 0
    ensures Within(slots, ToppedUp(slots, stack, max, i, e), stack, max, i, e)
    ensures Conserves(slots, ToppedUp(slots, stack, max, i, e), stack, kind)
    ensures ToppedUp(slots, stack, max, i, e).1.count > 0 ==>
              forall k | i <= k < e :: Room(ToppedUp(slots, stack, max, i, e).0[k], stack, max) <= 0
    ensures forall k | i <= k < e && slots[k].count <= 0 :: ToppedUp(slots, stack, max, i, e).0[k] == slots[k]
    decreases e - i
  {
    hide Held;
    if i >= e || stack.count == 0 {
    } else {
      if Room(slots[i], stack, max) <= 0 {
        ToppedKeeps(slots, stack, max, i + 1, e, kind);
      } else {
        var take := Min(Room(slots[i], stack, max), stack.count);
        var grown := slots[i].(count := slots[i].count + take);
        HeldAfter(slots, i, grown, kind);
        ToppedKeeps(slots[i := grown], stack.(count := stack.count - take), max, i + 1, e, kind);
      }
    }
  }

  lemma {:induction false} FilledKeeps(slots: seq<Slot>, stack: Slot, max: int, i: nat, e: int, kind: Slot)
    requires e <= |slots| && stack.count >= 0 && max > 0
    ensures Within(slots, Filled(slots, stack, max, i, e), stack, max, i, e)
    ensures Conserves(slots, Filled(slots, stack, max, i, e), stack, kind)
    ensures Filled(slots, stack, max, i, e).1.count > 0 ==>
            forall k | i <= k < e :: Filled(slots, stack, max, i, e).0[k].count > 0
    ensures forall k | i <= k < e && slots[k].count > 0 :: Filled(slots, stack, max, i, e).0[k] == slots[k]
    ensures forall k | i <= k < e && slots[k].count <= 0 && Filled(slots, stack, max, i, e).1.count > 0 ::
              Filled(slots, stack, max, i, e).0[k].count == max
    decreases e - i
  {
    hide Held;
    if i >= e || stack.count == 0 {
    } else {
      if slots[i].count > 0 {
        FilledKeeps(slots, stack, max, i + 1, e, kind);
      } else {
        var take := Min(stack.count, max);
        HeldAfter(slots, i, stack.(count := take), kind);
        FilledKeeps(slots[i := stack.(count := take)], stack.(count := stack.count - take), max, i + 1, e, kind);
      }
    }
  }

  lemma {:induction false} ToppedInTurn(slots: seq<Slot>, stack: Slot, max: int, i: nat, e: int)
    requires e <= |slots| && stack.count >= 0
    ensures var out := ToppedUp(slots, stack, max, i, e).0;
            |out| == |slots| && InTurn(slots, out, stack, max, i, e) && forall k | 0 <= k < i <= e :: out[k] == slots[k]
    decreases e - i
  {
    if i >= e || stack.count == 0 {
    } else if Room(slots[i], stack, max) <= 0 {
      ToppedInTurn(slots, stack, max, i + 1, e);
    } else {
      var take := Min(Room(slots[i], stack, max), stack.count);
      var more, rest := slots[i := slots[i].(count := slots[i].count + take)], stack.(count := stack.count - take);
      ToppedInTurn(more, rest, max, i + 1, e);
      if rest.count == 0 { assert ToppedUp(more, rest, max, i + 1, e).0 == more; }
    }
  }

  lemma {:induction false} FilledInTurn(slots: seq<Slot>, stack: Slot, max: int, i: nat, e: int)
    requires e <= |slots| && stack.count >= 0 && max > 0
    ensures var out := Filled(slots, stack, max, i, e).0;
            |out| == |slots| && EmptyInTurn(slots, out, max, i, e) && forall k | 0 <= k < i <= e :: out[k] == slots[k]
    decreases e - i
  {
    if i >= e || stack.count == 0 {
    } else if slots[i].count > 0 {
      FilledInTurn(slots, stack, max, i + 1, e);
    } else {
      var take := Min(stack.count, max);
      var more, rest := slots[i := stack.(count := take)], stack.(count := stack.count - take);
      FilledInTurn(more, rest, max, i + 1, e);
      if rest.count == 0 { assert Filled(more, rest, max, i + 1, e).0 == more; }
    }
  }

  /** One more item of the stack would fit: the slot is empty, or differs from the stack in nothing but its count. */
  predicate TakesOneMore(s: Slot, stack: Slot, max: int) {
    s.count <= 0 || (s.(count := stack.count) == stack && s.count < max)
  }

  /** The slot is one of the inventory's between the bounds, both included. */
  predicate InRange(k: int, start: int, end: int, size: nat) {
    0 <= k < size && start <= k <= end
  }

  /** The slot has come to hold more of the stack, up to the limit. */
  predicate Gained(before: Slot, after: Slot, stack: Slot, max: int) {
    && after.(count := stack.count) == stack && Amount(before) < after.count <= max
    && (before.count > 0 ==> before.(count := stack.count) == stack)
  }

  /** Slot `k` is used before slot `j` would be: only when `j` is full, if that matches, or is empty and earlier. */
  ghost predicate UsedInTurn(slots: seq<Slot>, out: seq<Slot>, stack: Slot, max: int, j: nat, k: nat)
    requires |out| == |slots| && j < |slots| && k < |slots|
  {
    out[k] != slots[k] ==>
      && (slots[j].count > 0 && slots[j].(count := stack.count) == stack && (j < k || slots[k].count <= 0) ==>
            out[j].count >= max)
      && (slots[j].count <= 0 && slots[k].count <= 0 && j < k ==> out[j].count >= max)
  }

  /**
     Inserting conserves every kind of item, touches only slots between the bounds and only
     to add the stack's kind up to the limit, leaves something over only when no slot there
     would take one more, and uses the slots in turn: matching ones first, in ascending
     order, and then empty ones, each only when those before it are full.
   */
  lemma AddedKeeps(slots: seq<Slot>, stack: Slot, max: int, start: int, end: int, kind: Slot)
    requires max > 0 && stack.count > 0
    ensures var out := Added(slots, stack, max, start, end);
            && |out.0| == |slots| && out.1 == stack.(count := out.1.count) && 0 <= out.1.count <= stack.count
            && Conserves(slots, out, stack, kind)
            && (forall k | 0 <= k < |slots| && out.0[k] != slots[k] ::
                  InRange(k, start, end, |slots|) && Gained(slots[k], out.0[k], stack, max))
            && (out.1.count > 0 ==> forall k | InRange(k, start, end, |slots|) :: !TakesOneMore(out.0[k], stack, max))
            && (forall j, k | InRange(j, start, end, |slots|) && InRange(k, start, end, |slots|) ::
                  UsedInTurn(slots, out.0, stack, max, j, k))
  {
    hide Held, ToppedUp, Filled;
    var i, e := First(start), Beyond(end, |slots|);
    var topped := ToppedUp(slots, stack, max, i, e);
    ToppedKeeps(slots, stack, max, i, e, kind);
    FilledKeeps(topped.0, topped.1, max, i, e, kind);
    ToppedInTurn(slots, stack, max, i, e);
    FilledInTurn(topped.0, topped.1, max, i, e);
    NothingLeft(topped.0, topped.1, max, i, e);
    var out := Added(slots, stack, max, start, end);
    forall k | 0 <= k < |slots| ensures InRange(k, start, end, |slots|) <==> i <= k < e {}
    forall k | 0 <= k < |slots| && out.0[k] != slots[k]
      ensures Gained(slots[k], out.0[k], stack, max)
    {
      assert Grew(slots[k], out.0[k], stack, max);
      GrewIsGained(slots[k], out.0[k], stack, max);
    }
    forall j, k | i <= j < e && i <= k < e
      ensures UsedInTurn(slots, out.0, stack, max, j, k)
    {
    }
  }

  lemma GrewIsGained(before: Slot, after: Slot, stack: Slot, max: int)
    requires Grew(before, after, stack, max) && after != before
    ensures Gained(before, after, stack, max)
  {
  }

  lemma NothingLeft(slots: seq<Slot>, stack: Slot, max: int, i: nat, e: int)
    requires e <= |slots|
    ensures stack.count <= 0 ==> Filled(slots, stack, max, i, e) == (slots, stack)
  {
  }

  // ----- the inventory

  class Instance {
    const slots: array<Slot>

    constructor (size: nat)
      ensures fresh(slots) && slots.Length == size && forall k | 0 <= k < size :: slots[k] == EMPTY
    {
      slots := new Slot[size](_ => EMPTY);
    }

    function Get(index: int): Slot
      reads slots
    {
      if index < 0 || index >= slots.Length then EMPTY else slots[index]
    }

    /** Whether the index was in bounds. */
    method Set(index: int, s: Slot) returns (ok: bool)
      modifies slots
      ensures ok <==> 0 <= index < slots.Length
      ensures slots[..] == if ok then old(slots[..])[index := s] else old(slots[..])
    {
      if index < 0 || index >= slots.Length { return false; }
      slots[index] := s;
      return true;
    }

    method AddItemRange(incoming: Slot, start: int, end: int, stackSize: int) returns (rest: Slot)
      modifies slots
      ensures (slots[..], rest) == Added(old(slots[..]), incoming, if stackSize <= 0 then 1 else stackSize, start, end)
    {
      if incoming.count <= 0 { return incoming; }
      var first := if start < 0 then 0 else start;
      var last := if end >= slots.Length then slots.Length - 1 else end;
      var max := if stackSize <= 0 then 1 else stackSize;
      ToppedLength(slots[..], incoming, max, first, last + 1);
      rest := TopUp(incoming, max, first, last);
      rest := FillEmpty(rest, max, first, last);
    }

    method TopUp(incoming: Slot, max: int, first: nat, last: int) returns (stack: Slot)
      requires last < slots.Length
      modifies slots
      ensures (slots[..], stack) == ToppedUp(old(slots[..]), incoming, max, first, last + 1)
    {
      hide Held;
      stack := incoming;
      var i := first;
      while i <= last && stack.count > 0
        invariant first <= i
        invariant ToppedUp(slots[..], stack, max, i, last + 1)
                  == ToppedUp(old(slots[..]), incoming, max, first, last + 1)
        decreases last - i
      {
        var existing := slots[i];
        if !StacksWith(existing, stack) {
          i := i + 1;
          continue;
        }
        var room := max - existing.count;
        if room <= 0 {
          i := i + 1;
          continue;
        }
        var take := room;
        if take > stack.count { take := stack.count; }
        ghost var before := slots[..];
        slots[i] := existing.(count := existing.count + take);
        assert slots[..] == before[i := slots[i]];
        stack := stack.(count := stack.count - take);
        i := i + 1;
      }
    }

    method FillEmpty(incoming: Slot, max: int, first: nat, last: int) returns (stack: Slot)
      requires last < slots.Length
      modifies slots
      ensures (slots[..], stack) == Filled(old(slots[..]), incoming, max, first, last + 1)
    {
      hide Held;
      stack := incoming;
      var i := first;
      while i <= last && stack.count > 0
        invariant first <= i
        invariant Filled(slots[..], stack, max, i, last + 1) == Filled(old(slots[..]), incoming, max, first, last + 1)
        decreases last - i
      {
        if slots[i].count > 0 {
          i := i + 1;
          continue;
        }
        var take := stack.count;
        if take > max { take := max; }
        ghost var before := slots[..];
        slots[i] := stack.(count := take);
        assert slots[..] == before[i := slots[i]];
        stack := stack.(count := stack.count - take);
        i := i + 1;
      }
    }

    method AddItem(stack: Slot, stackSize: int) returns (rest: Slot)
      modifies slots
      ensures (slots[..], rest)
              == Added(old(slots[..]), stack, if stackSize <= 0 then 1 else stackSize, 0, slots.Length - 1)
    {
      rest := AddItemRange(stack, 0, slots.Length - 1, stackSize);
    }
  }
}
