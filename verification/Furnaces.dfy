/** The furnace: burning fuel, smelting, and what its timers and slots keep over any run of ticks. */
module Furnaces {
  import opened Wrappers
  import opened Containers

  const INPUT := 0
  const FUEL := 1
  const OUTPUT := 2
  const COOK_TIME := 200

  /** Recipes by input, burn ticks by fuel, and stack sizes. */
  datatype Rules = Rules(recipes: map<int, int>, burnTicks: map<int, int>, stackSize: int -> int)

  ghost predicate Sane(rules: Rules) {
    && (forall k | k in rules.burnTicks :: rules.burnTicks[k] > 0)
    && (forall id: int :: rules.stackSize(id) >= 1)
  }

  datatype State = State(input: Slot, fuel: Slot, output: Slot, lit: int, cook: int)

  predicate IsLit(s: State) {
    s.lit > 0
  }

  /** What smelting the input would give, when it can be smelted and there is room for it. */
  function SmeltResult(rules: Rules, s: State): Option<int> {
    if s.input.count <= 0 || s.input.itemID !in rules.recipes then None
    else
      var result := rules.recipes[s.input.itemID];
      if s.output.count <= 0 then Some(result)
      else if s.output.itemID != result || s.output.count >= rules.stackSize(s.output.itemID) then None
      else Some(result)
  }

  function Taken(s: Slot): Slot {
    if s.count - 1 <= 0 then EMPTY else s.(count := s.count - 1)
  }

  function Given(s: Slot, result: int): Slot {
    if s.count <= 0 then Slot(result, None, None, 1) else s.(count := s.count + 1)
  }

  predicate HasFuel(rules: Rules, s: State) {
    s.fuel.itemID in rules.burnTicks && s.fuel.count > 0
  }

  function BurnDown(s: State): State {
    if s.lit > 0 then s.(lit := s.lit - 1) else s
  }

  /** Light the furnace when it is out and there is something to smelt and to burn. */
  function Relit(rules: Rules, s: State): State {
    if !IsLit(s) && SmeltResult(rules, s).Some? && HasFuel(rules, s) then
      s.(lit := rules.burnTicks[s.fuel.itemID], fuel := Taken(s.fuel))
    else s
  }

  function Cooked(rules: Rules, s: State): State {
    var result := SmeltResult(rules, s);
    if IsLit(s) && result.Some? then
      if s.cook + 1 >= COOK_TIME then
        s.(cook := 0, input := Taken(s.input), output := Given(s.output, result.value))
      else s.(cook := s.cook + 1)
    else if s.cook > 0 then s.(cook := if s.cook - 2 < 0 then 0 else s.cook - 2)
    else s
  }

  function Ticked(rules: Rules, s: State): State {
    Cooked(rules, Relit(rules, BurnDown(s)))
  }

  // ----- accounts

  /** Burn ticks bought and items smelted by one tick. */
  function Bought(rules: Rules, s: State): int {
    Relit(rules, BurnDown(s)).lit - BurnDown(s).lit
  }

  function Smelted(rules: Rules, s: State): int {
    Amount(s.input) - Amount(Ticked(rules, s).input)
  }

  /** What the timers may be at any time. */
  predicate Timed(s: State) {
    0 <= s.lit && 0 <= s.cook < COOK_TIME
  }

  predicate OutputFits(rules: Rules, s: State) {
    s.output.count > 0 ==> s.output.count <= rules.stackSize(s.output.itemID)
  }

  /** What a furnace may be at any time, if no one overfills its output. */
  predicate Sound(rules: Rules, s: State) {
    Timed(s) && OutputFits(rules, s)
  }

  /** Nothing appears or disappears: what leaves the input arrives in the output, as its recipe says. */
  lemma TickConserves(rules: Rules, s: State)
    requires Sane(rules) && Timed(s)
    ensures var t := Ticked(rules, s);
            && Timed(t) && (OutputFits(rules, s) ==> OutputFits(rules, t))
            && Amount(t.input) + Amount(t.output) == Amount(s.input) + Amount(s.output)
            && ((t.input == s.input && t.output == s.output)
                || (Smelted(rules, s) == 1 && s.input.itemID in rules.recipes &&
                     t.output.itemID == rules.recipes[s.input.itemID]))
            && (Amount(s.fuel) - Amount(t.fuel) == if Bought(rules, s) > 0 then 1 else 0)
  {
  }

  /** Time: a smelted item takes 200 ticks of burning, and burning is paid for. */
  lemma TickPays(rules: Rules, s: State)
    requires Sane(rules) && Timed(s)
    ensures var t := Ticked(rules, s);
            COOK_TIME * Smelted(rules, s) + t.cook - s.cook <=
            Bought(rules, s) - (t.lit - s.lit) + (if IsLit(t) then 1 else 0) - (if IsLit(s) then 1 else 0)
    ensures Bought(rules, s) >= 0 && 0 <= Smelted(rules, s) <= 1
  {
  }

  // ----- runs

  /** Between ticks, players may change any slot. */
  datatype Event = Tick | Put(slot: int, s: Slot)

  function Applied(rules: Rules, s: State, e: Event): State {
    match e
    case Tick => Ticked(rules, s)
    case Put(k, x) =>
      if k == INPUT then s.(input := x)
      else if k == FUEL then s.(fuel := x)
      else if k == OUTPUT then s.(output := x)
      else s
  }

  function Run(rules: Rules, s: State, es: seq<Event>): State
    decreases |es|
  {
    if es == [] then s else Run(rules, Applied(rules, s, es[0]), es[1..])
  }

  function TotalBought(rules: Rules, s: State, es: seq<Event>): int
    decreases |es|
  {
    if es == [] then 0
    else (if es[0].Tick? then Bought(rules, s) else 0) + TotalBought(rules, Applied(rules, s, es[0]), es[1..])
  }

  function TotalSmelted(rules: Rules, s: State, es: seq<Event>): int
    decreases |es|
  {
    if es == [] then 0
    else (if es[0].Tick? then Smelted(rules, s) else 0) + TotalSmelted(rules, Applied(rules, s, es[0]), es[1..])
  }

  /** What goes into the output slot is no more than a stack. */
  predicate Allowed(rules: Rules, e: Event) {
    e.Put? && e.slot == OUTPUT && e.s.count > 0 ==> e.s.count <= rules.stackSize(e.s.itemID)
  }

  lemma Timers(rules: Rules, s: State, e: Event)
    requires Sane(rules) && Timed(s)
    ensures Timed(Applied(rules, s, e))
    ensures e.Put? ==> Applied(rules, s, e).lit == s.lit && Applied(rules, s, e).cook == s.cook
    ensures OutputFits(rules, s) && Allowed(rules, e) ==> OutputFits(rules, Applied(rules, s, e))
  {
    if e.Tick? { TickConserves(rules, s); }
  }

  /** Over every run, with players putting anything anywhere at any time, burning pays for smelting. */
  lemma {:induction false} RunPays(rules: Rules, s: State, es: seq<Event>)
    requires Sane(rules) && Timed(s)
    ensures Timed(Run(rules, s, es))
    ensures var t := Run(rules, s, es);
            COOK_TIME * TotalSmelted(rules, s, es) + t.cook - s.cook <=
            TotalBought(rules, s, es) - (t.lit - s.lit) + (if IsLit(t) then 1 else 0) - (if IsLit(s) then 1 else 0)
    decreases |es|
  {
    hide Ticked, Bought, Smelted, Sane, Allowed, OutputFits;
    if es == [] {
    } else {
      Timers(rules, s, es[0]);
      if es[0].Tick? { TickPays(rules, s); }
      RunPays(rules, Applied(rules, s, es[0]), es[1..]);
    }
  }

  /** A new furnace smelts at most one item per 200 ticks of fuel it has bought. */
  lemma NewFurnacePays(rules: Rules, s: State, es: seq<Event>)
    requires Sane(rules) && s.lit == 0 && s.cook == 0
    ensures var t := Run(rules, s, es);
            COOK_TIME * TotalSmelted(rules, s, es) + t.cook
            <= TotalBought(rules, s, es) - t.lit + if IsLit(t) then 1 else 0
  {
    RunPays(rules, s, es);
  }

  /** The output stays within its stack over every run in which no one puts more there. */
  lemma {:induction false} OutputStaysWithin(rules: Rules, s: State, es: seq<Event>)
    requires Sane(rules) && Sound(rules, s) && forall i | 0 <= i < |es| :: Allowed(rules, es[i])
    ensures Sound(rules, Run(rules, s, es))
    decreases |es|
  {
    hide Ticked, Sane, OutputFits, Allowed;
    if es == [] {
    } else {
      Timers(rules, s, es[0]);
      OutputStaysWithin(rules, Applied(rules, s, es[0]), es[1..]);
    }
  }

  /** Left to itself, a furnace keeps its items and never overfills its output. */
  lemma {:induction false} TicksConserve(rules: Rules, s: State, es: seq<Event>)
    requires Sane(rules) && Sound(rules, s) && forall i | 0 <= i < |es| :: es[i].Tick?
    ensures Sound(rules, Run(rules, s, es))
    ensures Amount(Run(rules, s, es).input) + Amount(Run(rules, s, es).output) == Amount(s.input) + Amount(s.output)
    decreases |es|
  {
    hide Ticked, Sane;
    if es == [] {
    } else {
      TickConserves(rules, s);
      TicksConserve(rules, Applied(rules, s, es[0]), es[1..]);
    }
  }

  // ----- progress

  /** The input has a recipe, and its result fits on what is in the output. */
  predicate Smeltable(rules: Rules, s: State) {
    && s.input.count > 0 && s.input.itemID in rules.recipes
    && (s.output.count > 0 ==>
          s.output.itemID == rules.recipes[s.input.itemID] && s.output.count < rules.stackSize(s.output.itemID))
  }

  /** It burns on into the next tick, or has fuel to light with. */
  predicate Burns(rules: Rules, s: State) {
    s.lit > 1 || (s.fuel.count > 0 && s.fuel.itemID in rules.burnTicks)
  }

  /** One item less of the same kind, nothing if it was the last. */
  predicate OneLess(a: Slot, b: Slot) {
    if a.count == 1 then b == EMPTY else b == a.(count := a.count - 1)
  }

  /** One item of the kind more. */
  predicate OneMore(a: Slot, b: Slot, id: int) {
    if a.count <= 0 then b == Slot(id, None, None, 1) else b == a.(count := a.count + 1)
  }

  /** A tick that smelts on: a timer step, or after the last of them one result for one item. */
  lemma SmeltsOn(rules: Rules, s: State)
    requires Sane(rules) && Timed(s) && Smeltable(rules, s) && Burns(rules, s)
    ensures var t := Ticked(rules, s);
            && (s.cook < COOK_TIME - 1 ==> t.cook == s.cook + 1 && t.input == s.input && t.output == s.output)
            && (s.cook == COOK_TIME - 1 ==>
                  && t.cook == 0 && OneLess(s.input, t.input)
                  && OneMore(s.output, t.output, rules.recipes[s.input.itemID]))
            && (s.lit > 1 ==> t.lit == s.lit - 1 && t.fuel == s.fuel)
            && (s.lit <= 1 ==> t.lit == rules.burnTicks[s.fuel.itemID] && OneLess(s.fuel, t.fuel))
  {
  }

  /** A tick that cannot smelt takes two steps back, and touches no slot. */
  lemma Cools(rules: Rules, s: State)
    requires Sane(rules) && Timed(s) && !(Smeltable(rules, s) && Burns(rules, s))
    ensures Ticked(rules, s) == s.(lit := if s.lit > 0 then s.lit - 1 else 0,
                                   cook := if s.cook > 2 then s.cook - 2 else 0)
  {
  }

  function Ticks(n: nat): (es: seq<Event>)
    ensures |es| == n && forall i | 0 <= i < n :: es[i].Tick?
  {
    seq(n, _ => Tick)
  }

  lemma OneTickThen(rules: Rules, s: State, n: nat)
    requires n > 0
    ensures Run(rules, s, Ticks(n)) == Run(rules, Ticked(rules, s), Ticks(n - 1))
  {
    assert Ticks(n)[1..] == Ticks(n - 1);
  }

  /**
   With a recipe for the input, room for its result, and burn ticks left for as long as it
   takes, the rest of the 200 ticks turn exactly one item into its result.
   */
  lemma {:induction false} SmeltsInTime(rules: Rules, s: State)
    requires Sane(rules) && Timed(s) && Smeltable(rules, s) && s.lit > COOK_TIME - s.cook
    ensures var n := COOK_TIME - s.cook;
            var t := Run(rules, s, Ticks(n));
            && t.cook == 0 && t.lit == s.lit - n && t.fuel == s.fuel
            && OneLess(s.input, t.input) && OneMore(s.output, t.output, rules.recipes[s.input.itemID])
    decreases COOK_TIME - s.cook
  {
    hide Ticked;
    SmeltsOn(rules, s);
    OneTickThen(rules, s, COOK_TIME - s.cook);
    if s.cook == COOK_TIME - 1 {
      assert Run(rules, Ticked(rules, s), Ticks(0)) == Ticked(rules, s);
    } else {
      SmeltsInTime(rules, Ticked(rules, s));
    }
  }

  /** Left without anything to smelt, the progress is gone after half as many ticks, and no slot changes. */
  lemma {:induction false} CoolsDown(rules: Rules, s: State, n: nat)
    requires Sane(rules) && Timed(s) && !Smeltable(rules, s)
    ensures Run(rules, s, Ticks(n)) == s.(lit := if s.lit > n then s.lit - n else 0,
                                          cook := if s.cook > 2 * n then s.cook - 2 * n else 0)
    decreases n
  {
    hide Ticked;
    if n == 0 {
    } else {
      Cools(rules, s);
      OneTickThen(rules, s, n);
      CoolsDown(rules, Ticked(rules, s), n - 1);
    }
  }

  /** What could be smelted throughout a run, and was burnt for. */
  predicate Busy(rules: Rules, s: State, n: nat)
    decreases n
  {
    n == 0 || (Smeltable(rules, s) && Burns(rules, s) && Busy(rules, Ticked(rules, s), n - 1))
  }

  /** Every busy tick is one 200th of an item, through the relighting of any number of fuels. */
  lemma {:induction false} BusyProgress(rules: Rules, s: State, n: nat)
    requires Sane(rules) && Timed(s) && Busy(rules, s, n)
    ensures COOK_TIME * TotalSmelted(rules, s, Ticks(n)) + Run(rules, s, Ticks(n)).cook - s.cook == n
    decreases n
  {
    hide Ticked, Smelted;
    if n == 0 {
    } else {
      SmeltsOn(rules, s);
      OneSmelted(rules, s);
      TickConserves(rules, s);
      OneTickThen(rules, s, n);
      assert Ticks(n)[1..] == Ticks(n - 1);
      BusyProgress(rules, Ticked(rules, s), n - 1);
    }
  }

  lemma OneSmelted(rules: Rules, s: State)
    requires Sane(rules) && Timed(s) && Smeltable(rules, s) && Burns(rules, s)
    ensures Smelted(rules, s) == if s.cook == COOK_TIME - 1 then 1 else 0
  {
  }

  // ----- the block entity

  class Furnace {
    const inv: Instance
    const litState: int
    const unlitState: int
    var litTimeRemaining: int
    var litTotalTime: int
    var cookingTimeSpent: int
    const cookingTotalTime: int

    ghost predicate Valid()
      reads this
    {
      inv.slots.Length == 3 && cookingTotalTime == COOK_TIME
    }

    constructor (litState: int, unlitState: int)
      ensures Valid() && fresh(inv.slots) && this.litState == litState && this.unlitState == unlitState
      ensures View() == State(EMPTY, EMPTY, EMPTY, 0, 0)
    {
      inv := new Instance(3);
      this.litState, this.unlitState := litState, unlitState;
      litTimeRemaining, litTotalTime, cookingTimeSpent := 0, 0, 0;
      cookingTotalTime := COOK_TIME;
    }

    ghost function View(): State
      requires Valid()
      reads this, inv.slots
    {
      State(inv.slots[INPUT], inv.slots[FUEL], inv.slots[OUTPUT], litTimeRemaining, cookingTimeSpent)
    }

    function IsBurning(): bool
      reads this
    {
      litTimeRemaining > 0
    }

    function Result(rules: Rules, input: Slot): Option<int>
      reads this, inv.slots
    {
      if input.count <= 0 then None
      else if input.itemID !in rules.recipes then None
      else
        var result, out := rules.recipes[input.itemID], inv.Get(OUTPUT);
        if out.count <= 0 then Some(result)
        else if out.itemID != result then None
        else if out.count >= rules.stackSize(out.itemID) then None
        else Some(result)
    }

    method ConsumeFuel(rules: Rules)
      requires Valid()
      modifies this, inv.slots
      ensures Valid()
      ensures View() == if HasFuel(rules, old(View()))
                        then old(View()).(lit := rules.burnTicks[old(View()).fuel.itemID],
                                          fuel := Taken(old(View()).fuel))
                        else old(View())
    {
      var fuel := inv.Get(FUEL);
      if fuel.itemID !in rules.burnTicks || fuel.count <= 0 { return; }
      var burn := rules.burnTicks[fuel.itemID];
      litTimeRemaining := burn;
      litTotalTime := burn;
      fuel := fuel.(count := fuel.count - 1);
      if fuel.count <= 0 { fuel := EMPTY; }
      ghost var before := inv.slots[..];
      var _ := inv.Set(FUEL, fuel);
      assert inv.slots[..][INPUT] == before[INPUT] && inv.slots[..][FUEL] == fuel &&
             inv.slots[..][OUTPUT] == before[OUTPUT];
    }

    method SmeltOne(result: int)
      requires Valid()
      modifies this, inv.slots
      ensures Valid()
      ensures View() == old(View()).(input := Taken(old(View()).input), output := Given(old(View()).output, result))
    {
      var input := inv.Get(INPUT);
      input := input.(count := input.count - 1);
      if input.count <= 0 { input := EMPTY; }
      ghost var before := inv.slots[..];
      var _ := inv.Set(INPUT, input);
      ghost var between := inv.slots[..];
      assert between[FUEL] == before[FUEL] && between[OUTPUT] == before[OUTPUT] && between[INPUT] == input;
      var out := inv.Get(OUTPUT);
      if out.count <= 0 { out := Slot(result, None, None, 1); } else { out := out.(count := out.count + 1); }
      var _ := inv.Set(OUTPUT, out);
      assert inv.slots[..][INPUT] == between[INPUT] && inv.slots[..][FUEL] == between[FUEL] &&
             inv.slots[..][OUTPUT] == out;
    }

    /** One tick; returns the block state to show, when it changes. */
    method Tick(rules: Rules) returns (pushed: Option<int>)
      requires Valid()
      modifies this, inv.slots
      ensures Valid() && View() == Ticked(rules, old(View()))
      ensures pushed == if IsLit(View()) == IsLit(old(View())) then None
                        else Some(if IsLit(View()) then litState else unlitState)
    {
      var wasLit := IsBurning();
      if litTimeRemaining > 0 { litTimeRemaining := litTimeRemaining - 1; }
      var input := inv.Get(INPUT);
      var result := Result(rules, input);
      if !IsBurning() && result.Some? { ConsumeFuel(rules); }
      if IsBurning() && result.Some? {
        cookingTimeSpent := cookingTimeSpent + 1;
        if cookingTimeSpent >= cookingTotalTime {
          cookingTimeSpent := 0;
          SmeltOne(result.value);
        }
      } else if cookingTimeSpent > 0 {
        cookingTimeSpent := cookingTimeSpent - 2;
        if cookingTimeSpent < 0 { cookingTimeSpent := 0; }
      }
      var nowLit := IsBurning();
      if nowLit != wasLit {
        return Some(if nowLit then litState else unlitState);
      }
      return None;
    }

    /**
     Any number of ticks, each pushing its block state on: the block shows the lit state
     exactly while the furnace burns, and no item is lost.
     */
    method TickMany(rules: Rules, n: nat, shown: int) returns (showing: int)
      requires Valid() && Sane(rules) && Sound(rules, View()) && shown == if IsLit(View()) then litState else unlitState
      modifies this, inv.slots
      ensures Valid() && Sound(rules, View()) && showing == if IsLit(View()) then litState else unlitState
      ensures Amount(View().input) + Amount(View().output) == old(Amount(View().input) + Amount(View().output))
    {
      hide Ticked;
      showing := shown;
      for k := 0 to n
        invariant Valid() && Sound(rules, View()) && showing == if IsLit(View()) then litState else unlitState
        invariant Amount(View().input) + Amount(View().output) == old(Amount(View().input) + Amount(View().output))
      {
        TickConserves(rules, View());
        var pushed := Tick(rules);
        if pushed.Some? { showing := pushed.value; }
      }
    }
  }
}
