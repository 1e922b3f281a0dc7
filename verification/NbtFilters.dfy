/**
 What a filter is: something that can be cut out of a tag by leaving out members and by
 picking list elements, in any order and as often as one likes.
 */
module NbtFilters {
  import opened NbtTrees

  /** A way to cut a tag down: keep it, keep some members cut down, or pick elements cut down. */
  datatype Cut = Whole | Members(cuts: map<string, Cut>) | Picked(at: seq<nat>, picks: seq<Cut>)

  predicate Fits(t: Tree, cut: Cut)
    decreases cut
  {
    match cut
    case Whole => true
    case Members(cuts) => t.Comp? && forall k | k in cuts :: k in t.members && Fits(t.members[k], cuts[k])
    case Picked(at, picks) =>
      && IsSlice(t) && |at| == |picks|
      && forall i | 0 <= i < |picks| :: at[i] < |Elements(t)| && Fits(Elements(t)[at[i]], picks[i])
  }

  function Apply(t: Tree, cut: Cut): Tree
    requires Fits(t, cut)
    decreases cut
  {
    match cut
    case Whole => t
    case Members(cuts) => Comp(map k | k in cuts :: Apply(t.members[k], cuts[k]))
    case Picked(at, picks) => List(seq(|picks|, i requires 0 <= i < |picks| => Apply(Elements(t)[at[i]], picks[i])))
  }

  /** The tag with every typed array written as the list of its elements. */
  function Plain(t: Tree): Tree
    decreases t
  {
    match t
    case Comp(ms) => Comp(map k | k in ms :: Plain(ms[k]))
    case List(es) => List(seq(|es|, i requires 0 <= i < |es| => Plain(es[i])))
    case _ => if IsArray(t) then List(Unpacked(t)) else t
  }

  /** The cut makes the filter out of the tag. */
  ghost predicate Makes(t: Tree, filter: Tree, cut: Cut) {
    Fits(t, cut) && Plain(Apply(t, cut)) == Plain(filter)
  }

  ghost predicate CanMake(t: Tree, filter: Tree) {
    exists cut :: Makes(t, filter, cut)
  }

  ghost function CutFor(t: Tree, filter: Tree): (cut: Cut)
    requires CanMake(t, filter)
    ensures Makes(t, filter, cut)
  {
    var cut :| Makes(t, filter, cut);
    cut
  }

  /** A typed array and the list of its elements are the same, plainly. */
  lemma PlainArray(t: Tree)
    requires IsArray(t)
    ensures Plain(List(Unpacked(t))) == Plain(t)
  {
    var es := Unpacked(t);
    forall i | 0 <= i < |es| ensures Plain(es[i]) == es[i] {}
    assert seq(|es|, i requires 0 <= i < |es| => Plain(es[i])) == es;
  }

  lemma PlainIs(t: Tree)
    ensures Plain(t).Comp? <==> t.Comp?
    ensures Plain(t).List? <==> IsSlice(t)
    ensures t.Comp? ==> Plain(t).members == map k | k in t.members :: Plain(t.members[k])
    ensures IsSlice(t) ==> |Plain(t).items| == |Elements(t)| &&
                           forall i | 0 <= i < |Elements(t)| :: Plain(t).items[i] == Plain(Elements(t)[i])
    ensures IsScalar(t) ==> Plain(t) == t
    ensures !IsScalar(t) ==> !IsScalar(Plain(t))
  {
    if IsArray(t) { PlainArray(t); }
  }

  // ----- what matches can be cut out

  lemma CutMembers(t: Tree, filter: Tree)
    requires t.Comp? && filter.Comp? && filter.members.Keys <= t.members.Keys
    requires forall k | k in filter.members :: CanMake(t.members[k], filter.members[k])
    ensures CanMake(t, filter)
  {
    hide CanMake;
    var fs := filter.members;
    var cuts := map k | k in fs :: CutFor(t.members[k], fs[k]);
    forall k | k in fs ensures Makes(t.members[k], fs[k], cuts[k]) {}
    MembersMake(t, filter, cuts);
    Made(t, filter, Members(cuts));
  }

  lemma MembersMake(t: Tree, filter: Tree, cuts: map<string, Cut>)
    requires t.Comp? && filter.Comp? && cuts.Keys == filter.members.Keys <= t.members.Keys
    requires forall k | k in cuts :: Makes(t.members[k], filter.members[k], cuts[k])
    ensures Makes(t, filter, Members(cuts))
  {
    hide Plain;
    assert Fits(t, Members(cuts)) by {
      forall k | k in cuts ensures Fits(t.members[k], cuts[k]) {
        assert Makes(t.members[k], filter.members[k], cuts[k]);
      }
    }
    var made := Apply(t, Members(cuts));
    PlainIs(made);
    PlainIs(filter);
    forall k | k in cuts ensures Plain(made.members[k]) == Plain(filter.members[k]) {
      assert Makes(t.members[k], filter.members[k], cuts[k]);
    }
    assert Plain(made).members == Plain(filter).members;
  }

  lemma Made(t: Tree, filter: Tree, cut: Cut)
    requires Makes(t, filter, cut)
    ensures CanMake(t, filter)
  {
  }

  lemma CutItems(t: Tree, filter: Tree, at: seq<nat>)
    requires IsSlice(t) && filter.List? && |at| == |filter.items|
    requires forall i | 0 <= i < |at| :: at[i] < |Elements(t)| && CanMake(Elements(t)[at[i]], filter.items[i])
    ensures CanMake(t, filter)
  {
    hide CanMake, Elements;
    var fs := filter.items;
    var picks := seq(|at|, i requires 0 <= i < |at| => CutFor(Elements(t)[at[i]], fs[i]));
    forall i | 0 <= i < |at| ensures Makes(Elements(t)[at[i]], fs[i], picks[i]) {}
    var cut := Picked(at, picks);
    assert Fits(t, cut);
    assert Plain(Apply(t, cut)) == Plain(filter);
    Made(t, filter, cut);
  }

  lemma {:induction false} MatchCanMake(t: Tree, filter: Tree)
    requires Match(t, filter)
    ensures CanMake(t, filter)
    decreases filter, 1
  {
    hide CanMake, Match, Has;
    if filter.Comp? {
      MatchIsBelow(t, filter);
      forall k | k in filter.members ensures CanMake(t.members[k], filter.members[k]) {
        MatchCanMake(t.members[k], filter.members[k]);
      }
      CutMembers(t, filter);
    } else if filter.List? {
      MatchIsBelow(t, filter);
      ListCanMake(t, filter);
    } else if IsArray(filter) {
      ArrayCanMake(t, filter);
    } else {
      MatchIsBelow(t, filter);
      Made(t, filter, Whole);
    }
  }

  lemma ListCanMake(t: Tree, filter: Tree)
    requires IsSlice(t) && filter.List? && forall i | 0 <= i < |filter.items| :: Has(t, filter.items[i])
    ensures CanMake(t, filter)
    decreases filter, 0
  {
    hide CanMake, Match, Elements;
    var fs := filter.items;
    forall i | 0 <= i < |fs|
      ensures exists j: nat :: j < |Elements(t)| && CanMake(Elements(t)[j], fs[i])
    {
      assert Has(t, fs[i]);
      var j: nat :| j < |Elements(t)| && Match(Elements(t)[j], fs[i]);
      MatchCanMake(Elements(t)[j], fs[i]);
    }
    var at := seq(|fs|, i requires 0 <= i < |fs| => PickFor(t, fs[i]));
    CutItems(t, filter, at);
  }

  ghost function PickFor(t: Tree, wanted: Tree): (j: nat)
    requires IsSlice(t) && exists j: nat :: j < |Elements(t)| && CanMake(Elements(t)[j], wanted)
    ensures j < |Elements(t)| && CanMake(Elements(t)[j], wanted)
  {
    var j: nat :| j < |Elements(t)| && CanMake(Elements(t)[j], wanted);
    j
  }

  lemma ArrayCanMake(t: Tree, filter: Tree)
    requires IsArray(filter) && Match(t, filter)
    ensures CanMake(t, filter)
  {
    hide CanMake, Elements;
    var es := Unpacked(filter);
    forall i | 0 <= i < |es|
      ensures exists j: nat :: j < |Elements(t)| && CanMake(Elements(t)[j], es[i])
    {
      assert es[i] in Elements(t);
      var j: nat :| j < |Elements(t)| && Elements(t)[j] == es[i];
      Made(Elements(t)[j], es[i], Whole);
    }
    CutItems(t, List(es), seq(|es|, i requires 0 <= i < |es| => PickFor(t, es[i])));
    PlainArray(filter);
    Made(t, filter, CutFor(t, List(es)));
  }

  /** What matching asks for, one level down. */
  lemma MatchIsBelow(t: Tree, filter: Tree)
    ensures filter.Comp? ==>
              (Match(t, filter) <==>
                 t.Comp? && forall k | k in filter.members :: k in t.members && Match(t.members[k], filter.members[k]))
    ensures filter.List? ==>
              (Match(t, filter) <==> IsSlice(t) && forall i | 0 <= i < |filter.items| :: Has(t, filter.items[i]))
    ensures IsScalar(filter) ==> (Match(t, filter) <==> t == filter)
  {
    hide Has, Elements, Unpacked;
  }

  // ----- what can be cut out matches

  /** Tags that are plainly the same match. */
  lemma {:induction false} PlainlySameMatch(t: Tree, filter: Tree)
    requires Plain(t) == Plain(filter)
    ensures Match(t, filter)
    decreases filter, 1
  {
    hide Match, Plain, Elements;
    PlainIs(t);
    PlainIs(filter);
    MatchIsBelow(t, filter);
    if filter.Comp? {
      assert t.members.Keys == Plain(t).members.Keys == filter.members.Keys;
      forall k | k in filter.members ensures Match(t.members[k], filter.members[k]) {
        assert Plain(t).members[k] == Plain(t.members[k]);
        PlainlySameMatch(t.members[k], filter.members[k]);
      }
    } else if IsSlice(filter) {
      SameSlicesMatch(t, filter);
    }
  }

  lemma SameSlicesMatch(t: Tree, filter: Tree)
    requires IsSlice(filter) && Plain(t) == Plain(filter)
    ensures Match(t, filter)
    decreases filter, 0
  {
    hide Match, Plain;
    PlainIs(t);
    PlainIs(filter);
    var list := if filter.List? then filter else List(Unpacked(filter));
    assert list.items == Elements(filter);
    forall i | 0 <= i < |list.items| ensures Has(t, list.items[i]) {
      if filter.List? {
        PlainlySameMatch(Elements(t)[i], list.items[i]);
      } else {
        PlainIs(list.items[i]);
        PlainIs(Elements(t)[i]);
        MatchIsBelow(Elements(t)[i], list.items[i]);
      }
      assert Match(Elements(t)[i], list.items[i]);
    }
    MatchIsBelow(t, list);
    if IsArray(filter) { ArrayFilter(t, filter); }
  }

  lemma {:induction false} MadeMatches(t: Tree, filter: Tree, cut: Cut)
    requires Makes(t, filter, cut)
    ensures Match(t, filter)
    decreases cut
  {
    hide Match, Plain, Elements;
    PlainIs(filter);
    PlainIs(Apply(t, cut));
    match cut {
      case Whole =>
        PlainlySameMatch(t, filter);
      case Members(cuts) =>
        MatchIsBelow(t, filter);
        var made := Apply(t, cut);
        assert filter.members.Keys == Plain(filter).members.Keys == made.members.Keys;
        forall k | k in filter.members ensures k in t.members && Match(t.members[k], filter.members[k]) {
          assert Plain(made).members[k] == Plain(made.members[k]);
          assert Plain(filter).members[k] == Plain(filter.members[k]);
          MadeMatches(t.members[k], filter.members[k], cuts[k]);
        }
      case Picked(at, picks) =>
        var list := List(Elements(filter));
        var made := Apply(t, cut);
        ListOfElements(filter);
        ListOfElements(made);
        forall i | 0 <= i < |list.items| ensures Has(t, list.items[i]) {
          assert Plain(made).items[i] == Plain(made.items[i]);
          assert Plain(filter).items[i] == Plain(list.items[i]);
          MadeMatches(Elements(t)[at[i]], list.items[i], picks[i]);
        }
        MatchIsBelow(t, list);
        if IsArray(filter) { ArrayFilter(t, filter); }
    }
  }

  lemma ListOfElements(t: Tree)
    requires IsSlice(t)
    ensures t.List? ==> t == List(Elements(t))
    ensures IsArray(t) ==> Elements(t) == Unpacked(t)
  {
  }

  /**
   A tag matches a filter if and only if the filter can be cut out of it, a typed array
   counting as the list of its elements.
   */
  lemma MatchIsCut(t: Tree, filter: Tree)
    ensures Match(t, filter) <==> exists cut :: Makes(t, filter, cut)
  {
    hide Match, Makes;
    if Match(t, filter) { MatchCanMake(t, filter); }
    forall cut | Makes(t, filter, cut) ensures Match(t, filter) { MadeMatches(t, filter, cut); }
  }
}
