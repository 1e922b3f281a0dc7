/** NBT values as trees, the subset match of path filters, and the recursive merge. */
module NbtTrees {
  /**
     A tag. Floats are real numbers here. An unsigned byte only ever stands for an
     element of a byte array, which is not of the signed byte type.
   */
  datatype Tree =
    | Comp(members: map<string, Tree>)
    | List(items: seq<Tree>)
    | Bytes(bytes: seq<int>)
    | Ints(ints: seq<int>)
    | Longs(longs: seq<int>)
    | Byte(n: int)
    | UByte(n: int)
    | Short(n: int)
    | Int(n: int)
    | Long(n: int)
    | Float(x: real)
    | Double(x: real)
    | Str(text: string)
    | Bool(b: bool)

  predicate IsArray(t: Tree) {
    t.Bytes? || t.Ints? || t.Longs?
  }

  /** Anything with elements: a list or a typed array. */
  predicate IsSlice(t: Tree) {
    t.List? || IsArray(t)
  }

  predicate IsScalar(t: Tree) {
    !t.Comp? && !IsSlice(t)
  }

  /** The elements of a typed array, each as a tag of its own. */
  function Unpacked(t: Tree): (es: seq<Tree>)
    requires IsArray(t)
    ensures forall i | 0 <= i < |es| :: IsScalar(es[i])
  {
    match t
    case Bytes(bs) => seq(|bs|, i requires 0 <= i < |bs| => UByte(bs[i] % 256))
    case Ints(ns) => seq(|ns|, i requires 0 <= i < |ns| => Int(ns[i]))
    case Longs(ns) => seq(|ns|, i requires 0 <= i < |ns| => Long(ns[i]))
  }

  function Elements(t: Tree): seq<Tree>
    requires IsSlice(t)
  {
    if t.List? then t.items else Unpacked(t)
  }

  /**
     Whether a candidate has at least what a filter asks for: members by name, list
     elements in any position, everything else equal.
   */
  predicate Match(candidate: Tree, filter: Tree)
    decreases filter, 0
  {
    match filter
    case Comp(fs) =>
      candidate.Comp? && forall k | k in fs :: k in candidate.members && Match(candidate.members[k], fs[k])
    case List(fs) =>
      IsSlice(candidate) && forall i | 0 <= i < |fs| :: Has(candidate, fs[i])
    case _ =>
      if IsArray(filter) then
        IsSlice(candidate) && forall i | 0 <= i < |Unpacked(filter)| :: Unpacked(filter)[i] in Elements(candidate)
      else candidate == filter
  }

  predicate Has(candidate: Tree, wanted: Tree)
    requires IsSlice(candidate)
    decreases wanted, 1
  {
    exists j | 0 <= j < |Elements(candidate)| :: Match(Elements(candidate)[j], wanted)
  }

  /** A typed array as a filter asks for its elements just as a list does. */
  lemma ArrayFilter(candidate: Tree, filter: Tree)
    requires IsArray(filter)
    ensures Match(candidate, filter) <==> Match(candidate, List(Unpacked(filter)))
  {
    if IsSlice(candidate) {
      forall i | 0 <= i < |Unpacked(filter)|
        ensures Unpacked(filter)[i] in Elements(candidate) <==> Has(candidate, Unpacked(filter)[i])
      {
        var e := Unpacked(filter)[i];
        if e in Elements(candidate) {
          var j :| 0 <= j < |Elements(candidate)| && Elements(candidate)[j] == e;
          assert Match(Elements(candidate)[j], e);
        }
      }
    }
  }

  lemma {:induction false} MatchReflexive(t: Tree)
    ensures Match(t, t)
  {
    match t
    case Comp(ms) =>
      forall k | k in ms ensures Match(ms[k], ms[k]) { MatchReflexive(ms[k]); }
    case List(es) =>
      forall i | 0 <= i < |es| ensures Has(t, es[i]) {
        MatchReflexive(es[i]);
        assert Match(Elements(t)[i], es[i]);
      }
    case _ =>
  }

  lemma {:induction false} MatchTransitive(a: Tree, b: Tree, c: Tree)
    requires Match(a, b) && Match(b, c)
    ensures Match(a, c)
    decreases c
  {
    if c.Comp? {
      forall k | k in c.members ensures k in a.members && Match(a.members[k], c.members[k]) {
        MatchTransitive(a.members[k], b.members[k], c.members[k]);
      }
    } else if c.List? {
      forall i | 0 <= i < |c.items| ensures Has(a, c.items[i]) {
        assert Has(b, c.items[i]);
        var j :| 0 <= j < |Elements(b)| && Match(Elements(b)[j], c.items[i]);
        var l := Counterpart(a, b, j);
        MatchTransitive(Elements(a)[l], Elements(b)[j], c.items[i]);
      }
    } else if IsArray(c) {
      forall i | 0 <= i < |Unpacked(c)| ensures Unpacked(c)[i] in Elements(a) {
        var e := Unpacked(c)[i];
        var j :| 0 <= j < |Elements(b)| && Elements(b)[j] == e;
        var l := Counterpart(a, b, j);
        assert Elements(a)[l] == e;
      }
    }
  }

  /** What matches a slice has a match for each of its elements. */
  lemma Counterpart(a: Tree, b: Tree, j: nat) returns (l: nat)
    requires IsSlice(b) && Match(a, b) && j < |Elements(b)|
    ensures IsSlice(a) && l < |Elements(a)| && Match(Elements(a)[l], Elements(b)[j])
  {
    if b.List? {
      assert Has(a, b.items[j]);
      l :| 0 <= l < |Elements(a)| && Match(Elements(a)[l], Elements(b)[j]);
    } else {
      assert Unpacked(b)[j] in Elements(a);
      l :| 0 <= l < |Elements(a)| && Elements(a)[l] == Elements(b)[j];
      MatchReflexive(Elements(b)[j]);
    }
  }

  // ----- merging

  /** `src` merged into `dst`: compounds on both sides merge, anything else of `src` replaces. */
  function Merge(dst: Tree, src: Tree): (m: Tree)
    requires dst.Comp? && src.Comp?
    ensures m.Comp? && m.members.Keys == dst.members.Keys + src.members.Keys
    decreases src
  {
    Comp(map k | k in dst.members.Keys + src.members.Keys ::
           if k !in src.members then dst.members[k]
           else if src.members[k].Comp? && k in dst.members && dst.members[k].Comp? then
             Merge(dst.members[k], src.members[k])
           else src.members[k])
  }

  /** The merged compound matches what was merged in. */
  lemma {:induction false} MergeMatches(dst: Tree, src: Tree)
    requires dst.Comp? && src.Comp?
    ensures Match(Merge(dst, src), src)
    decreases src
  {
    var m := Merge(dst, src);
    forall k | k in src.members
      ensures Match(m.members[k], src.members[k])
    {
      if src.members[k].Comp? && k in dst.members && dst.members[k].Comp? {
        MergeMatches(dst.members[k], src.members[k]);
      } else {
        MatchReflexive(src.members[k]);
      }
    }
  }

  /** At every level both sides share, members only the destination has are as they were. */
  predicate Keeps(merged: Tree, dst: Tree, src: Tree)
    requires dst.Comp? && src.Comp?
    decreases src
  {
    && merged.Comp?
    && (forall k | k in dst.members && k !in src.members :: k in merged.members && merged.members[k] == dst.members[k])
    && (forall k | k in merged.members :: k in dst.members || k in src.members)
    && (forall k | k in src.members :: k in merged.members &&
          if src.members[k].Comp? && k in dst.members && dst.members[k].Comp?
          then Keeps(merged.members[k], dst.members[k], src.members[k])
          else merged.members[k] == src.members[k])
  }

  /** The merge keeps them, and is the only tree that does. */
  lemma {:induction false} MergeIsWhatKeeps(merged: Tree, dst: Tree, src: Tree)
    requires dst.Comp? && src.Comp?
    ensures Keeps(merged, dst, src) <==> merged == Merge(dst, src)
    decreases src
  {
    var m := Merge(dst, src);
    forall k | k in src.members && src.members[k].Comp? && k in dst.members && dst.members[k].Comp?
      ensures merged.Comp? && k in merged.members ==>
              (Keeps(merged.members[k], dst.members[k], src.members[k]) <==> merged.members[k] == m.members[k])
    {
      if merged.Comp? && k in merged.members {
        MergeIsWhatKeeps(merged.members[k], dst.members[k], src.members[k]);
      }
    }
    if Keeps(merged, dst, src) {
      assert forall k | k in m.members :: k in merged.members && merged.members[k] == m.members[k];
      assert merged.members == m.members;
    }
  }

  /** Merging the same source again changes nothing. */
  lemma {:induction false} MergeIdempotent(dst: Tree, src: Tree)
    requires dst.Comp? && src.Comp?
    ensures Merge(Merge(dst, src), src) == Merge(dst, src)
    decreases src
  {
    var m := Merge(dst, src);
    forall k | k in src.members && src.members[k].Comp?
      ensures Merge(m.members[k], src.members[k]) == m.members[k]
    {
      if k in dst.members && dst.members[k].Comp? {
        MergeIdempotent(dst.members[k], src.members[k]);
      } else {
        MergeWithItself(src.members[k]);
      }
    }
    assert Merge(m, src).members == m.members;
  }

  lemma {:induction false} MergeWithItself(t: Tree)
    requires t.Comp?
    ensures Merge(t, t) == t
  {
    forall k | k in t.members && t.members[k].Comp?
      ensures Merge(t.members[k], t.members[k]) == t.members[k]
    {
      MergeWithItself(t.members[k]);
    }
    assert Merge(t, t).members == t.members;
  }
}
