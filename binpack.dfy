// First-fit-decreasing packing of reaction field arguments into 32-bit
// register bins (runBinPackForIng, src/compile/compile_p4.cpp): the
// arguments are sorted in place, wider first, and each argument of the
// requested direction goes into the first bin that still has room.

module BinPack {
  import opened AstP4R
  import opened Consts

  /** An argument with the width in bits it occupies. */
  datatype ArgSize = ArgSize(arg: ReactionArg, width: int)

  /** A bin: the arguments it holds, in insertion order, and its running total width. */
  datatype Bin = Bin(members: seq<ArgSize>, size: int)

  // ---------------------------------------------------------------------
  // The packing order
  // ---------------------------------------------------------------------

  /** The sort comparator: the wider argument first, then the higher address. */
  predicate Precedes(l: ArgSize, r: ArgSize)
  {
    l.width > r.width || (l.width == r.width && l.arg.id > r.arg.id)
  }

  predicate SortedForPacking(s: seq<ArgSize>)
  {
    forall i, j :: 0 <= i < j < |s| ==> !Precedes(s[j], s[i])
  }

  /** The argument kinds each direction packs; register arguments are never packed. */
  predicate InDirection(t: ArgType, forIng: bool)
  {
    if forIng then t == IngressField || t == IngressMblField
    else t == EgressField || t == EgressMblField
  }

  /** The arguments of `s` that the packer keeps, in order. */
  function Selected(s: seq<ArgSize>, forIng: bool): (r: seq<ArgSize>)
    ensures |r| <= |s|
    ensures forall x :: x in r ==> x in s && InDirection(x.arg.argType, forIng)
  {
    if |s| == 0 then []
    else
      var init := Selected(s[..|s| - 1], forIng);
      if InDirection(s[|s| - 1].arg.argType, forIng) then init + [s[|s| - 1]] else init
  }

  // ---------------------------------------------------------------------
  // First fit, as a specification
  // ---------------------------------------------------------------------

  function Sum(ms: seq<ArgSize>): int
  {
    if |ms| == 0 then 0 else Sum(ms[..|ms| - 1]) + ms[|ms| - 1].width
  }

  predicate HasRoom(b: Bin, w: int)
  {
    w + b.size <= RegisterSize
  }

  /** The index of the first bin with room for width `w`, or |bins| when none has. */
  function FitIndex(bins: seq<Bin>, w: int): (k: nat)
    ensures k <= |bins|
    ensures forall m :: 0 <= m < k ==> !HasRoom(bins[m], w)
    ensures k < |bins| ==> HasRoom(bins[k], w)
  {
    if |bins| == 0 then 0
    else if HasRoom(bins[0], w) then 0
    else 1 + FitIndex(bins[1..], w)
  }

  /** Place one argument: into the first bin with room, else into a new bin. */
  function Place(bins: seq<Bin>, p: ArgSize): seq<Bin>
  {
    var k := FitIndex(bins, p.width);
    if k < |bins| then bins[k := Bin(bins[k].members + [p], bins[k].size + p.width)]
    else bins + [Bin([p], p.width)]
  }

  /** The bins after packing the arguments of `s` in order. */
  function Pack(s: seq<ArgSize>, forIng: bool): seq<Bin>
  {
    if |s| == 0 then []
    else
      var bins := Pack(s[..|s| - 1], forIng);
      if InDirection(s[|s| - 1].arg.argType, forIng) then Place(bins, s[|s| - 1]) else bins
  }

  // ---------------------------------------------------------------------
  // The imperative packer
  // ---------------------------------------------------------------------

  /** std::sort with the packing comparator, as an insertion sort by adjacent swaps. */
  method SortArgs(a: array<ArgSize>)
    modifies a
    ensures SortedForPacking(a[..])
    ensures multiset(a[..]) == multiset(old(a[..]))
  {
    var i := 0;
    while i < a.Length
      invariant 0 <= i <= a.Length
      invariant SortedForPacking(a[..i])
      invariant multiset(a[..]) == multiset(old(a[..]))
    {
      Insert(a, i);
      i := i + 1;
    }
    assert a[..a.Length] == a[..];
  }

  /** One pass of the insertion sort: a[i] moves down past every argument it precedes. */
  method Insert(a: array<ArgSize>, i: nat)
    requires i < a.Length && SortedForPacking(a[..i])
    modifies a
    ensures SortedForPacking(a[..i + 1])
    ensures multiset(a[..]) == multiset(old(a[..]))
  {
    InsertStart(a[..], i);
    var j := i;
    while j > 0 && Precedes(a[j], a[j - 1])
      invariant 0 <= j <= i
      invariant Inserting(a[..], i, j)
      invariant multiset(a[..]) == multiset(old(a[..]))
    {
      ghost var s := a[..];
      a[j], a[j - 1] := a[j - 1], a[j];
      assert a[..] == s[j := s[j - 1]][j - 1 := s[j]];
      InsertSwap(s, i, j);
      j := j - 1;
    }
    InsertDone(a[..], i, j);
  }

  /**
   * Insertion of s[j] into the sorted prefix s[..i + 1]: every other pair
   * of the prefix is in order, and s[j] is in order with all after it.
   */
  ghost predicate Inserting(s: seq<ArgSize>, i: nat, j: nat)
  {
    j <= i < |s| &&
    (forall k, l :: 0 <= k < l <= i && k != j && l != j ==> !Precedes(s[l], s[k])) &&
    (forall l :: j < l <= i ==> !Precedes(s[l], s[j]))
  }

  lemma InsertStart(s: seq<ArgSize>, i: nat)
    requires i < |s| && SortedForPacking(s[..i])
    ensures Inserting(s, i, i)
  {
    forall k, l | 0 <= k < l <= i && k != i && l != i
      ensures !Precedes(s[l], s[k])
    {
      assert s[..i][k] == s[k] && s[..i][l] == s[l];
    }
  }

  lemma InsertSwap(s: seq<ArgSize>, i: nat, j: nat)
    requires 0 < j && Inserting(s, i, j) && Precedes(s[j], s[j - 1])
    ensures Inserting(s[j := s[j - 1]][j - 1 := s[j]], i, j - 1)
  {
  }

  lemma InsertDone(s: seq<ArgSize>, i: nat, j: nat)
    requires Inserting(s, i, j) && (j == 0 || !Precedes(s[j], s[j - 1]))
    ensures SortedForPacking(s[..i + 1])
  {
    forall k, l | 0 <= k < l <= i
      ensures !Precedes(s[l], s[k])
    {
      if l == j && k < j - 1 {
        assert !Precedes(s[j - 1], s[k]);
      } else if k == j && l > j {
      } else if k < j && l > j {
        assert !Precedes(s[j], s[k]) by {
          if k < j - 1 { assert !Precedes(s[j - 1], s[k]); }
        }
      }
    }
  }

  /** runBinPackForIng: sort the arguments in place, then pack those of the requested direction first-fit. */
  method RunBinPack(a: array<ArgSize>, forIng: bool) returns (bins: seq<Bin>)
    requires forall i :: 0 <= i < a.Length ==> a[i].width <= RegisterSize
    modifies a
    ensures SortedForPacking(a[..])
    ensures multiset(a[..]) == multiset(old(a[..]))
    ensures bins == Pack(a[..], forIng)
  {
    SortArgs(a);
    bins := [];
    var i := 0;
    while i < a.Length
      invariant 0 <= i <= a.Length
      invariant bins == Pack(a[..i], forIng)
    {
      var p := a[i];
      assert a[..i + 1][..i] == a[..i];
      if InDirection(p.arg.argType, forIng) {
        var k := 0;
        while k < |bins| && !HasRoom(bins[k], p.width)
          invariant 0 <= k <= |bins|
          invariant forall m :: 0 <= m < k ==> !HasRoom(bins[m], p.width)
        {
          k := k + 1;
        }
        if k < |bins| {
          bins := bins[k := Bin(bins[k].members + [p], bins[k].size + p.width)];
        } else {
          bins := bins + [Bin([p], p.width)];
        }
      }
      i := i + 1;
    }
    assert a[..a.Length] == a[..];
  }

  // ---------------------------------------------------------------------
  // Properties of the packing
  // ---------------------------------------------------------------------

  /** A bin is non-empty, within the register width, and its size is the sum of its members' widths. */
  predicate GoodBin(b: Bin)
  {
    |b.members| > 0 && b.size == Sum(b.members) && b.size <= RegisterSize
  }

  predicate AllWithin(s: seq<ArgSize>)
  {
    forall i :: 0 <= i < |s| ==> s[i].width <= RegisterSize
  }

  lemma SumSnoc(ms: seq<ArgSize>, p: ArgSize)
    ensures Sum(ms + [p]) == Sum(ms) + p.width
  {
    assert (ms + [p])[..|ms|] == ms;
  }

  lemma PlaceKeepsGood(bins: seq<Bin>, p: ArgSize)
    requires forall b :: b in bins ==> GoodBin(b)
    requires p.width <= RegisterSize
    ensures forall b :: b in Place(bins, p) ==> GoodBin(b)
  {
    var k := FitIndex(bins, p.width);
    var r := Place(bins, p);
    if k < |bins| {
      var nb := Bin(bins[k].members + [p], bins[k].size + p.width);
      SumSnoc(bins[k].members, p);
      assert bins[k] in bins;
      forall b | b in r ensures GoodBin(b) {
        var m :| 0 <= m < |r| && r[m] == b;
        if m != k { assert b == bins[m]; }
      }
    } else {
      assert Sum([p]) == p.width by { assert [p][..0] == []; }
    }
  }

  /**
   * Every bin the packer produces holds at least one argument, never
   * exceeds the 32-bit register, and records as its size exactly the sum of
   * its members' widths.
   */
  lemma {:induction false} PackBinsGood(s: seq<ArgSize>, forIng: bool)
    requires AllWithin(s)
    ensures forall b :: b in Pack(s, forIng) ==> GoodBin(b)
    decreases |s|
  {
    if |s| > 0 {
      PackBinsGood(s[..|s| - 1], forIng);
      if InDirection(s[|s| - 1].arg.argType, forIng) {
        PlaceKeepsGood(Pack(s[..|s| - 1], forIng), s[|s| - 1]);
      }
    }
  }

  /** All the arguments held by the bins, with multiplicity. */
  function Members(bins: seq<Bin>): multiset<ArgSize>
  {
    if |bins| == 0 then multiset{} else Members(bins[..|bins| - 1]) + multiset(bins[|bins| - 1].members)
  }

  lemma {:induction false} MembersUpdate(bins: seq<Bin>, k: nat, b: Bin)
    requires k < |bins|
    ensures Members(bins[k := b]) + multiset(bins[k].members) == Members(bins) + multiset(b.members)
    decreases |bins|
  {
    var n := |bins| - 1;
    if k < n {
      MembersUpdate(bins[..n], k, b);
      var B', B, Z := Members(bins[..n][k := b]), Members(bins[..n]), multiset(bins[n].members);
      var X, Y := multiset(bins[k].members), multiset(b.members);
      assert bins[..n][k] == bins[k];
      assert B' + X == B + Y;
      assert bins[k := b][..n] == bins[..n][k := b];
      assert bins[k := b][n] == bins[n];
      assert Members(bins[k := b]) == B' + Z;
      assert Members(bins) == B + Z;
      assert (B' + Z) + X == (B' + X) + Z;
    } else {
      assert bins[k := b][..n] == bins[..n];
    }
  }

  lemma PlaceAddsOne(bins: seq<Bin>, p: ArgSize)
    ensures Members(Place(bins, p)) == Members(bins) + multiset{p}
    ensures |Place(bins, p)| <= |bins| + 1
  {
    var k := FitIndex(bins, p.width);
    if k < |bins| {
      var nb := Bin(bins[k].members + [p], bins[k].size + p.width);
      MembersUpdate(bins, k, nb);
      var M', M, X := Members(Place(bins, p)), Members(bins), multiset(bins[k].members);
      assert M' + X == (M + multiset{p}) + X;
      assert forall e :: M'[e] == (M + multiset{p})[e] by {
        forall e ensures M'[e] == (M + multiset{p})[e] {
          assert (M' + X)[e] == ((M + multiset{p}) + X)[e];
        }
      }
    } else {
      assert (bins + [Bin([p], p.width)])[..|bins|] == bins;
    }
  }

  /**
   * Conservation: the bins hold exactly the arguments of the requested
   * direction, each as often as it occurs in the input; register arguments
   * and arguments of the other direction are dropped. There are never more
   * bins than packed arguments.
   */
  lemma {:induction false} PackConserves(s: seq<ArgSize>, forIng: bool)
    ensures Members(Pack(s, forIng)) == multiset(Selected(s, forIng))
    ensures |Pack(s, forIng)| <= |Selected(s, forIng)|
    decreases |s|
  {
    if |s| > 0 {
      var init := s[..|s| - 1];
      PackConserves(init, forIng);
      if InDirection(s[|s| - 1].arg.argType, forIng) {
        PlaceAddsOne(Pack(init, forIng), s[|s| - 1]);
      }
    }
  }

  /** An argument of width w that reaches the packer ends up in some bin. */
  lemma PackedSomewhere(s: seq<ArgSize>, forIng: bool, x: ArgSize)
    requires x in s && InDirection(x.arg.argType, forIng)
    ensures exists b :: b in Pack(s, forIng) && x in b.members
  {
    SelectedKeeps(s, forIng, x);
    PackConserves(s, forIng);
    MemberInSomeBin(Pack(s, forIng), x);
  }

  lemma {:induction false} SelectedKeeps(s: seq<ArgSize>, forIng: bool, x: ArgSize)
    requires x in s && InDirection(x.arg.argType, forIng)
    ensures x in Selected(s, forIng)
    decreases |s|
  {
    if s[|s| - 1] != x {
      assert x in s[..|s| - 1] by {
        var i :| 0 <= i < |s| && s[i] == x;
        assert s[..|s| - 1][i] == x;
      }
      SelectedKeeps(s[..|s| - 1], forIng, x);
    }
  }

  lemma {:induction false} MemberInSomeBin(bins: seq<Bin>, x: ArgSize)
    requires x in Members(bins)
    ensures exists b :: b in bins && x in b.members
    decreases |bins|
  {
    var n := |bins| - 1;
    if x in multiset(bins[n].members) {
      assert bins[n] in bins;
    } else {
      MemberInSomeBin(bins[..n], x);
      var b :| b in bins[..n] && x in b.members;
      assert b in bins;
    }
  }

  /**
   * The first-fit rule, as it shows in the result: a later bin was opened
   * only because its first member did not fit in any earlier bin, and bins
   * only grow, so no earlier bin has room for a later bin's first member.
   * (Widths are non-negative, as declared field widths are.)
   */
  predicate FirstFitShape(bins: seq<Bin>)
    requires forall b :: b in bins ==> |b.members| > 0
  {
    forall i, j :: 0 <= i < j < |bins| ==> !HasRoom(bins[i], bins[j].members[0].width)
  }

  lemma PlaceKeepsFirstFit(bins: seq<Bin>, p: ArgSize)
    requires forall b :: b in bins ==> |b.members| > 0
    requires FirstFitShape(bins)
    requires p.width >= 0
    ensures forall b :: b in Place(bins, p) ==> |b.members| > 0
    ensures FirstFitShape(Place(bins, p))
  {
    var k := FitIndex(bins, p.width);
    var r := Place(bins, p);
    if k < |bins| {
      forall i, j | 0 <= i < j < |r| ensures !HasRoom(r[i], r[j].members[0].width) {
        assert r[j].members[0] == bins[j].members[0];
      }
    }
  }

  lemma {:induction false} PackFirstFit(s: seq<ArgSize>, forIng: bool)
    requires forall i :: 0 <= i < |s| ==> s[i].width >= 0
    ensures forall b :: b in Pack(s, forIng) ==> |b.members| > 0
    ensures FirstFitShape(Pack(s, forIng))
    decreases |s|
  {
    if |s| > 0 {
      PackFirstFit(s[..|s| - 1], forIng);
      if InDirection(s[|s| - 1].arg.argType, forIng) {
        PlaceKeepsFirstFit(Pack(s[..|s| - 1], forIng), s[|s| - 1]);
      }
    }
  }

  /** Each step of the packer puts the argument in the first bin with room, opening a bin only when none has. */
  lemma PackStep(s: seq<ArgSize>, forIng: bool, p: ArgSize)
    requires InDirection(p.arg.argType, forIng)
    ensures var before := Pack(s, forIng);
            var after := Pack(s + [p], forIng);
            var k := FitIndex(before, p.width);
            (k < |before| ==> |after| == |before| && after[k].members == before[k].members + [p] &&
                              forall m :: 0 <= m < |before| && m != k ==> after[m] == before[m]) &&
            (k == |before| ==> after == before + [Bin([p], p.width)] &&
                               forall m :: 0 <= m < |before| ==> !HasRoom(before[m], p.width))
  {
    assert (s + [p])[..|s|] == s;
  }
}
