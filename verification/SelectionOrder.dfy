/**
  In what order candidates are chosen, told from the chosen list itself: first one of each binding,
  a new skeleton being preferred, then the cheapest of each skeleton, then the cheapest left.
 */
module SelectionOrder {
  import opened Common
  import opened Sorting
  import opened HalfSplit
  import opened CandidateSelection
  import opened ProtectedSelection

  /** a is not above b: it costs less, or the same under an idx that is not larger. */
  predicate NotAbove(a: Candidate, b: Candidate) {
    a.cost < b.cost || (a.cost == b.cost && a.idx <= b.idx)
  }

  // ---------------------------------------------------------------------------
  // The laws.

  /** c may be the next for its binding: it has a skeleton that is new among the chosen and no other
      candidate of the binding with a new skeleton is below it, or none has a new skeleton and none
      is below it. */
  ghost predicate PreferredIn(candidates: seq<Candidate>, chosen: seq<Candidate>, c: Candidate) {
    && c in candidates
    && forall d :: d in candidates && d.binding == c.binding ==>
         if c.skeleton !in Skeletons(chosen) then d.skeleton !in Skeletons(chosen) ==> NotAbove(c, d)
         else d.skeleton in Skeletons(chosen) && NotAbove(c, d)
  }

  /** The cheapest candidate of the one binding is not above that of the other. */
  ghost predicate BindingNotAbove(candidates: seq<Candidate>, a: nat, b: nat) {
    forall d :: d in candidates && d.binding == b ==>
      exists e :: e in candidates && e.binding == a && NotAbove(e, d)
  }

  /** The members from..to of a list were chosen one for each binding, the cheapest binding first. */
  ghost predicate PerBinding(candidates: seq<Candidate>, chosen: seq<Candidate>, from: nat, to: nat)
    requires from <= to <= |chosen|
  {
    && (forall i :: from <= i < to ==> PreferredIn(candidates, chosen[..i], chosen[i]))
    && (forall i, j :: from <= i < j < to ==>
          chosen[i].binding != chosen[j].binding &&
          BindingNotAbove(candidates, chosen[i].binding, chosen[j].binding))
  }

  ghost predicate CheapestOfSkeleton(candidates: seq<Candidate>, c: Candidate) {
    c in candidates && forall d :: d in candidates && d.skeleton == c.skeleton ==> NotAbove(c, d)
  }

  /** They are the cheapest of their skeletons, in the order of their costs. */
  ghost predicate PerSkeleton(candidates: seq<Candidate>, chosen: seq<Candidate>, from: nat, to: nat)
    requires from <= to <= |chosen|
  {
    && (forall i :: from <= i < to ==> CheapestOfSkeleton(candidates, chosen[i]))
    && (forall i, j :: from <= i < j < to ==> NotAbove(chosen[i], chosen[j]))
  }

  /** Each is the cheapest that did not repeat one chosen before. */
  ghost predicate ByCostOnly(candidates: seq<Candidate>, chosen: seq<Candidate>, from: nat, to: nat)
    requires from <= to <= |chosen|
  {
    forall i :: from <= i < to ==>
      && chosen[i] in candidates
      && forall d :: d in candidates && !NotAbove(chosen[i], d) ==> Repeats(chosen[..i], d)
  }

  // ---------------------------------------------------------------------------
  // Sorted lists.

  predicate Increasing(ks: seq<nat>) {
    forall i, j :: 0 <= i < j < |ks| ==> ks[i] < ks[j]
  }

  lemma ByCostSorts(cs: seq<Candidate>)
    ensures SortedBy(Sort(cs, ByCost), ByCost)
    ensures forall c :: c in Sort(cs, ByCost) <==> c in cs
  {
    assert TotalPreorder(ByCost);
    SortSorts(cs, ByCost);
    SortMembers(cs, ByCost);
  }

  lemma {:induction false} WithBindingSorted(cs: seq<Candidate>, b: nat)
    requires SortedBy(cs, ByCost)
    ensures SortedBy(WithBinding(cs, b), ByCost)
  {
    if cs != [] {
      var front, c := cs[..|cs| - 1], cs[|cs| - 1];
      WithBindingSorted(front, b);
      WithBindingMembers(front, b);
      var g := WithBinding(front, b);
      forall i | 0 <= i < |g|
        ensures ByCost(g[i], c)
      {
        assert g[i] in g;
        var k :| 0 <= k < |front| && front[k] == g[i];
        assert ByCost(cs[k], cs[|cs| - 1]);
      }
    }
  }

  lemma {:induction false} CheapestFirst(cs: seq<Candidate>)
    requires SortedBy(cs, ByCost)
    ensures forall c, d :: c in Cheapest(cs) && d in cs && d.skeleton == c.skeleton ==> ByCost(c, d)
  {
    if cs != [] {
      var front, last := cs[..|cs| - 1], cs[|cs| - 1];
      CheapestFirst(front);
      CheapestMembers(front);
      assert cs == front + [last];
      forall c, d | c in Cheapest(cs) && d in cs && d.skeleton == c.skeleton
        ensures ByCost(c, d)
      {
        if c in Cheapest(front) && d !in front {
          var k :| 0 <= k < |front| && front[k] == c;
          assert ByCost(cs[k], cs[|cs| - 1]);
        } else if c !in Cheapest(front) {
          CheapestCount(front);
          assert d in front ==> d.skeleton in Skeletons(front);
        }
      }
    }
  }

  // ---------------------------------------------------------------------------
  // The passes.

  /** Which groups contributed a member, and which. */
  lemma {:induction false} PickAllPicks(pre: seq<Candidate>, gs: seq<seq<Candidate>>, limit: int)
    returns (ks: seq<nat>)
    requires NonEmpty(gs)
    ensures var r := PickAll(pre, gs, limit);
            && pre <= r && |ks| == |r| - |pre| && Increasing(ks) && (forall m :: 0 <= m < |ks| ==> ks[m] < |gs|)
            && forall m :: 0 <= m < |ks| ==>
                 r[|pre| + m] == Preferred(gs[ks[m]], Skeletons(r[..|pre| + m]))
  {
    hide Preferred, Repeats;
    if gs == [] {
      ks := [];
    } else {
      var n := |gs| - 1;
      var front := gs[..n];
      ks := PickAllPicks(pre, front, limit);
      var s, r := PickAll(pre, front, limit), PickAll(pre, gs, limit);
      assert forall m :: 0 <= m < |ks| ==> r[..|pre| + m] == s[..|pre| + m] && front[ks[m]] == gs[ks[m]];
      if |r| > |s| {
        ks := ks + [n];
        assert r[..|s|] == s;
      }
    }
  }

  /** Which candidates of a list were added, and that those passed by repeat a chosen one. */
  lemma {:induction false} AddAllPicks(pre: seq<Candidate>, cs: seq<Candidate>, limit: int) returns (ks: seq<nat>)
    ensures var r := AddAll(pre, cs, limit);
            && pre <= r && |ks| == |r| - |pre| && Increasing(ks) && (forall m :: 0 <= m < |ks| ==> ks[m] < |cs|)
            && (forall m :: 0 <= m < |ks| ==> r[|pre| + m] == cs[ks[m]])
            && (forall m, j :: 0 <= m < |ks| && 0 <= j < ks[m] ==> Repeats(r[..|pre| + m], cs[j]))
  {
    hide Repeats;
    if cs == [] {
      ks := [];
    } else {
      var n := |cs| - 1;
      var front, c := cs[..n], cs[n];
      ks := AddAllPicks(pre, front, limit);
      var s, r := AddAll(pre, front, limit), AddAll(pre, cs, limit);
      assert forall m :: 0 <= m < |ks| ==> r[..|pre| + m] == s[..|pre| + m] && front[ks[m]] == cs[ks[m]];
      assert forall m, j :: 0 <= m < |ks| && 0 <= j < ks[m] ==> front[j] == cs[j];
      if |r| > |s| {
        forall j | 0 <= j < n
          ensures Repeats(s, cs[j])
        {
          assert front[j] == cs[j];
          PassedBy(pre, front, limit, j);
        }
        ks := ks + [n];
        assert r[..|s|] == s;
      }
    }
  }

  /** Below the limit every candidate that was tried repeats a chosen one. */
  lemma {:induction false} PassedBy(pre: seq<Candidate>, cs: seq<Candidate>, limit: int, j: nat)
    requires j < |cs| && |AddAll(pre, cs, limit)| < limit
    ensures Repeats(AddAll(pre, cs, limit), cs[j])
  {
    hide Repeats;
    var n := |cs| - 1;
    var s := AddAll(pre, cs[..n], limit);
    AddRepeats(s, cs[n], limit);
    if j < n {
      PassedBy(pre, cs[..n], limit, j);
      RepeatsMore(s, AddAll(pre, cs, limit), cs[j]);
    }
  }

  /** The preferred member of a sorted group. */
  lemma PreferredOfGroup(g: seq<Candidate>, skeletons: set<nat>, d: Candidate)
    requires SortedBy(g, ByCost) && d in g
    ensures var c := Preferred(g, skeletons);
            if c.skeleton !in skeletons then d.skeleton !in skeletons ==> NotAbove(c, d)
            else d.skeleton in skeletons && NotAbove(c, d)
  {
    var i := FirstNew(g, skeletons);
    var k :| 0 <= k < |g| && g[k] == d;
  }

  /** The member that a group contributes is the preferred one of its binding. */
  lemma PreferredLaw(candidates: seq<Candidate>, b: nat, chosen: seq<Candidate>)
    requires WithBinding(Sort(candidates, ByCost), b) != []
    ensures var c := Preferred(WithBinding(Sort(candidates, ByCost), b), Skeletons(chosen));
            c.binding == b && PreferredIn(candidates, chosen, c)
  {
    hide SortedBy, NotAbove;
    var ordered, skeletons := Sort(candidates, ByCost), Skeletons(chosen);
    var g := WithBinding(ordered, b);
    ByCostSorts(candidates);
    WithBindingSorted(ordered, b);
    WithBindingMembers(ordered, b);
    var c := Preferred(g, skeletons);
    hide Preferred;
    forall d | d in candidates && d.binding == b
      ensures if c.skeleton !in skeletons then d.skeleton !in skeletons ==> NotAbove(c, d)
              else d.skeleton in skeletons && NotAbove(c, d)
    {
      PreferredOfGroup(g, skeletons, d);
    }
  }

  lemma {:induction false} KeysDistinct(cs: seq<Candidate>)
    ensures Distinct(Keys(cs))
  {
    if cs != [] {
      KeysDistinct(cs[..|cs| - 1]);
    }
  }

  lemma GroupsDistinct(cs: seq<Candidate>)
    ensures Distinct(Groups(cs))
  {
    var all := Groups(cs);
    GroupsNonEmpty(cs);
    KeysDistinct(cs);
    forall i, j | 0 <= i < j < |all|
      ensures all[i] != all[j]
    {
      WithBindingMembers(cs, Keys(cs)[i]);
      WithBindingMembers(cs, Keys(cs)[j]);
      assert all[i][0] in all[i] && all[j][0] in all[j];
    }
  }

  /** The groups that are visited: one for each binding. */
  lemma VisitedGroups(cs: seq<Candidate>) returns (bs: seq<nat>)
    ensures var gs := SortedGroups(cs);
            && |bs| == |gs| && Distinct(bs)
            && (forall k :: 0 <= k < |gs| ==> gs[k] == WithBinding(cs, bs[k]))
  {
    var gs: seq<seq<Candidate>>, all := SortedGroups(cs), Groups(cs);
    GroupsNonEmpty(cs);
    SortPermutes(all, ByHead);
    bs := seq(|gs|, k requires 0 <= k < |gs| => gs[k][0].binding);
    forall k | 0 <= k < |gs|
      ensures gs[k] == WithBinding(cs, bs[k])
    {
      assert gs[k] in multiset(all);
      var i :| 0 <= i < |all| && all[i] == gs[k];
      WithBindingMembers(cs, Keys(cs)[i]);
      assert gs[k][0] in gs[k];
    }
    GroupsDistinct(cs);
    forall k, l | 0 <= k < l < |gs|
      ensures bs[k] != bs[l]
    {
      if bs[k] == bs[l] {
        RepeatCounts(gs, k, l);
        DistinctCounts(all, gs[k]);
      }
    }
  }

  lemma SortedHeads(cs: seq<Candidate>)
    ensures var gs := SortedGroups(cs);
            forall k, l :: 0 <= k < l < |gs| ==> ByCost(gs[k][0], gs[l][0])
  {
    var gs := SortedGroups(cs);
    assert TotalPreorder(ByHead);
    SortSorts(Groups(cs), ByHead);
    forall k, l | 0 <= k < l < |gs|
      ensures ByCost(gs[k][0], gs[l][0])
    {
      assert ByHead(gs[k], gs[l]);
    }
  }

  lemma HeadIsCheapest(candidates: seq<Candidate>, b: nat, d: Candidate)
    requires d in candidates && d.binding == b
    ensures var g := WithBinding(Sort(candidates, ByCost), b);
            g != [] && g[0] in candidates && g[0].binding == b && ByCost(g[0], d)
  {
    var ordered := Sort(candidates, ByCost);
    ByCostSorts(candidates);
    WithBindingSorted(ordered, b);
    WithBindingMembers(ordered, b);
    var g := WithBinding(ordered, b);
    assert d in g;
    var k :| 0 <= k < |g| && g[k] == d;
    assert g[0] in g;
  }

  lemma FirstPass(candidates: seq<Candidate>, limit: int, pre: seq<Candidate>)
    ensures var r := PickAll(pre, SortedGroups(Sort(candidates, ByCost)), limit);
            pre <= r && PerBinding(candidates, r, |pre|, |r|)
  {
    hide Preferred, PreferredIn;
    var ordered := Sort(candidates, ByCost);
    var gs := SortedGroups(ordered);
    var r := PickAll(pre, gs, limit);
    var ks := PickAllPicks(pre, gs, limit);
    var bs := VisitedGroups(ordered);
    SortedHeads(ordered);
    forall i | |pre| <= i < |r|
      ensures r[i].binding == bs[ks[i - |pre|]] && PreferredIn(candidates, r[..i], r[i])
    {
      PreferredLaw(candidates, bs[ks[i - |pre|]], r[..i]);
    }
    forall i, j | |pre| <= i < j < |r|
      ensures r[i].binding != r[j].binding && BindingNotAbove(candidates, r[i].binding, r[j].binding)
    {
      var k, l := ks[i - |pre|], ks[j - |pre|];
      forall d | d in candidates && d.binding == bs[l]
        ensures exists e :: e in candidates && e.binding == bs[k] && NotAbove(e, d)
      {
        HeadIsCheapest(candidates, bs[l], d);
        GroupHead(candidates, bs[k]);
        assert NotAbove(gs[k][0], d);
      }
    }
  }

  lemma GroupHead(candidates: seq<Candidate>, b: nat)
    ensures var g := WithBinding(Sort(candidates, ByCost), b);
            g != [] ==> g[0] in candidates && g[0].binding == b
  {
    var g := WithBinding(Sort(candidates, ByCost), b);
    ByCostSorts(candidates);
    WithBindingMembers(Sort(candidates, ByCost), b);
    assert g != [] ==> g[0] in g;
  }

  /** The candidates of the second pass, in order. */
  lemma CheapestSorted(candidates: seq<Candidate>, c: Candidate)
    ensures var cs := Sort(Cheapest(Sort(candidates, ByCost)), ByCost);
            SortedBy(cs, ByCost) && (c in cs ==> CheapestOfSkeleton(candidates, c))
  {
    var ordered := Sort(candidates, ByCost);
    ByCostSorts(candidates);
    ByCostSorts(Cheapest(ordered));
    CheapestFirst(ordered);
    CheapestMembers(ordered);
  }

  lemma SecondPass(candidates: seq<Candidate>, limit: int, first: seq<Candidate>)
    ensures var r := AddAll(first, Sort(Cheapest(Sort(candidates, ByCost)), ByCost), limit);
            first <= r && PerSkeleton(candidates, r, |first|, |r|)
  {
    hide CheapestOfSkeleton, Repeats;
    var cs := Sort(Cheapest(Sort(candidates, ByCost)), ByCost);
    var r := AddAll(first, cs, limit);
    var ks := AddAllPicks(first, cs, limit);
    forall i | |first| <= i < |r|
      ensures CheapestOfSkeleton(candidates, r[i]) && r[i] == cs[ks[i - |first|]] && SortedBy(cs, ByCost)
    {
      assert r[i] == r[|first| + (i - |first|)] == cs[ks[i - |first|]];
      CheapestSorted(candidates, r[i]);
    }
  }

  lemma CheaperIsEarlier(cs: seq<Candidate>, k: nat, d: Candidate) returns (j: nat)
    requires SortedBy(cs, ByCost) && k < |cs| && d in cs && !NotAbove(cs[k], d)
    ensures j < k && cs[j] == d
  {
    j :| 0 <= j < |cs| && cs[j] == d;
  }

  lemma ThirdPass(candidates: seq<Candidate>, limit: int, second: seq<Candidate>)
    ensures var r := AddAll(second, Sort(candidates, ByCost), limit);
            second <= r && ByCostOnly(candidates, r, |second|, |r|)
  {
    hide Repeats, NotAbove, SortedBy;
    var ordered := Sort(candidates, ByCost);
    ByCostSorts(candidates);
    var r := AddAll(second, ordered, limit);
    var ks := AddAllPicks(second, ordered, limit);
    forall i | |second| <= i < |r|
      ensures r[i] in candidates
      ensures forall d :: d in candidates && !NotAbove(r[i], d) ==> Repeats(r[..i], d)
    {
      var k := ks[i - |second|];
      assert r[i] == ordered[k];
      forall d | d in candidates && !NotAbove(r[i], d)
        ensures Repeats(r[..i], d)
      {
        var j := CheaperIsEarlier(ordered, k, d);
      }
    }
  }

  /** The chosen list is the preselected members, then one for each binding, then the cheapest of
      skeletons, then the cheapest of what is left. */
  lemma ChosenInOrder(candidates: seq<Candidate>, limit: int, pre: seq<Candidate>) returns (n: nat, m: nat)
    ensures var r := Chosen(candidates, limit, pre);
            && pre <= r && |pre| <= n <= m <= |r|
            && PerBinding(candidates, r, |pre|, n) && PerSkeleton(candidates, r, n, m)
            && ByCostOnly(candidates, r, m, |r|)
  {
    hide PerBinding, PerSkeleton, ByCostOnly, SortedGroups;
    var ordered := Sort(candidates, ByCost);
    var first := PickAll(pre, SortedGroups(ordered), limit);
    var second := AddAll(first, Sort(Cheapest(ordered), ByCost), limit);
    var r := Chosen(candidates, limit, pre);
    FirstPass(candidates, limit, pre);
    SecondPass(candidates, limit, first);
    ThirdPass(candidates, limit, second);
    n, m := |first|, |second|;
    PerBindingMore(candidates, first, r, |pre|);
    PerSkeletonMore(candidates, second, r, n);
  }

  lemma PerBindingMore(candidates: seq<Candidate>, chosen: seq<Candidate>, more: seq<Candidate>, from: nat)
    requires chosen <= more && from <= |chosen| && PerBinding(candidates, chosen, from, |chosen|)
    ensures PerBinding(candidates, more, from, |chosen|)
  {
    hide PreferredIn, BindingNotAbove;
    assert forall i :: 0 <= i < |chosen| ==> more[i] == chosen[i] && more[..i] == chosen[..i];
  }

  lemma PerSkeletonMore(candidates: seq<Candidate>, chosen: seq<Candidate>, more: seq<Candidate>, from: nat)
    requires chosen <= more && from <= |chosen| && PerSkeleton(candidates, chosen, from, |chosen|)
    ensures PerSkeleton(candidates, more, from, |chosen|)
  {
    hide CheapestOfSkeleton;
  }

  // ---------------------------------------------------------------------------
  // The candidates that are evaluated.

  lemma {:induction false} FilterSorted(xs: seq<Candidate>, p: Candidate -> bool)
    requires SortedBy(xs, ByCost)
    ensures SortedBy(Filter(xs, p), ByCost)
  {
    if xs != [] {
      var rest := Filter(xs[1..], p);
      FilterSorted(xs[1..], p);
      forall k | 0 <= k < |rest|
        ensures ByCost(xs[0], rest[k])
      {
        assert rest[k] in rest;
        var i :| 0 <= i < |xs[1..]| && xs[1..][i] == rest[k];
        assert ByCost(xs[0], xs[i + 1]);
      }
    }
  }

  predicate OneIdx(candidates: seq<Candidate>) {
    forall c, d :: c in candidates && d in candidates && c.idx == d.idx ==> c == d
  }

  /** The cheapest of the candidates with a property comes first among them. */
  lemma CheapestComesFirst(candidates: seq<Candidate>, p: Candidate -> bool, q: Candidate -> bool, c: Candidate)
    requires OneIdx(candidates) && c in candidates && p(c) && q(c)
    requires forall d :: d in candidates && p(d) && q(d) ==> NotAbove(c, d)
    ensures c in Head(Filter(Filter(Sort(candidates, ByCost), p), q))
  {
    ByCostSorts(candidates);
    var some := Filter(Sort(candidates, ByCost), p);
    FilterSorted(Sort(candidates, ByCost), p);
    FilterSorted(some, q);
    var r := Filter(some, q);
    assert c in r;
    var k :| 0 <= k < |r| && r[k] == c;
    assert r[0] in r;
    assert r[0] in Head(r) by { assert r[..1][0] == r[0]; }
    assert NotAbove(c, r[0]) && (k > 0 ==> ByCost(r[0], r[k]));
  }

  lemma FilterAll(xs: seq<Candidate>)
    ensures Filter(xs, (c: Candidate) => true) == xs
  {
    if xs != [] {
      FilterAll(xs[1..]);
    }
  }

  /** With room beside the default plan, the cheapest other plan is represented among those that are
      evaluated; with room for one more, so is the cheapest merge-friendly one. */
  lemma OracleKeepsCheapest(candidates: seq<Candidate>, limit: int, c: Candidate)
    requires OneIdx(candidates) && c in candidates && !c.isDefault && limit > 0
    ensures limit > 1 && (forall d :: d in candidates && !d.isDefault ==> NotAbove(c, d)) ==>
              Repeats(OracleSelection(candidates, limit), c)
    ensures limit > 2 && c.mergeFriendly &&
            (forall d :: d in candidates && !d.isDefault && d.mergeFriendly ==> NotAbove(c, d)) ==>
              Repeats(OracleSelection(candidates, limit), c)
  {
    hide Repeats, OracleSelection, NotAbove;
    OracleSelectionMeaning(candidates, limit);
    var rest := Filter(Sort(candidates, ByCost), NotDefault);
    if forall d :: d in candidates && !d.isDefault ==> NotAbove(c, d) {
      CheapestComesFirst(candidates, NotDefault, (x: Candidate) => true, c);
      FilterAll(rest);
    }
    if c.mergeFriendly && forall d :: d in candidates && !d.isDefault && d.mergeFriendly ==> NotAbove(c, d) {
      CheapestComesFirst(candidates, NotDefault, MergeFriendly, c);
    }
  }
}
