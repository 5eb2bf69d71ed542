/**
  The greedy choice of plan candidates under a limit, one binding first, then one skeleton, then
  by cost (select_binding_aware_candidates).
 */
module CandidateSelection {
  import opened Sorting

  /** binding, skeleton and signature are keys that are only compared for equality. */
  datatype Candidate = Candidate(
    idx: int,
    cost: real,
    binding: nat,
    skeleton: nat,
    signature: nat,
    isDefault: bool,
    isExactDefault: bool,
    mergeFriendly: bool)

  predicate ByCost(a: Candidate, b: Candidate) {
    a.cost < b.cost || (a.cost == b.cost && a.idx <= b.idx)
  }

  predicate ById(a: Candidate, b: Candidate) {
    a.idx <= b.idx
  }

  function Ids(cs: seq<Candidate>): set<int> {
    set c | c in cs :: c.idx
  }

  function Skeletons(cs: seq<Candidate>): set<nat> {
    set c | c in cs :: c.skeleton
  }

  function Signatures(cs: seq<Candidate>): set<nat> {
    set c | c in cs :: c.signature
  }

  // ---------------------------------------------------------------------------
  // The choice as a function.

  /** Repeats the idx or the signature of a chosen candidate. */
  predicate Repeats(selected: seq<Candidate>, c: Candidate) {
    c.idx in Ids(selected) || c.signature in Signatures(selected)
  }

  function Add(selected: seq<Candidate>, c: Candidate, limit: int): seq<Candidate> {
    if |selected| >= limit || Repeats(selected, c) then selected else selected + [c]
  }

  function AddAll(selected: seq<Candidate>, cs: seq<Candidate>, limit: int): seq<Candidate> {
    if cs == [] then selected else Add(AddAll(selected, cs[..|cs| - 1], limit), cs[|cs| - 1], limit)
  }

  predicate NonEmpty(gs: seq<seq<Candidate>>) {
    forall i :: 0 <= i < |gs| ==> gs[i] != []
  }

  /** The bindings in the order in which they first occur. */
  function Keys(cs: seq<Candidate>): (ks: seq<nat>) {
    if cs == [] then []
    else
      var ks, c := Keys(cs[..|cs| - 1]), cs[|cs| - 1];
      if c.binding in ks then ks else ks + [c.binding]
  }

  function WithBinding(cs: seq<Candidate>, b: nat): seq<Candidate> {
    if cs == [] then []
    else
      var g, c := WithBinding(cs[..|cs| - 1], b), cs[|cs| - 1];
      if c.binding == b then g + [c] else g
  }

  /** The candidates grouped by binding. */
  function Groups(cs: seq<Candidate>): (gs: seq<seq<Candidate>>)
    ensures |gs| == |Keys(cs)| && forall i :: 0 <= i < |gs| ==> gs[i] == WithBinding(cs, Keys(cs)[i])
  {
    seq(|Keys(cs)|, i requires 0 <= i < |Keys(cs)| => WithBinding(cs, Keys(cs)[i]))
  }

  lemma {:induction false} WithBindingMembers(cs: seq<Candidate>, b: nat)
    ensures forall c :: c in WithBinding(cs, b) <==> c in cs && c.binding == b
  {
    if cs != [] {
      WithBindingMembers(cs[..|cs| - 1], b);
      assert cs == cs[..|cs| - 1] + [cs[|cs| - 1]];
    }
  }

  lemma {:induction false} KeysMembers(cs: seq<Candidate>)
    ensures forall b :: b in Keys(cs) <==> exists c :: c in cs && c.binding == b
  {
    if cs != [] {
      var front, last := cs[..|cs| - 1], cs[|cs| - 1];
      KeysMembers(front);
      assert cs == front + [last];
      assert last in cs;
      forall b | b in Keys(cs)
        ensures exists c :: c in cs && c.binding == b
      {
        if b in Keys(front) {
          var c :| c in front && c.binding == b;
          assert c in cs;
        }
      }
    }
  }

  lemma GroupsNonEmpty(cs: seq<Candidate>)
    ensures NonEmpty(Groups(cs))
  {
    var gs := Groups(cs);
    forall i | 0 <= i < |gs|
      ensures gs[i] != []
    {
      var b := Keys(cs)[i];
      assert b in Keys(cs);
      KeysMembers(cs);
      var c :| c in cs && c.binding == b;
      WithBindingMembers(cs, b);
      assert c in gs[i];
    }
  }

  predicate ByHead(a: seq<Candidate>, b: seq<Candidate>) {
    a == [] || (b != [] && ByCost(a[0], b[0]))
  }

  /** The position of the first candidate with a new skeleton. */
  function FirstNew(g: seq<Candidate>, skeletons: set<nat>): (i: nat)
    ensures i <= |g| && (i < |g| ==> g[i].skeleton !in skeletons)
    ensures forall j :: 0 <= j < i ==> g[j].skeleton in skeletons
  {
    if g == [] || g[0].skeleton !in skeletons then 0 else 1 + FirstNew(g[1..], skeletons)
  }

  function Preferred(g: seq<Candidate>, skeletons: set<nat>): (c: Candidate)
    requires g != []
    ensures c in g
  {
    var i := FirstNew(g, skeletons);
    if i < |g| then g[i] else g[0]
  }

  function PickAll(selected: seq<Candidate>, gs: seq<seq<Candidate>>, limit: int): seq<Candidate>
    requires NonEmpty(gs)
  {
    if gs == [] then selected
    else
      var s := PickAll(selected, gs[..|gs| - 1], limit);
      Add(s, Preferred(gs[|gs| - 1], Skeletons(s)), limit)
  }

  /** The first candidate of each skeleton. */
  function Cheapest(cs: seq<Candidate>): seq<Candidate> {
    if cs == [] then []
    else
      var r, c := Cheapest(cs[..|cs| - 1]), cs[|cs| - 1];
      if c.skeleton in Skeletons(r) then r else r + [c]
  }

  function SortedGroups(cs: seq<Candidate>): (gs: seq<seq<Candidate>>)
    ensures NonEmpty(gs)
  {
    GroupsNonEmpty(cs);
    SortKeepsNonEmpty(Groups(cs));
    Sort(Groups(cs), ByHead)
  }

  lemma SortKeepsNonEmpty(gs: seq<seq<Candidate>>)
    requires NonEmpty(gs)
    ensures NonEmpty(Sort(gs, ByHead))
  {
    SortPermutes(gs, ByHead);
    var r := Sort(gs, ByHead);
    forall i | 0 <= i < |r|
      ensures r[i] != []
    {
      assert r[i] in multiset(gs);
    }
  }

  /** What is chosen, in the order of choice. */
  function Chosen(candidates: seq<Candidate>, limit: int, preselected: seq<Candidate>): seq<Candidate> {
    var ordered := Sort(candidates, ByCost);
    var first := PickAll(preselected, SortedGroups(ordered), limit);
    var second := AddAll(first, Sort(Cheapest(ordered), ByCost), limit);
    AddAll(second, ordered, limit)
  }

  function Select(candidates: seq<Candidate>, limit: int, preselected: seq<Candidate>): seq<Candidate> {
    if limit <= 0 then Sort(candidates, ByCost) else Sort(Chosen(candidates, limit, preselected), ById)
  }

  // ---------------------------------------------------------------------------
  // The choice as the source makes it.

  lemma {:induction false} FullStays(selected: seq<Candidate>, cs: seq<Candidate>, limit: int)
    requires |selected| >= limit
    ensures AddAll(selected, cs, limit) == selected
  {
    if cs != [] {
      FullStays(selected, cs[..|cs| - 1], limit);
    }
  }

  class Selection {
    const limit: int
    var selected: seq<Candidate>
    var ids: set<int>
    var skeletons: set<nat>
    var signatures: set<nat>

    ghost predicate Valid()
      reads this
    {
      ids == Ids(selected) && skeletons == Skeletons(selected) && signatures == Signatures(selected)
    }

    constructor (limit: int, preselected: seq<Candidate>)
      ensures Valid() && selected == preselected && this.limit == limit
    {
      this.limit := limit;
      selected := preselected;
      ids, skeletons, signatures := Ids(preselected), Skeletons(preselected), Signatures(preselected);
    }

    method AddCandidate(c: Candidate) returns (added: bool)
      requires Valid()
      modifies this
      ensures Valid() && selected == Add(old(selected), c, limit)
      ensures added <==> selected != old(selected)
    {
      if c.idx in ids || |selected| >= limit || c.signature in signatures {
        return false;
      }
      selected := selected + [c];
      ids, skeletons, signatures := ids + {c.idx}, skeletons + {c.skeleton}, signatures + {c.signature};
      return true;
    }

    method AddCandidates(cs: seq<Candidate>)
      requires Valid()
      modifies this
      ensures Valid() && selected == AddAll(old(selected), cs, limit)
    {
      for i := 0 to |cs|
        invariant Valid() && selected == AddAll(old(selected), cs[..i], limit)
      {
        assert cs[..i + 1][..i] == cs[..i];
        var _ := AddCandidate(cs[i]);
      }
      assert cs[..|cs|] == cs;
    }

    /** The first candidate of the group with a new skeleton, or else its first one. */
    method Prefer(g: seq<Candidate>) returns (c: Candidate)
      requires Valid() && g != []
      ensures c == Preferred(g, Skeletons(selected))
    {
      for i := 0 to |g|
        invariant forall j :: 0 <= j < i ==> g[j].skeleton in skeletons
      {
        if g[i].skeleton !in skeletons {
          return g[i];
        }
      }
      return g[0];
    }

    method AddPerBinding(gs: seq<seq<Candidate>>)
      requires Valid() && NonEmpty(gs)
      modifies this
      ensures Valid() && selected == PickAll(old(selected), gs, limit)
    {
      for i := 0 to |gs|
        invariant Valid() && selected == PickAll(old(selected), gs[..i], limit)
      {
        assert gs[..i + 1][..i] == gs[..i];
        var preferred := Prefer(gs[i]);
        var _ := AddCandidate(preferred);
      }
      assert gs[..|gs|] == gs;
    }
  }

  /** The dictionary of the groups of a list, with its keys in the order of their insertion. */
  ghost predicate Filled(byBinding: map<nat, seq<Candidate>>, keys: seq<nat>, cs: seq<Candidate>) {
    && keys == Keys(cs)
    && (forall b: nat :: b in byBinding <==> b in keys)
    && (forall b: nat :: b in byBinding ==> byBinding[b] == WithBinding(cs, b))
  }

  lemma FilledSnoc(byBinding: map<nat, seq<Candidate>>, keys: seq<nat>, cs: seq<Candidate>, c: Candidate)
    requires Filled(byBinding, keys, cs)
    ensures var b := c.binding;
            var g := if b in byBinding then byBinding[b] else [];
            Filled(byBinding[b := g + [c]], if b in byBinding then keys else keys + [b], cs + [c])
  {
    var b := c.binding;
    assert (cs + [c])[..|cs|] == cs;
    if b !in byBinding {
      KeysMembers(cs);
      WithBindingMembers(cs, b);
      assert WithBinding(cs, b) == [] by {
        if WithBinding(cs, b) != [] {
          assert WithBinding(cs, b)[0] in WithBinding(cs, b);
        }
      }
    }
  }

  /** by_binding.setdefault(key, []).append(candidate) for every candidate. */
  method GroupByBinding(cs: seq<Candidate>) returns (gs: seq<seq<Candidate>>)
    ensures gs == Groups(cs)
  {
    hide Filled;
    var keys: seq<nat> := [];
    var byBinding: map<nat, seq<Candidate>> := map[];
    assert Filled(byBinding, keys, []) by { NothingFilled(); }
    for i := 0 to |cs|
      invariant Filled(byBinding, keys, cs[..i])
    {
      FilledSnoc(byBinding, keys, cs[..i], cs[i]);
      assert cs[..i + 1] == cs[..i] + [cs[i]];
      var b := cs[i].binding;
      if b !in byBinding {
        keys, byBinding := keys + [b], byBinding[b := [cs[i]]];
        assert [cs[i]] == [] + [cs[i]];
      } else {
        byBinding := byBinding[b := byBinding[b] + [cs[i]]];
      }
    }
    assert cs[..|cs|] == cs;
    FilledGroups(byBinding, keys, cs);
    gs := [];
    for i := 0 to |keys|
      invariant gs == Groups(cs)[..i]
    {
      gs := gs + [byBinding[keys[i]]];
    }
  }

  lemma NothingFilled()
    ensures Filled(map[], [], [])
  {
  }

  lemma FilledGroups(byBinding: map<nat, seq<Candidate>>, keys: seq<nat>, cs: seq<Candidate>)
    requires Filled(byBinding, keys, cs)
    ensures |Groups(cs)| == |keys|
    ensures forall i :: 0 <= i < |keys| ==> keys[i] in byBinding && byBinding[keys[i]] == Groups(cs)[i]
  {
    assert forall i :: 0 <= i < |keys| ==> keys[i] in keys;
  }

  /** cheapest_by_skeleton.setdefault(key, candidate) for every candidate. */
  method CheapestBySkeleton(cs: seq<Candidate>) returns (cheapest: seq<Candidate>)
    ensures cheapest == Cheapest(cs)
  {
    cheapest := [];
    for i := 0 to |cs|
      invariant cheapest == Cheapest(cs[..i])
    {
      assert cs[..i + 1][..i] == cs[..i];
      if cs[i].skeleton !in Skeletons(cheapest) {
        cheapest := cheapest + [cs[i]];
      }
    }
    assert cs[..|cs|] == cs;
  }

  method SelectBindingAware(candidates: seq<Candidate>, limit: int,
                            preselected: seq<Candidate>) returns (r: seq<Candidate>)
    ensures r == Select(candidates, limit, preselected)
  {
    if limit <= 0 {
      return Sort(candidates, ByCost);
    }
    var ordered := Sort(candidates, ByCost);
    var s := new Selection(limit, preselected);
    var groups := GroupByBinding(ordered);
    GroupsNonEmpty(ordered);
    SortKeepsNonEmpty(groups);
    s.AddPerBinding(Sort(groups, ByHead));
    if |s.selected| < limit {
      var cheapest := CheapestBySkeleton(ordered);
      s.AddCandidates(Sort(cheapest, ByCost));
    } else {
      FullStays(s.selected, Sort(Cheapest(ordered), ByCost), limit);
    }
    if |s.selected| < limit {
      s.AddCandidates(ordered);
    } else {
      FullStays(s.selected, ordered, limit);
    }
    return Sort(s.selected, ById);
  }

  // ---------------------------------------------------------------------------
  // What is promised of it.

  /** One selection grows out of another: nothing is dropped, everything added is a candidate with
      a new idx and a new signature, and the limit is kept. */
  ghost predicate Grows(pre: seq<Candidate>, selected: seq<Candidate>, candidates: seq<Candidate>, limit: int) {
    && pre <= selected
    && (|selected| <= limit || selected == pre)
    && forall i :: |pre| <= i < |selected| ==> selected[i] in candidates && !Repeats(selected[..i], selected[i])
  }

  ghost predicate Saturated(selected: seq<Candidate>, candidates: seq<Candidate>, limit: int) {
    |selected| >= limit || forall c :: c in candidates ==> Repeats(selected, c)
  }

  lemma AddGrows(pre: seq<Candidate>, selected: seq<Candidate>, c: Candidate, candidates: seq<Candidate>, limit: int)
    requires Grows(pre, selected, candidates, limit) && c in candidates
    ensures Grows(pre, Add(selected, c, limit), candidates, limit)
    ensures selected <= Add(selected, c, limit)
    ensures |Add(selected, c, limit)| >= limit || Repeats(Add(selected, c, limit), c)
    ensures |Add(selected, c, limit)| <= |selected| + 1
  {
    var r := Add(selected, c, limit);
    assert forall i :: 0 <= i <= |selected| ==> r[..i] == selected[..i];
    assert r != selected ==> c in r;
  }

  lemma RepeatsMore(selected: seq<Candidate>, more: seq<Candidate>, c: Candidate)
    requires selected <= more && Repeats(selected, c)
    ensures Repeats(more, c)
  {
    assert forall d :: d in selected ==> d in more;
  }

  lemma {:induction false} AddAllGrows(pre: seq<Candidate>, selected: seq<Candidate>, cs: seq<Candidate>,
                                       candidates: seq<Candidate>, limit: int)
    requires Grows(pre, selected, candidates, limit) && forall c :: c in cs ==> c in candidates
    ensures Grows(pre, AddAll(selected, cs, limit), candidates, limit)
    ensures selected <= AddAll(selected, cs, limit)
    ensures Saturated(AddAll(selected, cs, limit), cs, limit)
  {
    hide Grows, Add, Repeats;
    if cs != [] {
      var front, c := cs[..|cs| - 1], cs[|cs| - 1];
      AddAllGrows(pre, selected, front, candidates, limit);
      var s := AddAll(selected, front, limit);
      AddGrows(pre, s, c, candidates, limit);
      var r := AddAll(selected, cs, limit);
      assert cs == front + [c];
      forall d | d in cs && |r| < limit
        ensures Repeats(r, d)
      {
        if d in front {
          RepeatsMore(s, r, d);
        }
      }
    }
  }

  ghost predicate GroupsIn(gs: seq<seq<Candidate>>, candidates: seq<Candidate>) {
    forall i, c :: 0 <= i < |gs| && c in gs[i] ==> c in candidates
  }

  /** Some member of the group is chosen or repeats what is. */
  ghost predicate Represented(selected: seq<Candidate>, g: seq<Candidate>) {
    exists c :: c in g && Repeats(selected, c)
  }

  lemma GrowsSelf(pre: seq<Candidate>, candidates: seq<Candidate>, limit: int)
    ensures Grows(pre, pre, candidates, limit)
  {
  }

  lemma {:induction false} PickAllGrows(pre: seq<Candidate>, gs: seq<seq<Candidate>>,
                                        candidates: seq<Candidate>, limit: int)
    requires NonEmpty(gs) && GroupsIn(gs, candidates)
    ensures Grows(pre, PickAll(pre, gs, limit), candidates, limit)
    ensures |PickAll(pre, gs, limit)| <= |pre| + |gs|
    ensures |pre| + |gs| <= limit ==> AllRepresented(PickAll(pre, gs, limit), gs)
  {
    hide Grows, Repeats, Preferred, AllRepresented;
    if gs == [] {
      GrowsSelf(pre, candidates, limit);
      AllRepresentedSnoc(pre, pre, gs, []);
      assert gs + [] == gs;
    } else {
      var front, g := gs[..|gs| - 1], gs[|gs| - 1];
      assert GroupsIn(front, candidates) && gs == front + [g];
      PickAllGrows(pre, front, candidates, limit);
      var s := PickAll(pre, front, limit);
      var c := Preferred(g, Skeletons(s));
      assert c in candidates by { assert c in gs[|front|]; }
      AddGrows(pre, s, c, candidates, limit);
      var r := Add(s, c, limit);
      assert r == PickAll(pre, gs, limit);
      if |pre| + |gs| <= limit {
        assert Repeats(r, c) by { AddRepeats(s, c, limit); }
        assert Represented(r, g);
        AllRepresentedSnoc(s, r, front, [g]);
      }
    }
  }

  lemma AddRepeats(selected: seq<Candidate>, c: Candidate, limit: int)
    requires |selected| < limit
    ensures Repeats(Add(selected, c, limit), c)
  {
    assert c in selected + [c];
  }

  ghost predicate AllRepresented(selected: seq<Candidate>, gs: seq<seq<Candidate>>) {
    forall i :: 0 <= i < |gs| ==> Represented(selected, gs[i])
  }

  lemma AllRepresentedSnoc(selected: seq<Candidate>, more: seq<Candidate>, gs: seq<seq<Candidate>>,
                           last: seq<seq<Candidate>>)
    requires selected <= more
    requires gs == [] || AllRepresented(selected, gs)
    requires last == [] || (|last| == 1 && Represented(more, last[0]))
    ensures AllRepresented(more, gs + last)
  {
    hide Repeats;
    forall i | 0 <= i < |gs|
      ensures Represented(more, gs[i])
    {
      var d :| d in gs[i] && Repeats(selected, d);
      RepeatsMore(selected, more, d);
    }
  }

  lemma SortMembers<T>(xs: seq<T>, leq: (T, T) -> bool)
    ensures forall x :: x in Sort(xs, leq) <==> x in xs
  {
    SortPermutes(xs, leq);
    assert forall x :: x in Sort(xs, leq) <==> x in multiset(Sort(xs, leq));
  }

  lemma {:induction false} CheapestMembers(cs: seq<Candidate>)
    ensures forall c :: c in Cheapest(cs) ==> c in cs
  {
    if cs != [] {
      CheapestMembers(cs[..|cs| - 1]);
    }
  }

  ghost function Bindings(cs: seq<Candidate>): set<nat> {
    set c | c in cs :: c.binding
  }

  lemma {:induction false} KeysCount(cs: seq<Candidate>)
    ensures |Keys(cs)| == |Bindings(cs)|
  {
    if cs != [] {
      var front, last := cs[..|cs| - 1], cs[|cs| - 1];
      assert cs == front + [last];
      KeysCount(front);
      KeysMembers(front);
      assert last.binding in Keys(front) <==> last.binding in Bindings(front);
      assert Bindings(cs) == Bindings(front) + {last.binding};
    }
  }

  lemma GroupsInside(cs: seq<Candidate>)
    ensures GroupsIn(SortedGroups(cs), cs)
    ensures forall c :: c in cs ==> WithBinding(cs, c.binding) in SortedGroups(cs)
  {
    var gs := Groups(cs);
    SortMembers(gs, ByHead);
    forall i, c | 0 <= i < |SortedGroups(cs)| && c in SortedGroups(cs)[i]
      ensures c in cs
    {
      var g := SortedGroups(cs)[i];
      assert g in gs;
      var k :| 0 <= k < |gs| && gs[k] == g;
      WithBindingMembers(cs, Keys(cs)[k]);
    }
    forall c | c in cs
      ensures WithBinding(cs, c.binding) in SortedGroups(cs)
    {
      KeysMembers(cs);
      assert c.binding in Keys(cs);
      var k :| 0 <= k < |gs| && Keys(cs)[k] == c.binding;
      assert gs[k] in gs;
    }
  }

  /** The three passes grow the preselection to the limit or until every candidate repeats a
      chosen one. */
  lemma ChosenGrows(candidates: seq<Candidate>, limit: int, pre: seq<Candidate>)
    ensures Grows(pre, Chosen(candidates, limit, pre), candidates, limit)
    ensures Saturated(Chosen(candidates, limit, pre), candidates, limit)
  {
    hide Grows, Saturated, SortedGroups, PickAll, AddAll;
    var ordered := Sort(candidates, ByCost);
    SortMembers(candidates, ByCost);
    GroupsInside(ordered);
    assert GroupsIn(SortedGroups(ordered), candidates);
    PickAllGrows(pre, SortedGroups(ordered), candidates, limit);
    var first := PickAll(pre, SortedGroups(ordered), limit);
    var cheapest := Sort(Cheapest(ordered), ByCost);
    SortMembers(Cheapest(ordered), ByCost);
    CheapestMembers(ordered);
    AddAllGrows(pre, first, cheapest, candidates, limit);
    var second := AddAll(first, cheapest, limit);
    AddAllGrows(pre, second, ordered, candidates, limit);
    SaturatedMembers(Chosen(candidates, limit, pre), ordered, candidates, limit);
  }

  lemma SaturatedMembers(selected: seq<Candidate>, cs: seq<Candidate>, ds: seq<Candidate>, limit: int)
    requires Saturated(selected, cs, limit) && forall c :: c in ds ==> c in cs
    ensures Saturated(selected, ds, limit)
  {
  }

  /** With room for one candidate of each binding, every binding is represented, however many
      candidates there are. */
  lemma EveryBindingRepresented(candidates: seq<Candidate>, limit: int, pre: seq<Candidate>, c: Candidate)
    requires |pre| + |Bindings(candidates)| <= limit && c in candidates
    ensures exists d :: d in candidates && d.binding == c.binding && Repeats(Chosen(candidates, limit, pre), d)
  {
    hide Grows, PickAll, AddAll, Repeats;
    var ordered := Sort(candidates, ByCost);
    SortMembers(candidates, ByCost);
    assert Bindings(ordered) == Bindings(candidates);
    KeysCount(ordered);
    GroupsInside(ordered);
    var gs := SortedGroups(ordered);
    SortPermutes(Groups(ordered), ByHead);
    PickAllGrows(pre, gs, candidates, limit);
    var g := WithBinding(ordered, c.binding);
    assert g in gs;
    var k :| 0 <= k < |gs| && gs[k] == g;
    var first := PickAll(pre, gs, limit);
    assert Represented(first, gs[k]);
    var d :| d in g && Repeats(first, d);
    WithBindingMembers(ordered, c.binding);
    var cheapest := Sort(Cheapest(ordered), ByCost);
    SortMembers(Cheapest(ordered), ByCost);
    CheapestMembers(ordered);
    AddAllGrows(pre, first, cheapest, candidates, limit);
    var second := AddAll(first, cheapest, limit);
    AddAllGrows(pre, second, ordered, candidates, limit);
    RepeatsMore(first, second, d);
    RepeatsMore(second, Chosen(candidates, limit, pre), d);
  }

  lemma {:induction false} AddAllRoom(selected: seq<Candidate>, cs: seq<Candidate>, limit: int)
    requires |selected| + |cs| <= limit
    ensures |AddAll(selected, cs, limit)| <= |selected| + |cs|
    ensures forall c :: c in cs ==> Repeats(AddAll(selected, cs, limit), c)
  {
    hide Repeats;
    if cs != [] {
      var front, c := cs[..|cs| - 1], cs[|cs| - 1];
      assert cs == front + [c];
      AddAllRoom(selected, front, limit);
      var s := AddAll(selected, front, limit);
      AddRepeats(s, c, limit);
      forall d | d in front
        ensures Repeats(Add(s, c, limit), d)
      {
        RepeatsMore(s, Add(s, c, limit), d);
      }
    }
  }

  lemma {:induction false} CheapestCount(cs: seq<Candidate>)
    ensures Skeletons(Cheapest(cs)) == Skeletons(cs) && |Cheapest(cs)| == |Skeletons(cs)|
  {
    if cs != [] {
      var front, c := cs[..|cs| - 1], cs[|cs| - 1];
      assert cs == front + [c];
      CheapestCount(front);
      assert Skeletons(cs) == Skeletons(front) + {c.skeleton};
    }
  }

  /** With room for one candidate of each skeleton besides, every skeleton is represented too. */
  lemma EverySkeletonRepresented(candidates: seq<Candidate>, limit: int, pre: seq<Candidate>, c: Candidate)
    requires |pre| + |Bindings(candidates)| + |Skeletons(candidates)| <= limit && c in candidates
    ensures exists d :: d in candidates && d.skeleton == c.skeleton && Repeats(Chosen(candidates, limit, pre), d)
  {
    hide Grows, PickAll, AddAll, Repeats;
    var ordered := Sort(candidates, ByCost);
    SortMembers(candidates, ByCost);
    assert Bindings(ordered) == Bindings(candidates) && Skeletons(ordered) == Skeletons(candidates);
    KeysCount(ordered);
    CheapestCount(ordered);
    GroupsInside(ordered);
    var gs := SortedGroups(ordered);
    SortPermutes(Groups(ordered), ByHead);
    PickAllGrows(pre, gs, candidates, limit);
    var first := PickAll(pre, gs, limit);
    var cheapest := Sort(Cheapest(ordered), ByCost);
    SortMembers(Cheapest(ordered), ByCost);
    SortPermutes(Cheapest(ordered), ByCost);
    CheapestMembers(ordered);
    AddAllRoom(first, cheapest, limit);
    var second := AddAll(first, cheapest, limit);
    assert c.skeleton in Skeletons(Cheapest(ordered));
    var d :| d in Cheapest(ordered) && d.skeleton == c.skeleton;
    assert d in cheapest && d in ordered;
    AddAllGrows(pre, first, cheapest, candidates, limit);
    AddAllGrows(pre, second, ordered, candidates, limit);
    RepeatsMore(second, Chosen(candidates, limit, pre), d);
  }
}
