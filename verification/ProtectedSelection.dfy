/**
  Selection with protected members: the default plan when plans are evaluated
  (select_oracle_candidates), the default and the label when the data set is built
  (select_candidates).
 */
module ProtectedSelection {
  import opened Common
  import opened Sorting
  import opened CandidateSelection

  function Filter<T(!new)>(xs: seq<T>, p: T -> bool): (ys: seq<T>)
    ensures forall x :: x in ys <==> x in xs && p(x)
  {
    if xs == [] then [] else (if p(xs[0]) then [xs[0]] else []) + Filter(xs[1..], p)
  }

  /** next((x for x in xs if p(x)), None) */
  method FirstWhere<T(!new)>(xs: seq<T>, p: T -> bool) returns (r: Option<T>)
    ensures r == FirstOf(xs, p)
  {
    for i := 0 to |xs|
      invariant FirstOf(xs, p) == FirstOf(xs[i..], p)
    {
      if p(xs[i]) {
        return Some(xs[i]);
      }
    }
    return None;
  }

  function FirstOf<T(!new)>(xs: seq<T>, p: T -> bool): (r: Option<T>)
    ensures r.None? ==> forall x :: x in xs ==> !p(x)
    ensures r.Some? ==> r.value in xs && p(r.value)
  {
    if xs == [] then None else if p(xs[0]) then Some(xs[0]) else FirstOf(xs[1..], p)
  }

  // ---------------------------------------------------------------------------
  // What a selection does to the members it starts from.

  /** r holds pre and the added candidates, each with a new idx and signature when added. */
  ghost predicate Adds(pre: seq<Candidate>, r: seq<Candidate>, added: seq<Candidate>, candidates: seq<Candidate>) {
    && multiset(r) == multiset(pre) + multiset(added)
    && forall i :: 0 <= i < |added| ==> added[i] in candidates && !Repeats(pre + added[..i], added[i])
  }

  /** Nothing is lost, only new plans are added, and the limit is kept unless the members started
      with already exceed it. */
  ghost predicate Keeps(pre: seq<Candidate>, r: seq<Candidate>, candidates: seq<Candidate>, limit: int) {
    && (exists added :: Adds(pre, r, added, candidates))
    && (|r| <= limit || |r| == |pre|)
  }

  lemma SameMembers(a: seq<Candidate>, b: seq<Candidate>)
    requires multiset(a) == multiset(b)
    ensures |a| == |b|
    ensures forall c :: Repeats(a, c) <==> Repeats(b, c)
  {
    assert |multiset(a)| == |a| && |multiset(b)| == |b|;
    assert forall c :: c in a <==> c in multiset(a);
    assert forall c :: c in b <==> c in multiset(b);
    assert Ids(a) == Ids(b) && Signatures(a) == Signatures(b);
  }

  lemma SelectKeeps(candidates: seq<Candidate>, limit: int, pre: seq<Candidate>)
    requires limit > 0
    ensures Keeps(pre, Select(candidates, limit, pre), candidates, limit)
    ensures Saturated(Select(candidates, limit, pre), candidates, limit)
  {
    hide Repeats, Chosen;
    var chosen, r := Chosen(candidates, limit, pre), Select(candidates, limit, pre);
    ChosenGrows(candidates, limit, pre);
    SortPermutes(chosen, ById);
    SameMembers(chosen, r);
    var added := chosen[|pre|..];
    assert chosen == pre + added;
    forall i | 0 <= i < |added|
      ensures added[i] in candidates && !Repeats(pre + added[..i], added[i])
    {
      assert chosen[..|pre| + i] == pre + added[..i];
      assert chosen[|pre| + i] == added[i];
    }
    assert Adds(pre, r, added, candidates);
  }

  lemma AddsTrans(pre: seq<Candidate>, mid: seq<Candidate>, r: seq<Candidate>, first: seq<Candidate>,
                  second: seq<Candidate>, candidates: seq<Candidate>)
    requires Adds(pre, mid, first, candidates) && Adds(mid, r, second, candidates)
    ensures Adds(pre, r, first + second, candidates)
  {
    hide Repeats;
    var all := first + second;
    forall i | 0 <= i < |all|
      ensures all[i] in candidates && !Repeats(pre + all[..i], all[i])
    {
      if i < |first| {
        assert all[..i] == first[..i];
      } else {
        var j := i - |first|;
        assert all[..i] == first + second[..j];
        assert pre + all[..i] == (pre + first) + second[..j];
        assert multiset(mid + second[..j]) == multiset(pre + all[..i]);
        SameMembers(mid + second[..j], pre + all[..i]);
      }
    }
  }

  lemma AddsSize(pre: seq<Candidate>, r: seq<Candidate>, added: seq<Candidate>, candidates: seq<Candidate>)
    requires Adds(pre, r, added, candidates)
    ensures |r| == |pre| + |added| && (added == [] ==> multiset(r) == multiset(pre))
    ensures forall c :: Repeats(pre, c) ==> Repeats(r, c)
    ensures forall c :: c in pre || c in added ==> c in r
  {
    hide Repeats;
    var all := pre + added;
    assert multiset(all) == multiset(r);
    SameMembers(all, r);
    forall c | Repeats(pre, c)
      ensures Repeats(r, c)
    {
      RepeatsMore(pre, all, c);
    }
    forall c | c in pre || c in added
      ensures c in r
    {
      assert c in multiset(all);
    }
  }

  /** One selection after another. */
  lemma KeepsTrans(pre: seq<Candidate>, mid: seq<Candidate>, r: seq<Candidate>, candidates: seq<Candidate>, limit: int)
    requires Keeps(pre, mid, candidates, limit) && Keeps(mid, r, candidates, limit)
    ensures Keeps(pre, r, candidates, limit)
    ensures forall c :: Repeats(mid, c) ==> Repeats(r, c)
  {
    hide Repeats, Adds;
    var first :| Adds(pre, mid, first, candidates);
    var second :| Adds(mid, r, second, candidates);
    AddsTrans(pre, mid, r, first, second, candidates);
    AddsSize(pre, mid, first, candidates);
    AddsSize(mid, r, second, candidates);
  }

  lemma KeepsSelf(pre: seq<Candidate>, candidates: seq<Candidate>, limit: int)
    ensures Keeps(pre, pre, candidates, limit)
  {
    assert Adds(pre, pre, [], candidates);
  }

  lemma MembersKept(pre: seq<Candidate>, r: seq<Candidate>, candidates: seq<Candidate>, limit: int)
    requires Keeps(pre, r, candidates, limit)
    ensures forall c :: c in pre ==> c in r
    ensures forall c :: c in r ==> c in pre || c in candidates
  {
    var added :| Adds(pre, r, added, candidates);
    AddsSize(pre, r, added, candidates);
    forall c | c in r
      ensures c in pre || c in candidates
    {
      assert c in multiset(pre) + multiset(added);
    }
  }

  /** Sorting a selection changes nothing of this. */
  lemma SortKeeps(pre: seq<Candidate>, r: seq<Candidate>, candidates: seq<Candidate>, limit: int)
    requires Keeps(pre, r, candidates, limit)
    ensures Keeps(pre, Sort(r, ById), candidates, limit) && SortedBy(Sort(r, ById), ById)
    ensures |Sort(r, ById)| == |r| && forall c :: Repeats(r, c) <==> Repeats(Sort(r, ById), c)
  {
    hide Repeats;
    var added :| Adds(pre, r, added, candidates);
    SortPermutes(r, ById);
    SameMembers(r, Sort(r, ById));
    assert Adds(pre, Sort(r, ById), added, candidates);
    assert TotalPreorder(ById);
    SortSorts(r, ById);
  }

  // ---------------------------------------------------------------------------
  // The passes common to the two callers.

  function Head<T(!new)>(xs: seq<T>): (r: seq<T>)
    ensures |r| <= 1 && forall x :: x in r ==> x in xs
  {
    if xs == [] then [] else xs[..1]
  }

  lemma AddedDiffer(pre: seq<Candidate>, r: seq<Candidate>, added: seq<Candidate>, cs: seq<Candidate>, i: nat)
    requires Adds(pre, r, added, cs) && 1 <= i < |added|
    ensures added[i] != added[0] && added[i] in cs && added[0] in cs
  {
    assert added[..i][0] == added[0];
    assert added[0] in pre + added[..i];
  }

  lemma AtMostOne(pre: seq<Candidate>, r: seq<Candidate>, added: seq<Candidate>, cs: seq<Candidate>)
    requires Adds(pre, r, added, cs) && |cs| <= 1
    ensures |added| <= 1
  {
    hide Adds;
    if |added| > 1 {
      AddedDiffer(pre, r, added, cs, 1);
      assert false;
    }
  }

  /** A single candidate is either chosen or repeats a chosen one. */
  lemma OneMatch(pre: seq<Candidate>, r: seq<Candidate>, cs: seq<Candidate>, candidates: seq<Candidate>,
                 limit: int, top: int)
    requires |pre| < limit <= top && |cs| <= 1 && forall c :: c in cs ==> c in candidates
    requires Keeps(pre, r, cs, limit) && Saturated(r, cs, limit)
    ensures Keeps(pre, r, candidates, top) && |r| <= |pre| + 1
    ensures forall c :: c in cs ==> Repeats(r, c)
  {
    var added :| Adds(pre, r, added, cs);
    AtMostOne(pre, r, added, cs);
    assert Adds(pre, r, added, candidates);
    AddsSize(pre, r, added, cs);
    if |r| >= limit && cs != [] {
      assert added[0] in cs && cs[0] == added[0];
      assert added[0] in r;
    }
  }

  /** The selection after one first match. */
  function FirstMatch(selected: seq<Candidate>, cs: seq<Candidate>, limit: int): seq<Candidate> {
    var r := Select(cs, limit, selected);
    if |r| > |selected| then r else selected
  }

  /** The passes as a function. */
  function Fill(protected: seq<Candidate>, remaining: seq<Candidate>, limit: int, oneMore: bool): seq<Candidate> {
    var one :=
      if |protected| < limit then FirstMatch(protected, Head(remaining), if oneMore then |protected| + 1 else limit)
      else protected;
    var two :=
      if |one| < limit then
        FirstMatch(one, Head(Filter(remaining, MergeFriendly)), if oneMore then |one| + 1 else limit)
      else one;
    Sort(if |two| < limit then Select(remaining, limit, two) else two, ById)
  }

  lemma FirstMatchKeeps(selected: seq<Candidate>, cs: seq<Candidate>, limit: int, candidates: seq<Candidate>, top: int)
    requires |selected| < limit <= top && |cs| <= 1 && forall c :: c in cs ==> c in candidates
    ensures var r := FirstMatch(selected, cs, limit);
            && Keeps(selected, r, candidates, top) && |r| <= |selected| + 1
            && forall c :: c in cs ==> Repeats(r, c)
  {
    hide Keeps, Saturated, Select, Repeats;
    var result := Select(cs, limit, selected);
    SelectKeeps(cs, limit, selected);
    OneMatch(selected, result, cs, candidates, limit, top);
    if |result| <= |selected| {
      Unchanged(selected, result, cs, limit);
      KeepsSelf(selected, candidates, top);
    }
  }

  lemma Unchanged(pre: seq<Candidate>, r: seq<Candidate>, cs: seq<Candidate>, limit: int)
    requires Keeps(pre, r, cs, limit) && |r| <= |pre|
    ensures forall c :: Repeats(r, c) ==> Repeats(pre, c)
  {
    hide Repeats, Adds;
    var added :| Adds(pre, r, added, cs);
    AddsSize(pre, r, added, cs);
    SameMembers(pre, r);
  }

  lemma FullSaturated(r: seq<Candidate>, candidates: seq<Candidate>, limit: int)
    requires |r| >= limit
    ensures Saturated(r, candidates, limit)
  {
  }

  lemma SameSaturated(r: seq<Candidate>, like: seq<Candidate>, candidates: seq<Candidate>, limit: int)
    requires Saturated(r, candidates, limit) && |r| == |like| && forall c :: Repeats(r, c) <==> Repeats(like, c)
    ensures Saturated(like, candidates, limit)
  {
  }

  predicate MergeFriendly(c: Candidate) {
    c.mergeFriendly
  }

  /** The outcome of the passes: the members started with are kept, the first candidate and the
      first merge-friendly one are represented if there is room for them, and the choice stops
      short of the limit only when every candidate repeats a chosen one. */
  ghost predicate Filled(pre: seq<Candidate>, r: seq<Candidate>, remaining: seq<Candidate>, limit: int) {
    && Keeps(pre, r, remaining, limit) && Saturated(r, remaining, limit) && SortedBy(r, ById)
    && (|pre| < limit ==> forall c :: c in Head(remaining) ==> Repeats(r, c))
    && (|pre| + 1 < limit ==> forall c :: c in Head(Filter(remaining, MergeFriendly)) ==> Repeats(r, c))
  }

  lemma FillIsFilled(protected: seq<Candidate>, remaining: seq<Candidate>, limit: int, oneMore: bool)
    requires limit > 0
    ensures Filled(protected, Fill(protected, remaining, limit, oneMore), remaining, limit)
  {
    hide Keeps, Repeats, Saturated, Select, FirstMatch;
    var first, friendly := Head(remaining), Head(Filter(remaining, MergeFriendly));
    var one, two, three := protected, [], [];
    KeepsSelf(protected, remaining, limit);
    if |protected| < limit {
      var step := if oneMore then |protected| + 1 else limit;
      one := FirstMatch(protected, first, step);
      FirstMatchKeeps(protected, first, step, remaining, limit);
    }
    two := one;
    KeepsSelf(one, remaining, limit);
    if |one| < limit {
      var step := if oneMore then |one| + 1 else limit;
      two := FirstMatch(one, friendly, step);
      FirstMatchKeeps(one, friendly, step, remaining, limit);
    }
    KeepsTrans(protected, one, two, remaining, limit);
    three := two;
    if |two| < limit {
      three := Select(remaining, limit, two);
      SelectKeeps(remaining, limit, two);
    } else {
      KeepsSelf(two, remaining, limit);
      FullSaturated(two, remaining, limit);
    }
    KeepsTrans(protected, two, three, remaining, limit);
    SortKeeps(protected, three, remaining, limit);
    SameSaturated(three, Sort(three, ById), remaining, limit);
  }

  /** add_first_match. */
  method AddFirstMatch(selected: seq<Candidate>, cs: seq<Candidate>, limit: int) returns (r: seq<Candidate>)
    ensures r == FirstMatch(selected, cs, limit)
  {
    var result := SelectBindingAware(cs, limit, selected);
    return if |result| > |selected| then result else selected;
  }

  /** The cheapest candidate, then the cheapest merge-friendly one, then the rest. A first match
      may be limited to one more member. */
  method FillUp(protected: seq<Candidate>, remaining: seq<Candidate>, limit: int,
                oneMore: bool) returns (r: seq<Candidate>)
    requires limit > 0
    ensures r == Fill(protected, remaining, limit, oneMore)
    ensures Filled(protected, r, remaining, limit)
  {
    hide Select, FirstMatch, Filled;
    var selected := protected;
    if |selected| < limit {
      selected := AddFirstMatch(selected, Head(remaining), if oneMore then |selected| + 1 else limit);
    }
    if |selected| < limit {
      var friendly := Filter(remaining, MergeFriendly);
      selected := AddFirstMatch(selected, Head(friendly), if oneMore then |selected| + 1 else limit);
    }
    if |selected| < limit {
      selected := SelectBindingAware(remaining, limit, selected);
    }
    r := Sort(selected, ById);
    FillIsFilled(protected, remaining, limit, oneMore);
  }

  // ---------------------------------------------------------------------------
  // The two callers.

  predicate IsDefault(c: Candidate) {
    c.isDefault
  }

  predicate NotDefault(c: Candidate) {
    !c.isDefault
  }

  function AsList<T>(o: Option<T>): seq<T> {
    if o.Some? then [o.value] else []
  }

  function OracleSelection(candidates: seq<Candidate>, limit: int): seq<Candidate> {
    if limit <= 0 then Sort(candidates, ById)
    else Fill(AsList(FirstOf(candidates, IsDefault)), Filter(Sort(candidates, ByCost), NotDefault), limit, true)
  }

  /** What select_oracle_candidates promises: within the limit, and with the first default. */
  lemma OracleSelectionMeaning(candidates: seq<Candidate>, limit: int)
    ensures var r := OracleSelection(candidates, limit);
            && (limit > 0 ==>
                  && |r| <= limit
                  && Filled(AsList(FirstOf(candidates, IsDefault)), r,
                            Filter(Sort(candidates, ByCost), NotDefault), limit))
            && (FirstOf(candidates, IsDefault).Some? ==> FirstOf(candidates, IsDefault).value in r)
            && (forall c :: c in r ==> c in candidates)
  {
    hide Filled, Fill;
    SortMembers(candidates, ById);
    if limit > 0 {
      var pre, rest := AsList(FirstOf(candidates, IsDefault)), Filter(Sort(candidates, ByCost), NotDefault);
      FillIsFilled(pre, rest, limit, true);
      FilledKeeps(pre, Fill(pre, rest, limit, true), rest, limit);
      SortMembers(candidates, ByCost);
    }
  }

  method SelectOracleCandidates(candidates: seq<Candidate>, limit: int) returns (r: seq<Candidate>)
    ensures r == OracleSelection(candidates, limit)
  {
    if limit <= 0 {
      return Sort(candidates, ById);
    }
    var default := FirstWhere(candidates, IsDefault);
    var selected := AsList(default);
    var nonDefault := Filter(Sort(candidates, ByCost), NotDefault);
    r := FillUp(selected, nonDefault, limit, true);
  }

  lemma FilledKeeps(pre: seq<Candidate>, r: seq<Candidate>, remaining: seq<Candidate>, limit: int)
    requires Filled(pre, r, remaining, limit)
    ensures (|r| <= limit || |r| == |pre|) && forall c :: c in pre ==> c in r
    ensures forall c :: c in r ==> c in pre || c in remaining
  {
    MembersKept(pre, r, remaining, limit);
  }

  /** The default and, unless it is that very row, the labelled row. */
  function Protected(candidates: seq<Candidate>, labelId: int): seq<Candidate> {
    var default := AsList(FirstOf(candidates, IsDefault));
    var row := AsList(FirstOf(candidates, (c: Candidate) => c.idx == labelId));
    if row != [] && row[0].idx !in Ids(default) then default + row else default
  }

  /** select_candidates: the default and the label are always among the result. */
  method SelectCandidates(candidates: seq<Candidate>, labelId: int, limit: int) returns (r: seq<Candidate>)
    ensures limit <= 0 || |candidates| <= limit ==> r == Sort(candidates, ById)
    ensures limit > 0 && |candidates| > limit ==>
              var pre := Protected(candidates, labelId);
              Filled(pre, r, Filter(Sort(candidates, ByCost), (c: Candidate) => c.idx !in Ids(pre)), limit)
    ensures limit > 0 && |candidates| > limit ==> |r| <= limit || |r| == |Protected(candidates, labelId)| <= 2
    ensures FirstOf(candidates, IsDefault).Some? ==> FirstOf(candidates, IsDefault).value in r
    ensures labelId in Ids(candidates) ==> labelId in Ids(r)
  {
    hide Filled;
    SortMembers(candidates, ById);
    if limit <= 0 || |candidates| <= limit {
      return Sort(candidates, ById);
    }
    var default := FirstWhere(candidates, IsDefault);
    var row := FirstWhere(candidates, (c: Candidate) => c.idx == labelId);
    var protected := AsList(default);
    if row.Some? && (forall c :: c in protected ==> c.idx != row.value.idx) {
      protected := protected + [row.value];
    }
    assert protected == Protected(candidates, labelId);
    var remaining := Filter(Sort(candidates, ByCost), (c: Candidate) => c.idx !in Ids(protected));
    r := FillUp(protected, remaining, limit, false);
    FilledKeeps(protected, r, remaining, limit);
    LabelProtected(candidates, labelId, r);
  }

  lemma LabelProtected(candidates: seq<Candidate>, labelId: int, r: seq<Candidate>)
    requires forall c :: c in Protected(candidates, labelId) ==> c in r
    ensures FirstOf(candidates, IsDefault).Some? ==> FirstOf(candidates, IsDefault).value in r
    ensures labelId in Ids(candidates) ==> labelId in Ids(r)
  {
    var pre := Protected(candidates, labelId);
    var default := FirstOf(candidates, IsDefault);
    var row := FirstOf(candidates, (c: Candidate) => c.idx == labelId);
    if default.Some? {
      assert pre[0] == default.value && pre[0] in pre;
    }
    if labelId in Ids(candidates) {
      assert row.Some?;
      if row.value.idx in Ids(AsList(default)) {
        assert default.value.idx == labelId;
      } else {
        assert pre[|pre| - 1] == row.value && pre[|pre| - 1] in pre;
      }
    }
  }
}
