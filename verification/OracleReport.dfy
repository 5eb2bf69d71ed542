/**
  The evaluation of a list of queries into a report that can be resumed
  (evaluate_bound_candidate_oracle.py). What the database answers about a query is an observation:
  its runtimes are part of the input.
 */
module OracleReport {
  import opened Common
  import opened Sorting
  import opened CandidateSelection
  import opened ProtectedSelection

  /** modes are the candidates collected in each representation mode, exact is the default plan if
      it could be collected, and runtime is the measured time of each other candidate. */
  datatype Observation = Observation(
    defaultMs: Option<real>,
    collectOk: bool,
    modes: seq<seq<Candidate>>,
    exact: Option<Candidate>,
    runtime: int -> Option<real>)

  datatype Row = Row(
    name: string,
    defaultSuccess: bool,
    collected: bool,
    eligible: bool,
    defaultMs: Option<real>,
    plannerMinMs: Option<real>,
    oracleMs: Option<real>)

  datatype Summary = Summary(
    queries: nat,
    defaultSuccess: nat,
    collected: nat,
    eligible: nat,
    oracleBetter: nat,
    defaultNotWorse: nat,
    plannerMinEqual: nat)

  // ---------------------------------------------------------------------------
  // Collecting the candidates of a query.

  /** A collected candidate with its place in the merged list; none of them is a default. */
  function Renumber(c: Candidate, i: int): Candidate {
    c.(idx := i, isDefault := false, isExactDefault := false)
  }

  function Flatten(modes: seq<seq<Candidate>>): seq<Candidate> {
    if modes == [] then [] else Flatten(modes[..|modes| - 1]) + modes[|modes| - 1]
  }

  function Merged(cs: seq<Candidate>): (r: seq<Candidate>)
    ensures |r| == |cs| && forall i :: 0 <= i < |r| ==> r[i] == Renumber(cs[i], i)
  {
    seq(|cs|, i requires 0 <= i < |cs| => Renumber(cs[i], i))
  }

  /** The merging loops of collect_bound_candidates. */
  method CollectCandidates(modes: seq<seq<Candidate>>) returns (r: seq<Candidate>)
    ensures r == Merged(Flatten(modes))
  {
    r := [];
    var nextIdx := 0;
    for m := 0 to |modes|
      invariant nextIdx == |r| && r == Merged(Flatten(modes[..m]))
    {
      ghost var before := Flatten(modes[..m]);
      for i := 0 to |modes[m]|
        invariant nextIdx == |r| && r == Merged(before + modes[m][..i])
      {
        ghost var next := before + modes[m][..i + 1];
        assert next == before + modes[m][..i] + [modes[m][i]];
        r := r + [Renumber(modes[m][i], nextIdx)];
        nextIdx := nextIdx + 1;
        assert r == Merged(next);
      }
      assert modes[m][..|modes[m]|] == modes[m];
      assert modes[..m + 1][..m] == modes[..m];
    }
    assert modes[..|modes|] == modes;
  }

  /** The default plan under the next free idx. */
  function AsDefault(e: Candidate, nextIdx: int): Candidate {
    e.(idx := nextIdx, isDefault := true, isExactDefault := true)
  }

  /** The merged candidates and the default plan. */
  function Unsorted(o: Observation): seq<Candidate> {
    var cs := Merged(Flatten(o.modes));
    cs + if o.exact.Some? then [AsDefault(o.exact.value, |cs|)] else []
  }

  /** All candidates of a query, the default plan last. */
  function Candidates(o: Observation): seq<Candidate> {
    Sort(Unsorted(o), ById)
  }

  // ---------------------------------------------------------------------------
  // Evaluating the candidates of a query.

  function RuntimeOf(o: Observation, c: Candidate): Option<real> {
    if c.isExactDefault then o.defaultMs else o.runtime(c.idx)
  }

  /** The first of the cheapest candidates. */
  function MinCost(cs: seq<Candidate>): (c: Candidate)
    requires cs != []
    ensures c in cs && forall d :: d in cs ==> c.cost <= d.cost
  {
    if |cs| == 1 then cs[0]
    else
      var c := MinCost(cs[..|cs| - 1]);
      if cs[|cs| - 1].cost < c.cost then cs[|cs| - 1] else c
  }

  /** The least of the times that were measured. */
  function LeastTime(o: Observation, cs: seq<Candidate>): (r: Option<real>)
    ensures r.None? <==> forall c :: c in cs ==> RuntimeOf(o, c).None?
    ensures r.Some? ==> exists c :: c in cs && RuntimeOf(o, c) == r
    ensures r.Some? ==> forall c :: c in cs && RuntimeOf(o, c).Some? ==> r.value <= RuntimeOf(o, c).value
  {
    if cs == [] then None
    else
      var r, t := LeastTime(o, cs[..|cs| - 1]), RuntimeOf(o, cs[|cs| - 1]);
      if t.None? || (r.Some? && r.value <= t.value) then r else t
  }

  /** The row of a query. */
  function Evaluated(name: string, o: Observation, limit: int): Row {
    var collected := o.collectOk && Flatten(o.modes) != [];
    if !collected || o.defaultMs.None? then Row(name, o.defaultMs.Some?, collected, false, o.defaultMs, None, None)
    else
      var all := Candidates(o);
      SortPermutes(Unsorted(o), ById);
      var best := LeastTime(o, OracleSelection(all, limit));
      Row(name, true, true, best.Some?, o.defaultMs, RuntimeOf(o, MinCost(all)), best)
  }

  predicate DistinctIdx(cs: seq<Candidate>) {
    forall c, d :: c in cs && d in cs && c.idx == d.idx ==> c == d
  }

  lemma UnsortedSize(o: Observation)
    ensures |Unsorted(o)| >= |Flatten(o.modes)|
  {
  }

  lemma UnsortedFacts(o: Observation)
    ensures DistinctIdx(Unsorted(o))
    ensures forall c :: c in Unsorted(o) && (c.isDefault || c.isExactDefault) ==>
              o.exact.Some? && c == AsDefault(o.exact.value, |Flatten(o.modes)|)
    ensures o.exact.Some? ==> AsDefault(o.exact.value, |Flatten(o.modes)|) in Unsorted(o)
  {
    var cs, all := Merged(Flatten(o.modes)), Unsorted(o);
    assert forall i :: 0 <= i < |all| ==> all[i].idx == i;
    assert o.exact.Some? ==> all[|cs|] in all;
  }

  lemma CandidateFacts(o: Observation)
    ensures DistinctIdx(Candidates(o))
    ensures Flatten(o.modes) != [] ==> Candidates(o) != []
    ensures forall c :: c in Candidates(o) && (c.isDefault || c.isExactDefault) ==>
              o.exact.Some? && c == AsDefault(o.exact.value, |Flatten(o.modes)|)
    ensures o.exact.Some? ==> AsDefault(o.exact.value, |Flatten(o.modes)|) in Candidates(o)
  {
    hide Unsorted, AsDefault;
    var all := Unsorted(o);
    UnsortedFacts(o);
    UnsortedSize(o);
    SortMembers(all, ById);
    SortPermutes(all, ById);
  }

  /** The default plan is always evaluated: whenever it could be collected and timed, the query is
      eligible and the best time found is not above the default's. */
  lemma OracleNotWorse(name: string, o: Observation, limit: int)
    requires o.collectOk && Flatten(o.modes) != [] && o.defaultMs.Some? && o.exact.Some?
    ensures var row := Evaluated(name, o, limit);
            row.eligible && row.oracleMs.Some? && row.oracleMs.value <= o.defaultMs.value
  {
    var all := Candidates(o);
    CandidateFacts(o);
    var e := AsDefault(o.exact.value, |Flatten(o.modes)|);
    assert e in all && IsDefault(e);
    OracleSelectionMeaning(all, limit);
    assert FirstOf(all, IsDefault) == Some(e);
    assert RuntimeOf(o, e) == o.defaultMs;
  }

  /** In a list sorted by idx the first of the cheapest has the least idx of them. */
  lemma {:induction false} MinCostIsFirst(cs: seq<Candidate>)
    requires cs != [] && SortedBy(cs, ById)
    ensures forall d :: d in cs ==>
              MinCost(cs).cost < d.cost || (MinCost(cs).cost == d.cost && MinCost(cs).idx <= d.idx)
  {
    var n := |cs| - 1;
    if n > 0 {
      MinCostIsFirst(cs[..n]);
      var c := MinCost(cs[..n]);
      var k :| 0 <= k < n && cs[..n][k] == c;
      assert ById(cs[k], cs[n]);
      assert cs == cs[..n] + [cs[n]];
    }
  }

  /** The planner's time is that of the cheapest candidate, the least idx among equals. */
  lemma PlannerMinMeaning(name: string, o: Observation, limit: int, c: Candidate)
    requires o.collectOk && Flatten(o.modes) != [] && o.defaultMs.Some?
    requires c in Unsorted(o)
    requires forall d :: d in Unsorted(o) ==> c.cost < d.cost || (c.cost == d.cost && c.idx <= d.idx)
    ensures Evaluated(name, o, limit).plannerMinMs == if c.isExactDefault then o.defaultMs else o.runtime(c.idx)
  {
    hide Unsorted, OracleSelection;
    var all := Candidates(o);
    CandidateFacts(o);
    SortMembers(Unsorted(o), ById);
    assert TotalPreorder(ById);
    SortSorts(Unsorted(o), ById);
    MinCostIsFirst(all);
    assert MinCost(all) == c;
  }

  /** The selection holds candidates only, keeps the limit, and stops short of it only when every
      candidate but a default repeats one of it. */
  lemma SelectionFacts(cs: seq<Candidate>, limit: int)
    ensures var r := OracleSelection(cs, limit);
            && (forall c :: c in r ==> c in cs)
            && (limit <= 0 ==> forall c :: c in cs ==> c in r)
            && (limit > 0 ==> |r| <= limit)
            && (limit > 0 && |r| < limit ==> forall c :: c in cs && !c.isDefault ==> Repeats(r, c))
  {
    hide Repeats, Keeps, Fill;
    OracleSelectionMeaning(cs, limit);
    SortMembers(cs, ById);
    SortMembers(cs, ByCost);
  }

  /** The oracle's time is the least among at most the limit of candidates, all of them when there is
      no limit, that are fewer only when every other candidate but a default repeats one of them. */
  lemma EvaluatedMeaning(name: string, o: Observation, limit: int) returns (chosen: seq<Candidate>)
    requires o.collectOk && Flatten(o.modes) != [] && o.defaultMs.Some?
    ensures var row := Evaluated(name, o, limit);
            && row.name == name && row.defaultSuccess && row.collected && row.defaultMs == o.defaultMs
            && (row.eligible <==> row.oracleMs.Some?)
            && (row.oracleMs.Some? <==> exists c :: c in chosen && RuntimeOf(o, c).Some?)
            && (forall c :: c in chosen && RuntimeOf(o, c).Some? ==> row.oracleMs.value <= RuntimeOf(o, c).value)
            && (row.oracleMs.Some? ==> exists c :: c in chosen && RuntimeOf(o, c) == row.oracleMs)
    ensures forall c :: c in chosen ==> c in Unsorted(o)
    ensures limit <= 0 ==> forall c :: c in Unsorted(o) ==> c in chosen
    ensures limit > 0 ==> |chosen| <= limit
    ensures limit > 0 && |chosen| < limit ==> forall c :: c in Unsorted(o) && !c.isDefault ==> Repeats(chosen, c)
  {
    hide Repeats, Unsorted, OracleSelection;
    var all := Candidates(o);
    CandidateFacts(o);
    SortMembers(Unsorted(o), ById);
    chosen := OracleSelection(all, limit);
    SelectionFacts(all, limit);
  }

  /** min(candidates, key=total_cost) */
  method PlannerMin(cs: seq<Candidate>) returns (c: Candidate)
    requires cs != []
    ensures c == MinCost(cs)
  {
    c := cs[0];
    for i := 1 to |cs|
      invariant c == MinCost(cs[..i])
    {
      assert cs[..i + 1][..i] == cs[..i];
      if cs[i].cost < c.cost {
        c := cs[i];
      }
    }
    assert cs[..|cs|] == cs;
  }

  /** The known runtimes are those of candidates. */
  ghost predicate Cached(o: Observation, cs: seq<Candidate>, byIdx: map<int, Option<real>>) {
    forall c :: c in cs && c.idx in byIdx ==> byIdx[c.idx] == RuntimeOf(o, c)
  }

  /** The loop over the chosen candidates: each is timed at most once and the best time is kept. */
  method BestTime(o: Observation, all: seq<Candidate>, chosen: seq<Candidate>,
                  known: map<int, Option<real>>) returns (best: Option<real>)
    requires DistinctIdx(all) && Cached(o, all, known) && forall c :: c in chosen ==> c in all
    ensures best == LeastTime(o, chosen)
  {
    best := None;
    var byIdx := known;
    for i := 0 to |chosen|
      invariant Cached(o, all, byIdx)
      invariant best == LeastTime(o, chosen[..i])
    {
      assert chosen[..i + 1][..i] == chosen[..i];
      var c := chosen[i];
      assert c in chosen;
      var t;
      if c.idx in byIdx {
        t := byIdx[c.idx];
      } else {
        t := if c.isExactDefault then o.defaultMs else o.runtime(c.idx);
        byIdx := byIdx[c.idx := t];
      }
      if t.Some? && (best.None? || t.value < best.value) {
        best := t;
      }
    }
    assert chosen[..|chosen|] == chosen;
  }

  /** The part of the loop in main that evaluates one query. */
  method EvaluateQuery(name: string, o: Observation, limit: int) returns (row: Row)
    ensures row == Evaluated(name, o, limit)
  {
    hide OracleSelection, Merged;
    var cs := CollectCandidates(o.modes);
    var collected := o.collectOk && cs != [];
    if !collected || o.defaultMs.None? {
      return Row(name, o.defaultMs.Some?, collected, false, o.defaultMs, None, None);
    }
    var exact := if o.exact.Some? then [AsDefault(o.exact.value, |cs|)] else [];
    var all := Sort(cs + exact, ById);
    assert all == Candidates(o);
    CandidateFacts(o);
    var cheapest := PlannerMin(all);
    var plannerMin := if cheapest.isExactDefault then o.defaultMs else o.runtime(cheapest.idx);
    var known := map[cheapest.idx := plannerMin];
    if exact != [] {
      known := known[exact[0].idx := o.defaultMs];
    }
    var chosen := SelectOracleCandidates(all, limit);
    OracleSelectionMeaning(all, limit);
    var best := BestTime(o, all, chosen, known);
    return Row(name, true, true, best.Some?, o.defaultMs, plannerMin, best);
  }

  // ---------------------------------------------------------------------------
  // Counters.

  function Count(rows: seq<Row>, p: Row -> bool): nat {
    if rows == [] then 0 else Count(rows[..|rows| - 1], p) + if p(rows[|rows| - 1]) then 1 else 0
  }

  predicate DefaultSucceeded(r: Row) {
    r.defaultSuccess
  }

  predicate Collected(r: Row) {
    r.defaultSuccess && r.collected
  }

  predicate Eligible(r: Row) {
    r.defaultSuccess && r.eligible
  }

  predicate OracleBetter(r: Row) {
    r.defaultMs.Some? && r.oracleMs.Some? && r.oracleMs.value < r.defaultMs.value
  }

  predicate DefaultNotWorse(r: Row) {
    r.defaultMs.Some? && r.oracleMs.Some? && r.oracleMs.value >= r.defaultMs.value
  }

  predicate PlannerMinEqual(r: Row) {
    r.plannerMinMs.Some? && r.oracleMs.Some? && r.plannerMinMs.value == r.oracleMs.value
  }

  function SummaryOf(rows: seq<Row>): Summary {
    Summary(|rows|, Count(rows, DefaultSucceeded), Count(rows, Collected), Count(rows, Eligible),
            Count(rows, OracleBetter), Count(rows, DefaultNotWorse), Count(rows, PlannerMinEqual))
  }

  /** recompute_report_counters. */
  method Recompute(rows: seq<Row>) returns (s: Summary)
    ensures s == SummaryOf(rows)
  {
    s := Summary(|rows|, 0, 0, 0, 0, 0, 0);
    for i := 0 to |rows|
      invariant s == SummaryOf(rows[..i]).(queries := |rows|)
    {
      assert rows[..i + 1][..i] == rows[..i];
      var r := rows[i];
      if r.defaultSuccess {
        s := s.(defaultSuccess := s.defaultSuccess + 1);
      }
      if r.defaultSuccess && r.collected {
        s := s.(collected := s.collected + 1);
      }
      if r.defaultSuccess && r.eligible {
        s := s.(eligible := s.eligible + 1);
      }
      if r.defaultMs.Some? && r.oracleMs.Some? {
        if r.oracleMs.value < r.defaultMs.value {
          s := s.(oracleBetter := s.oracleBetter + 1);
        } else {
          s := s.(defaultNotWorse := s.defaultNotWorse + 1);
        }
      }
      if r.plannerMinMs.Some? && r.oracleMs.Some? && r.plannerMinMs.value == r.oracleMs.value {
        s := s.(plannerMinEqual := s.plannerMinEqual + 1);
      }
    }
    assert rows[..|rows|] == rows;
  }

  lemma SummarySnoc(rows: seq<Row>, r: Row)
    ensures SummaryOf(rows + [r]) ==
            Summary(|rows| + 1,
                    Count(rows, DefaultSucceeded) + (if DefaultSucceeded(r) then 1 else 0),
                    Count(rows, Collected) + (if Collected(r) then 1 else 0),
                    Count(rows, Eligible) + (if Eligible(r) then 1 else 0),
                    Count(rows, OracleBetter) + (if OracleBetter(r) then 1 else 0),
                    Count(rows, DefaultNotWorse) + (if DefaultNotWorse(r) then 1 else 0),
                    Count(rows, PlannerMinEqual) + (if PlannerMinEqual(r) then 1 else 0))
  {
    assert (rows + [r])[..|rows|] == rows;
  }

  // ---------------------------------------------------------------------------
  // The report and its running counters.

  class Report {
    var rows: seq<Row>
    var summary: Summary
    var defaultSuccess: nat
    var collected: nat
    var eligible: nat
    var oracleBetter: nat
    var defaultBetter: nat
    var plannerMinMatches: nat

    /** The running counters and the stored summary are those of the rows. */
    ghost predicate Valid()
      reads this
    {
      && summary == SummaryOf(rows)
      && summary == Summary(|rows|, defaultSuccess, collected, eligible, oracleBetter, defaultBetter, plannerMinMatches)
    }

    /** A fresh report, or one read back from a file. */
    constructor (saved: seq<Row>)
      ensures Valid() && rows == saved
    {
      rows := saved;
      var s := Recompute(saved);
      summary := s;
      defaultSuccess, collected, eligible := s.defaultSuccess, s.collected, s.eligible;
      oracleBetter, defaultBetter, plannerMinMatches := s.oracleBetter, s.defaultNotWorse, s.plannerMinEqual;
    }

    /** The online updates of the counters for one row. */
    method CountRow(row: Row)
      requires row.defaultSuccess <==> row.defaultMs.Some?
      requires !(row.collected && row.defaultSuccess) ==> !row.eligible && row.oracleMs.None?
      modifies this`defaultSuccess, this`collected, this`eligible
      modifies this`oracleBetter, this`defaultBetter, this`plannerMinMatches
      ensures defaultSuccess == old(defaultSuccess) + (if DefaultSucceeded(row) then 1 else 0)
      ensures collected == old(collected) + (if Collected(row) then 1 else 0)
      ensures eligible == old(eligible) + (if Eligible(row) then 1 else 0)
      ensures oracleBetter == old(oracleBetter) + (if OracleBetter(row) then 1 else 0)
      ensures defaultBetter == old(defaultBetter) + (if DefaultNotWorse(row) then 1 else 0)
      ensures plannerMinMatches == old(plannerMinMatches) + (if PlannerMinEqual(row) then 1 else 0)
    {
      if row.defaultMs.Some? {
        defaultSuccess := defaultSuccess + 1;
      }
      if row.collected && row.defaultSuccess {
        collected := collected + 1;
        if row.eligible {
          eligible := eligible + 1;
        }
        if row.defaultMs.Some? && row.oracleMs.Some? {
          if row.oracleMs.value < row.defaultMs.value {
            oracleBetter := oracleBetter + 1;
          } else {
            defaultBetter := defaultBetter + 1;
          }
        }
        if row.plannerMinMs.Some? && row.oracleMs.Some? && row.plannerMinMs.value == row.oracleMs.value {
          plannerMinMatches := plannerMinMatches + 1;
        }
      }
    }

    /** One query: its row is appended and the counters are kept up to date online. */
    method ProcessQuery(name: string, o: Observation, limit: int)
      requires Valid()
      modifies this
      ensures Valid() && rows == old(rows) + [Evaluated(name, o, limit)]
    {
      hide Evaluated, SummaryOf, DefaultSucceeded, Collected, Eligible, OracleBetter, DefaultNotWorse, PlannerMinEqual;
      var row := EvaluateQuery(name, o, limit);
      RowShape(name, o, limit);
      SummarySnoc(rows, row);
      SummaryFields(rows);
      CountRow(row);
      rows := rows + [row];
      summary := Summary(|rows|, defaultSuccess, collected, eligible, oracleBetter, defaultBetter, plannerMinMatches);
    }
  }

  lemma SummaryFields(rows: seq<Row>)
    ensures SummaryOf(rows) ==
            Summary(|rows|, Count(rows, DefaultSucceeded), Count(rows, Collected), Count(rows, Eligible),
                    Count(rows, OracleBetter), Count(rows, DefaultNotWorse), Count(rows, PlannerMinEqual))
  {
  }

  lemma RowShape(name: string, o: Observation, limit: int)
    ensures var r := Evaluated(name, o, limit);
            && r.name == name && r.defaultMs == o.defaultMs && (r.defaultSuccess <==> r.defaultMs.Some?)
            && (r.collected <==> o.collectOk && Flatten(o.modes) != [])
            && (!(r.collected && r.defaultSuccess) ==> !r.eligible && r.oracleMs.None? && r.plannerMinMs.None?)
            && (r.eligible <==> r.oracleMs.Some?)
  {
    hide OracleSelection, Candidates;
  }

  // ---------------------------------------------------------------------------
  // Runs and resumed runs.

  function RowsOf(files: seq<string>, observe: string -> Observation, limit: int): seq<Row> {
    if files == [] then []
    else
      var f := files[|files| - 1];
      RowsOf(files[..|files| - 1], observe, limit) + [Evaluated(f, observe(f), limit)]
  }

  lemma {:induction false} RowNames(files: seq<string>, observe: string -> Observation, limit: int)
    ensures var rows := RowsOf(files, observe, limit);
            |rows| == |files| && forall i :: 0 <= i < |files| ==> rows[i].name == files[i]
  {
    hide Evaluated;
    if files != [] {
      var f := files[|files| - 1];
      RowNames(files[..|files| - 1], observe, limit);
      RowShape(f, observe(f), limit);
    }
  }

  /** The names of the completed queries; a row without a name completes nothing. */
  function ProcessedNames(rows: seq<Row>): set<string> {
    set r | r in rows && r.name != "" :: r.name
  }

  function Remaining(files: seq<string>, done: set<string>): seq<string> {
    if files == [] then []
    else
      var rest, f := Remaining(files[..|files| - 1], done), files[|files| - 1];
      if f in done then rest else rest + [f]
  }

  method SkipProcessed(files: seq<string>, rows: seq<Row>) returns (rest: seq<string>)
    ensures rest == Remaining(files, ProcessedNames(rows))
  {
    rest := [];
    var done := ProcessedNames(rows);
    for i := 0 to |files|
      invariant rest == Remaining(files[..i], done)
    {
      assert files[..i + 1][..i] == files[..i];
      if files[i] !in done {
        rest := rest + [files[i]];
      }
    }
    assert files[..|files|] == files;
  }

  /** main after its set-up, from the rows of an earlier run; none when it starts fresh. */
  method RunQueries(files: seq<string>, saved: seq<Row>,
                    observe: string -> Observation, limit: int) returns (report: Report)
    ensures fresh(report) && report.Valid()
    ensures report.rows == saved + RowsOf(Remaining(files, ProcessedNames(saved)), observe, limit)
  {
    hide SummaryOf;
    report := new Report(saved);
    var rest := SkipProcessed(files, saved);
    for i := 0 to |rest|
      invariant fresh(report) && report.Valid()
      invariant report.rows == saved + RowsOf(rest[..i], observe, limit)
    {
      assert rest[..i + 1][..i] == rest[..i];
      report.ProcessQuery(rest[i], observe(rest[i]), limit);
    }
    assert rest[..|rest|] == rest;
  }

  lemma {:induction false} RowsConcat(a: seq<string>, b: seq<string>, observe: string -> Observation, limit: int)
    ensures RowsOf(a + b, observe, limit) == RowsOf(a, observe, limit) + RowsOf(b, observe, limit)
  {
    hide Evaluated;
    if b == [] {
      assert a + b == a;
    } else {
      var front, f := b[..|b| - 1], b[|b| - 1];
      assert (a + b)[..|a + b| - 1] == a + front;
      RowsConcat(a, front, observe, limit);
    }
  }

  lemma {:induction false} RemainingConcat(a: seq<string>, b: seq<string>, done: set<string>)
    ensures Remaining(a + b, done) == Remaining(a, done) + Remaining(b, done)
  {
    if b == [] {
      assert a + b == a;
    } else {
      assert (a + b)[..|a + b| - 1] == a + b[..|b| - 1];
      RemainingConcat(a, b[..|b| - 1], done);
    }
  }

  lemma {:induction false} RemainingMembers(files: seq<string>, done: set<string>)
    ensures forall f :: f in Remaining(files, done) <==> f in files && f !in done
    ensures |Remaining(files, done)| <= |files|
    ensures (forall f :: f in files ==> f !in done) ==> Remaining(files, done) == files
  {
    if files != [] {
      RemainingMembers(files[..|files| - 1], done);
      assert files == files[..|files| - 1] + [files[|files| - 1]];
    }
  }

  lemma NamesOfRows(files: seq<string>, observe: string -> Observation, limit: int)
    ensures forall n :: n in ProcessedNames(RowsOf(files, observe, limit)) <==> n in files && n != ""
  {
    var rows := RowsOf(files, observe, limit);
    RowNames(files, observe, limit);
    forall n | n in files && n != ""
      ensures n in ProcessedNames(rows)
    {
      var i :| 0 <= i < |files| && files[i] == n;
      assert rows[i] in rows && rows[i].name == n;
    }
    forall n | n in ProcessedNames(rows)
      ensures n in files
    {
      var r :| r in rows && r.name == n;
      var i :| 0 <= i < |rows| && rows[i] == r;
      assert files[i] == n;
    }
  }

  /** The rows after stopping behind the first k files and resuming with all of them. */
  ghost function Resumed(files: seq<string>, k: nat, observe: string -> Observation, limit: int): seq<Row>
    requires k <= |files|
  {
    var saved := RowsOf(files[..k], observe, limit);
    saved + RowsOf(Remaining(files, ProcessedNames(saved)), observe, limit)
  }

  /** What is left over after the first k files, split at k. */
  lemma LeftOver(files: seq<string>, k: nat, observe: string -> Observation, limit: int)
    requires k <= |files|
    ensures var done := ProcessedNames(RowsOf(files[..k], observe, limit));
            && Remaining(files, done) == Remaining(files[..k], done) + Remaining(files[k..], done)
            && (forall n :: n in done <==> n in files[..k] && n != "")
    ensures RowsOf(files, observe, limit) == RowsOf(files[..k], observe, limit) + RowsOf(files[k..], observe, limit)
  {
    var done := ProcessedNames(RowsOf(files[..k], observe, limit));
    assert files == files[..k] + files[k..];
    RowsConcat(files[..k], files[k..], observe, limit);
    NamesOfRows(files[..k], observe, limit);
    RemainingConcat(files[..k], files[k..], done);
  }

  ghost predicate NoneAgain(before: seq<string>, after: seq<string>) {
    "" !in before && forall f :: f in after ==> f !in before
  }

  /** Stopping and resuming gives the report of an uninterrupted run exactly when every completed
      file has a name and no remaining file has the name of a completed one. */
  lemma ResumeTransparentIff(files: seq<string>, k: nat, observe: string -> Observation, limit: int)
    requires k <= |files|
    ensures Resumed(files, k, observe, limit) == RowsOf(files, observe, limit) <==> NoneAgain(files[..k], files[k..])
  {
    hide Evaluated, ProcessedNames;
    var before, after := files[..k], files[k..];
    var saved := RowsOf(before, observe, limit);
    var done := ProcessedNames(saved);
    LeftOver(files, k, observe, limit);
    if NoneAgain(before, after) {
      NothingRemains(before, done);
      RemainingMembers(after, done);
      assert Remaining(files, done) == after;
    }
    if Resumed(files, k, observe, limit) == RowsOf(files, observe, limit) {
      var rest := Remaining(files, done);
      SameTail(saved, RowsOf(rest, observe, limit), RowsOf(after, observe, limit));
      SameNames(rest, after, observe, limit);
      SameRest(before, after, done);
      RemainingMembers(before, done);
    }
  }

  lemma {:induction false} NothingRemains(files: seq<string>, done: set<string>)
    requires forall f :: f in files ==> f in done
    ensures Remaining(files, done) == []
  {
    if files != [] {
      NothingRemains(files[..|files| - 1], done);
    }
  }

  lemma SameTail(a: seq<Row>, b: seq<Row>, c: seq<Row>)
    requires a + b == a + c
    ensures b == c
  {
    assert (a + b)[|a|..] == b && (a + c)[|a|..] == c;
  }

  lemma SameNames(a: seq<string>, b: seq<string>, observe: string -> Observation, limit: int)
    requires RowsOf(a, observe, limit) == RowsOf(b, observe, limit)
    ensures a == b
  {
    RowNames(a, observe, limit);
    RowNames(b, observe, limit);
  }

  /** If the files left over are exactly the later ones, nothing earlier was left over. */
  lemma SameRest(before: seq<string>, after: seq<string>, done: set<string>)
    requires Remaining(before, done) + Remaining(after, done) == after
    ensures (forall f :: f in after ==> f !in done) && Remaining(before, done) == []
  {
    RemainingMembers(before, done);
    RemainingMembers(after, done);
    forall f | f in after
      ensures f !in done
    {
      assert f in Remaining(before, done) + Remaining(after, done);
    }
  }
}
