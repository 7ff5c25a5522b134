/**
  Searching for environments: the criteria are compiled to numbered clauses of
  a database query, or applied one after the other to the records in memory.
  Times are in nanoseconds.
  */
module EnvSearch {
  import opened Wrappers
  import opened EnvStore

  datatype Row = Row(repo: string, pr: nat, sha: string, branch: string, user: string, status: Status, created: int,
                     ref: string)

  datatype Params = Params(
    repo: string,
    repos: seq<string>,
    pr: nat,
    sha: string,
    branch: string,
    user: string,
    status: Status,
    statuses: seq<Status>,
    createdSince: int,
    trackingRef: string)

  datatype SearchError = PrWithoutRepo | RefWithoutRepo | RepoAndRepos | StatusAndStatuses

  function Check(o: Params): Option<SearchError> {
    if o.pr != 0 && o.repo == "" then Some(PrWithoutRepo)
    else if o.trackingRef != "" && o.repo == "" then Some(RefWithoutRepo)
    else if o.repo != "" && |o.repos| > 0 then Some(RepoAndRepos)
    else if o.status != UnknownStatus && |o.statuses| > 0 then Some(StatusAndStatuses)
    else None
  }

  // Which searches are refused, and why: what is asked for makes no sense without a repository, or
  // is asked for twice.
  ghost predicate Refused(o: Params, e: Option<SearchError>) {
    && (e == Some(PrWithoutRepo) <==> o.pr != 0 && o.repo == "")
    && (e == Some(RefWithoutRepo) <==> o.pr == 0 && o.repo == "" && o.trackingRef != "")
    && (e == Some(RepoAndRepos) <==> o.repo != "" && o.repos != [])
    && (e == Some(StatusAndStatuses) <==>
          && o.status != UnknownStatus && o.statuses != []
          && if o.repo == "" then o.pr == 0 && o.trackingRef == "" else o.repos == [])
  }

  // Queries.

  datatype Column = PullRequest | Repo | SourceSHA | SourceBranch | Username | StatusColumn | SourceRef

  datatype Arg = Num(n: nat) | Text(s: string) | Of(st: Status)

  // column = $i; ( column = $i OR ... ); created >= (current_timestamp - interval 'h hours').
  datatype Clause = Eq(col: Column, i: nat) | AnyOf(col: Column, places: seq<nat>) | Since(hours: nat)

  datatype Query = Query(clauses: seq<Clause>, args: seq<Arg>)

  const HOUR := 3600 * 1000000000

  function Field(r: Row, c: Column): Arg {
    match c
    case PullRequest => Num(r.pr)
    case Repo => Text(r.repo)
    case SourceSHA => Text(r.sha)
    case SourceBranch => Text(r.branch)
    case Username => Text(r.user)
    case StatusColumn => Of(r.status)
    case SourceRef => Text(r.ref)
  }

  // The argument of a placeholder; arguments are numbered from 1.
  predicate Equals(args: seq<Arg>, i: nat, a: Arg) {
    1 <= i <= |args| && args[i - 1] == a
  }

  predicate Holds(c: Clause, args: seq<Arg>, r: Row, now: int) {
    match c
    case Eq(col, i) => Equals(args, i, Field(r, col))
    case AnyOf(col, places) => exists k :: 0 <= k < |places| && Equals(args, places[k], Field(r, col))
    case Since(h) => r.created >= now - h * HOUR
  }

  predicate Accepts(q: Query, r: Row, now: int) {
    forall k :: 0 <= k < |q.clauses| ==> Holds(q.clauses[k], q.args, r, now)
  }

  function Placeholders(cs: seq<Clause>): seq<nat> {
    if cs == [] then []
    else
      Placeholders(cs[..|cs| - 1]) +
      match cs[|cs| - 1]
      case Eq(_, i) => [i]
      case AnyOf(_, places) => places
      case Since(_) => []
  }

  function UpTo(n: nat): (s: seq<nat>)
    ensures |s| == n && forall k :: 0 <= k < n ==> s[k] == k + 1
  {
    seq(n, k => k + 1)
  }

  // The criteria of a search, in the order in which the clauses are written.

  datatype Criterion = Is(col: Column, arg: Arg) | OneOf(col: Column, args: seq<Arg>) | After(hours: nat)

  predicate Meets(c: Criterion, r: Row, now: int) {
    match c
    case Is(col, arg) => Field(r, col) == arg
    case OneOf(col, args) => Field(r, col) in args
    case After(h) => r.created >= now - h * HOUR
  }

  function Texts(ss: seq<string>): seq<Arg> {
    seq(|ss|, k requires 0 <= k < |ss| => Text(ss[k]))
  }

  function Stats(ss: seq<Status>): seq<Arg> {
    seq(|ss|, k requires 0 <= k < |ss| => Of(ss[k]))
  }

  function Hours(d: int): nat {
    if d > 0 then d / HOUR else 0
  }

  // Each field of the parameters that can be set, and what it asks for if it is.
  datatype Slot = Slot(given: bool, c: Criterion)

  function Slots(o: Params): (slots: seq<Slot>)
    ensures |slots| == 10
  {
    [Slot(o.pr != 0, Is(PullRequest, Num(o.pr))),
     Slot(o.repo != "", Is(Repo, Text(o.repo))),
     Slot(|o.repos| > 0, OneOf(Repo, Texts(o.repos))),
     Slot(o.sha != "", Is(SourceSHA, Text(o.sha))),
     Slot(o.branch != "", Is(SourceBranch, Text(o.branch))),
     Slot(o.user != "", Is(Username, Text(o.user))),
     Slot(o.status != UnknownStatus, Is(StatusColumn, Of(o.status))),
     Slot(|o.statuses| > 0, OneOf(StatusColumn, Stats(o.statuses))),
     Slot(o.createdSince > 0, After(Hours(o.createdSince))),
     Slot(o.trackingRef != "", Is(SourceRef, Text(o.trackingRef)))]
  }

  // The criteria that are set.
  function Chosen(slots: seq<Slot>): seq<Criterion> {
    if slots == [] then []
    else
      var last := slots[|slots| - 1];
      Chosen(slots[..|slots| - 1]) + if last.given then [last.c] else []
  }

  function Criteria(o: Params): seq<Criterion> {
    Chosen(Slots(o))
  }

  // One more criterion, with the next placeholders.
  function Extended(q: Query, c: Criterion): Query {
    var i := |q.args| + 1;
    match c
    case Is(col, arg) => Query(q.clauses + [Eq(col, i)], q.args + [arg])
    case OneOf(col, args) => Query(q.clauses + [AnyOf(col, seq(|args|, k => i + k))], q.args + args)
    case After(h) => Query(q.clauses + [Since(h)], q.args)
  }

  function Numbered(cs: seq<Criterion>): Query {
    if cs == [] then Query([], []) else Extended(Numbered(cs[..|cs| - 1]), cs[|cs| - 1])
  }

  lemma NumberedMore(cs: seq<Criterion>, c: Criterion)
    ensures Numbered(cs + [c]) == Extended(Numbered(cs), c)
  {
    assert (cs + [c])[..|cs|] == cs;
  }

  ghost predicate WellNumbered(q: Query) {
    Placeholders(q.clauses) == UpTo(|q.args|)
  }

  lemma ExtendedNumbered(q: Query, c: Criterion)
    requires WellNumbered(q)
    ensures WellNumbered(Extended(q, c))
  {
    var more := Extended(q, c);
    assert more.clauses[..|q.clauses|] == q.clauses;
  }

  lemma {:induction false} PlaceholderIn(cs: seq<Clause>, k: nat)
    requires k < |cs|
    ensures cs[k].Eq? ==> cs[k].i in Placeholders(cs)
    ensures cs[k].AnyOf? ==> forall i :: i in cs[k].places ==> i in Placeholders(cs)
  {
    if k < |cs| - 1 {
      PlaceholderIn(cs[..|cs| - 1], k);
    }
  }

  // Earlier clauses do not see later arguments.
  lemma HoldsStill(q: Query, more: seq<Arg>, k: nat, r: Row, now: int)
    requires WellNumbered(q) && k < |q.clauses|
    ensures Holds(q.clauses[k], q.args + more, r, now) <==> Holds(q.clauses[k], q.args, r, now)
  {
    PlaceholderIn(q.clauses, k);
    var c := q.clauses[k];
    assert forall i :: i in UpTo(|q.args|) ==> 1 <= i <= |q.args|;
    if c.AnyOf? {
      forall j | 0 <= j < |c.places|
        ensures Equals(q.args + more, c.places[j], Field(r, c.col)) <==> Equals(q.args, c.places[j], Field(r, c.col))
      {
        assert c.places[j] in c.places;
      }
    }
  }

  lemma NewHolds(q: Query, c: Criterion, r: Row, now: int)
    ensures Holds(Extended(q, c).clauses[|q.clauses|], Extended(q, c).args, r, now) <==> Meets(c, r, now)
  {
    if c.OneOf? {
      var more := Extended(q, c);
      var places := more.clauses[|q.clauses|].places;
      forall j | 0 <= j < |c.args|
        ensures Equals(more.args, places[j], Field(r, c.col)) <==> c.args[j] == Field(r, c.col)
      {
      }
    }
  }

  lemma ExtendedAccepts(q: Query, c: Criterion, r: Row, now: int)
    requires WellNumbered(q)
    ensures Accepts(Extended(q, c), r, now) <==> Accepts(q, r, now) && Meets(c, r, now)
  {
    var more := Extended(q, c);
    var n := |q.clauses|;
    NewHolds(q, c, r, now);
    forall k | 0 <= k < n
      ensures Holds(more.clauses[k], more.args, r, now) <==> Holds(q.clauses[k], q.args, r, now)
    {
      assert more.clauses[k] == q.clauses[k];
      HoldsStill(q, more.args[|q.args|..], k, r, now);
      assert more.args == q.args + more.args[|q.args|..];
    }
    if Accepts(more, r, now) {
      assert Holds(more.clauses[n], more.args, r, now);
    }
  }

  ghost predicate MeetsAll(cs: seq<Criterion>, r: Row, now: int) {
    forall k :: 0 <= k < |cs| ==> Meets(cs[k], r, now)
  }

  lemma MeetsMore(a: seq<Criterion>, c: Criterion, r: Row, now: int)
    ensures MeetsAll(a + [c], r, now) <==> MeetsAll(a, r, now) && Meets(c, r, now)
  {
    if MeetsAll(a + [c], r, now) {
      forall k | 0 <= k < |a|
        ensures Meets(a[k], r, now)
      {
        assert (a + [c])[k] == a[k];
      }
      assert (a + [c])[|a|] == c;
    }
  }

  // The placeholders are numbered 1, 2, ... in the order in which they are written, one for each
  // argument, and the query accepts the rows that meet all criteria.
  lemma {:induction false} NumberedMeans(cs: seq<Criterion>, r: Row, now: int)
    ensures WellNumbered(Numbered(cs))
    ensures Accepts(Numbered(cs), r, now) <==> MeetsAll(cs, r, now)
  {
    if cs != [] {
      var before, c := cs[..|cs| - 1], cs[|cs| - 1];
      NumberedMeans(before, r, now);
      ExtendedNumbered(Numbered(before), c);
      ExtendedAccepts(Numbered(before), c, r, now);
      MeetsMore(before, c, r, now);
      assert cs == before + [c];
    }
  }

  // The compiler.

  // The first k fields have been compiled, and i is the next placeholder.
  ghost predicate CompiledTo(slots: seq<Slot>, k: nat, q: Query, i: nat) {
    k <= |slots| && q == Numbered(Chosen(slots[..k])) && i == |q.args| + 1
  }

  lemma CompiledMore(slots: seq<Slot>, k: nat, q: Query, i: nat)
    requires k < |slots| && CompiledTo(slots, k, q, i)
    ensures Numbered(Chosen(slots[..k + 1])) == if slots[k].given then Extended(q, slots[k].c) else q
  {
    assert slots[..k + 1][..k] == slots[..k];
    NumberedMore(Chosen(slots[..k]), slots[k].c);
    assert Chosen(slots[..k]) + [] == Chosen(slots[..k]);
  }

  method AddIs(ghost slots: seq<Slot>, ghost k: nat, q: Query, i: nat, col: Column, arg: Arg, given: bool)
    returns (more: Query, next: nat)
    requires k < |slots| && CompiledTo(slots, k, q, i) && slots[k] == Slot(given, Is(col, arg))
    ensures CompiledTo(slots, k + 1, more, next)
  {
    more, next := q, i;
    CompiledMore(slots, k, q, i);
    if given {
      more := Query(q.clauses + [Eq(col, i)], q.args + [arg]);
      next := i + 1;
    }
  }

  method AddOneOf(ghost slots: seq<Slot>, ghost k: nat, q: Query, i: nat, col: Column, args: seq<Arg>)
    returns (more: Query, next: nat)
    requires k < |slots| && CompiledTo(slots, k, q, i) && slots[k] == Slot(|args| > 0, OneOf(col, args))
    ensures CompiledTo(slots, k + 1, more, next)
  {
    more, next := q, i;
    CompiledMore(slots, k, q, i);
    if |args| > 0 {
      var places: seq<nat> := [];
      var sargs := q.args;
      for n := 0 to |args|
        invariant places == seq(n, m => i + m) && sargs == q.args + args[..n] && next == i + n
      {
        places := places + [next];
        sargs := sargs + [args[n]];
        next := next + 1;
      }
      assert args[..|args|] == args;
      more := Query(q.clauses + [AnyOf(col, places)], sargs);
    }
  }

  method AddSince(ghost slots: seq<Slot>, ghost k: nat, q: Query, i: nat, since: int) returns (more: Query)
    requires k < |slots| && CompiledTo(slots, k, q, i) && slots[k] == Slot(since > 0, After(Hours(since)))
    ensures CompiledTo(slots, k + 1, more, i)
  {
    more := q;
    CompiledMore(slots, k, q, i);
    if since > 0 {
      more := Query(q.clauses + [Since(Hours(since))], q.args);
    }
  }

  method Compile(o: Params) returns (q: Query, e: Option<SearchError>)
    ensures e == Check(o) && Refused(o, e)
    ensures e.None? ==> q == Numbered(Criteria(o))
  {
    q, e := Query([], []), None;
    if o.pr != 0 && o.repo == "" {
      return q, Some(PrWithoutRepo);
    }
    if o.trackingRef != "" && o.repo == "" {
      return q, Some(RefWithoutRepo);
    }
    if o.repo != "" && |o.repos| > 0 {
      return q, Some(RepoAndRepos);
    }
    if o.status != UnknownStatus && |o.statuses| > 0 {
      return q, Some(StatusAndStatuses);
    }
    q := CompileAll(o, Slots(o));
  }

  method CompileAll(o: Params, ghost slots: seq<Slot>) returns (q: Query)
    requires |slots| == 10
    requires slots[0] == Slot(o.pr != 0, Is(PullRequest, Num(o.pr)))
    requires slots[1] == Slot(o.repo != "", Is(Repo, Text(o.repo)))
    requires slots[2] == Slot(|o.repos| > 0, OneOf(Repo, Texts(o.repos)))
    requires slots[3] == Slot(o.sha != "", Is(SourceSHA, Text(o.sha)))
    requires slots[4] == Slot(o.branch != "", Is(SourceBranch, Text(o.branch)))
    requires slots[5] == Slot(o.user != "", Is(Username, Text(o.user)))
    requires slots[6] == Slot(o.status != UnknownStatus, Is(StatusColumn, Of(o.status)))
    requires slots[7] == Slot(|o.statuses| > 0, OneOf(StatusColumn, Stats(o.statuses)))
    requires slots[8] == Slot(o.createdSince > 0, After(Hours(o.createdSince)))
    requires slots[9] == Slot(o.trackingRef != "", Is(SourceRef, Text(o.trackingRef)))
    ensures q == Numbered(Chosen(slots))
  {
    q := Query([], []);
    var i := 1;
    assert slots[..0] == [];
    q, i := AddIs(slots, 0, q, i, PullRequest, Num(o.pr), o.pr != 0);
    q, i := AddIs(slots, 1, q, i, Repo, Text(o.repo), o.repo != "");
    q, i := AddOneOf(slots, 2, q, i, Repo, Texts(o.repos));
    q, i := AddIs(slots, 3, q, i, SourceSHA, Text(o.sha), o.sha != "");
    q, i := AddIs(slots, 4, q, i, SourceBranch, Text(o.branch), o.branch != "");
    q, i := AddIs(slots, 5, q, i, Username, Text(o.user), o.user != "");
    q, i := AddIs(slots, 6, q, i, StatusColumn, Of(o.status), o.status != UnknownStatus);
    q, i := AddOneOf(slots, 7, q, i, StatusColumn, Stats(o.statuses));
    q := AddSince(slots, 8, q, i, o.createdSince);
    q, i := AddIs(slots, 9, q, i, SourceRef, Text(o.trackingRef), o.trackingRef != "");
    assert slots[..10] == slots;
  }

  // The in-memory search.

  function Filter(rows: seq<Row>, keep: Row -> bool): seq<Row> {
    if rows == [] then []
    else Filter(rows[..|rows| - 1], keep) + if keep(rows[|rows| - 1]) then [rows[|rows| - 1]] else []
  }

  predicate KeepsBut(o: Params, r: Row) {
    && (o.pr != 0 ==> r.pr == o.pr && r.repo == o.repo)
    && (o.repo != "" ==> r.repo == o.repo)
    && (|o.repos| > 0 ==> r.repo in o.repos)
    && (o.sha != "" ==> r.sha == o.sha)
    && (o.branch != "" ==> r.branch == o.branch)
    && (o.user != "" ==> r.user == o.user)
    && (o.status != UnknownStatus ==> r.status == o.status)
    && (|o.statuses| > 0 ==> r.status in o.statuses)
    && (o.trackingRef != "" ==> r.ref == o.trackingRef)
  }

  predicate RecentInMemory(o: Params, r: Row, now: int) {
    o.createdSince != 0 ==> r.created > now - o.createdSince
  }

  predicate RecentInQuery(o: Params, r: Row, now: int) {
    o.createdSince > 0 ==> r.created >= now - Hours(o.createdSince) * HOUR
  }

  method FilterIf(b: bool, rows: seq<Row>, cf: Row -> bool) returns (out: seq<Row>)
    ensures out == Filter(rows, r => b ==> cf(r))
  {
    if !b {
      FilterAll(rows, r => b ==> cf(r));
      return rows;
    }
    out := [];
    for i := 0 to |rows|
      invariant out == Filter(rows[..i], r => b ==> cf(r))
    {
      assert rows[..i + 1][..i] == rows[..i];
      if cf(rows[i]) {
        out := out + [rows[i]];
      }
    }
    assert rows[..|rows|] == rows;
  }

  lemma {:induction false} FilterAll(rows: seq<Row>, keep: Row -> bool)
    requires forall r :: keep(r)
    ensures Filter(rows, keep) == rows
  {
    if rows != [] {
      FilterAll(rows[..|rows| - 1], keep);
    }
  }

  lemma {:induction false} FilterTwice(rows: seq<Row>, p: Row -> bool, q: Row -> bool, both: Row -> bool)
    requires forall r :: both(r) <==> p(r) && q(r)
    ensures Filter(Filter(rows, p), q) == Filter(rows, both)
  {
    if rows != [] {
      var before, last := rows[..|rows| - 1], rows[|rows| - 1];
      FilterTwice(before, p, q, both);
      var kept := Filter(before, p);
      assert (kept + [last])[..|kept|] == kept && kept + [] == kept;
    }
  }

  lemma {:induction false} FilterSame(rows: seq<Row>, p: Row -> bool, q: Row -> bool)
    requires forall r :: r in rows ==> (p(r) <==> q(r))
    ensures Filter(rows, p) == Filter(rows, q)
  {
    if rows != [] {
      FilterSame(rows[..|rows| - 1], p, q);
    }
  }

  // What the criteria say about a row.

  lemma {:induction false} ChosenMean(slots: seq<Slot>, r: Row, now: int)
    ensures MeetsAll(Chosen(slots), r, now) <==> forall j :: 0 <= j < |slots| ==> SlotMet(slots[j], r, now)
  {
    if slots != [] {
      var before, last := slots[..|slots| - 1], slots[|slots| - 1];
      ChosenMean(before, r, now);
      MeetsMore(Chosen(before), last.c, r, now);
      assert Chosen(before) + [] == Chosen(before);
    }
  }

  predicate SlotMet(s: Slot, r: Row, now: int) {
    s.given ==> Meets(s.c, r, now)
  }

  lemma TextIn(x: string, ss: seq<string>)
    ensures Text(x) in Texts(ss) <==> x in ss
  {
    if x in ss {
      var k :| 0 <= k < |ss| && ss[k] == x;
      assert Texts(ss)[k] == Text(x);
    }
  }

  lemma StatusIn(x: Status, ss: seq<Status>)
    ensures Of(x) in Stats(ss) <==> x in ss
  {
    if x in ss {
      var k :| 0 <= k < |ss| && ss[k] == x;
      assert Stats(ss)[k] == Of(x);
    }
  }

  // The k-th field in the query.
  predicate Asked(o: Params, k: nat, r: Row, now: int) {
    match k
    case 0 => o.pr != 0 ==> r.pr == o.pr
    case 8 => RecentInQuery(o, r, now)
    case _ => Passes(o, k, r, now)
  }

  lemma SlotMeans(o: Params, k: nat, r: Row, now: int)
    requires k < 10
    ensures SlotMet(Slots(o)[k], r, now) <==> Asked(o, k, r, now)
  {
    TextIn(r.repo, o.repos);
    StatusIn(r.status, o.statuses);
  }

  lemma CriteriaMean(o: Params, r: Row, now: int)
    requires Check(o).None?
    ensures MeetsAll(Criteria(o), r, now) <==> KeepsBut(o, r) && RecentInQuery(o, r, now)
  {
    ChosenMean(Slots(o), r, now);
    forall k | 0 <= k < 10
      ensures SlotMet(Slots(o)[k], r, now) <==> Asked(o, k, r, now)
    {
      SlotMeans(o, k, r, now);
    }
    AskedAll(o, r, now);
  }

  lemma AskedAll(o: Params, r: Row, now: int)
    requires Check(o).None?
    ensures (forall k :: 0 <= k < 10 ==> Asked(o, k, r, now)) <==> KeepsBut(o, r) && RecentInQuery(o, r, now)
  {
    if forall k :: 0 <= k < 10 ==> Asked(o, k, r, now) {
      assert Asked(o, 0, r, now) && Asked(o, 1, r, now) && Asked(o, 2, r, now) && Asked(o, 3, r, now)
             && Asked(o, 4, r, now);
      assert Asked(o, 5, r, now) && Asked(o, 6, r, now) && Asked(o, 7, r, now) && Asked(o, 8, r, now)
             && Asked(o, 9, r, now);
    }
  }

  // The compiled query accepts a row exactly if the in-memory filters keep it, apart from age.
  lemma QueryMeans(o: Params, r: Row, now: int)
    requires Check(o).None?
    ensures WellNumbered(Numbered(Criteria(o)))
    ensures Accepts(Numbered(Criteria(o)), r, now) <==> KeepsBut(o, r) && RecentInQuery(o, r, now)
  {
    NumberedMeans(Criteria(o), r, now);
    CriteriaMean(o, r, now);
  }

  // On age they agree about a row exactly if it is neither younger than the duration but not
  // than its whole hours, nor exactly as old as both; a negative duration does not reach the query.
  lemma AgeAgreesIff(o: Params, r: Row, now: int)
    ensures (RecentInMemory(o, r, now) <==> RecentInQuery(o, r, now))
            <==> (o.createdSince > 0 ==>
                    var age := now - r.created;
                    !(Hours(o.createdSince) * HOUR < age < o.createdSince)
                      && !(age == o.createdSince == Hours(o.createdSince) * HOUR))
                 && (o.createdSince < 0 ==> now - r.created < o.createdSince)
  {
    WholeHours(o.createdSince);
  }

  // As many whole hours as fit; none of a negative duration.
  lemma WholeHours(d: int)
    ensures if d > 0 then Hours(d) * HOUR <= d < (Hours(d) + 1) * HOUR else Hours(d) == 0
  {
  }

  predicate AnyCriterion(o: Params) {
    o.pr != 0 || o.repo != "" || |o.repos| > 0 || o.sha != "" || o.branch != "" || o.user != ""
    || o.status != UnknownStatus || |o.statuses| > 0 || o.createdSince > 0 || o.trackingRef != ""
  }

  lemma {:induction false} ClauseCount(cs: seq<Criterion>)
    ensures |Numbered(cs).clauses| == |cs|
  {
    if cs != [] {
      ClauseCount(cs[..|cs| - 1]);
    }
  }

  lemma {:induction false} ChosenAny(slots: seq<Slot>)
    ensures Chosen(slots) != [] <==> exists j :: 0 <= j < |slots| && slots[j].given
  {
    if slots != [] {
      ChosenAny(slots[..|slots| - 1]);
    }
  }

  // Without any criterion there is nothing behind WHERE: the query is malformed, where the
  // in-memory search returns everything.
  lemma WellFormedIff(o: Params)
    ensures Numbered(Criteria(o)).clauses != [] <==> AnyCriterion(o)
  {
    ClauseCount(Criteria(o));
    ChosenAny(Slots(o));
    var s := Slots(o);
    assert AnyCriterion(o) <==>
           s[0].given || s[1].given || s[2].given || s[3].given || s[4].given
           || s[5].given || s[6].given || s[7].given || s[8].given || s[9].given;
  }

  lemma NoCriterionKeepsAll(o: Params, r: Row, now: int)
    requires !AnyCriterion(o) && o.createdSince == 0
    ensures KeepsBut(o, r) && RecentInMemory(o, r, now)
  {
  }

  // The in-memory filters, one after the other.

  predicate Passes(o: Params, k: nat, r: Row, now: int) {
    match k
    case 0 => o.pr != 0 ==> r.pr == o.pr && r.repo == o.repo
    case 1 => o.repo != "" ==> r.repo == o.repo
    case 2 => |o.repos| > 0 ==> r.repo in o.repos
    case 3 => o.sha != "" ==> r.sha == o.sha
    case 4 => o.branch != "" ==> r.branch == o.branch
    case 5 => o.user != "" ==> r.user == o.user
    case 6 => o.status != UnknownStatus ==> r.status == o.status
    case 7 => |o.statuses| > 0 ==> r.status in o.statuses
    case 8 => RecentInMemory(o, r, now)
    case _ => o.trackingRef != "" ==> r.ref == o.trackingRef
  }

  predicate PassesTo(o: Params, k: nat, r: Row, now: int) {
    forall j :: 0 <= j < k ==> Passes(o, j, r, now)
  }

  function KeptTo(o: Params, k: nat, rows: seq<Row>, now: int): seq<Row> {
    Filter(rows, r => PassesTo(o, k, r, now))
  }

  method Narrow(o: Params, ghost k: nat, ghost rows: seq<Row>, cur: seq<Row>, ghost now: int, b: bool, cf: Row -> bool)
    returns (out: seq<Row>)
    requires cur == KeptTo(o, k, rows, now) && forall r :: (b ==> cf(r)) <==> Passes(o, k, r, now)
    ensures out == KeptTo(o, k + 1, rows, now)
  {
    out := FilterIf(b, cur, cf);
    FilterTwice(rows, r => PassesTo(o, k, r, now), r => b ==> cf(r), r => PassesTo(o, k + 1, r, now));
  }

  method SearchInMemory(o: Params, rows: seq<Row>, now: int) returns (out: seq<Row>, e: Option<SearchError>)
    ensures e == Check(o) && Refused(o, e)
    ensures e.None? ==> out == Filter(rows, r => KeepsBut(o, r) && RecentInMemory(o, r, now))
  {
    out, e := [], Check(o);
    if e.Some? {
      return;
    }
    out := FilterFirst(o, rows, now);
    out := Narrow(o, 4, rows, out, now, o.branch != "", (r: Row) => r.branch == o.branch);
    out := Narrow(o, 5, rows, out, now, o.user != "", (r: Row) => r.user == o.user);
    out := Narrow(o, 6, rows, out, now, o.status != UnknownStatus, (r: Row) => r.status == o.status);
    out := Narrow(o, 7, rows, out, now, |o.statuses| > 0, (r: Row) => r.status in o.statuses);
    out := Narrow(o, 8, rows, out, now, o.createdSince != 0, (r: Row) => r.created > now - o.createdSince);
    out := Narrow(o, 9, rows, out, now, o.trackingRef != "", (r: Row) => r.ref == o.trackingRef);
    AllPassed(o, rows, now);
  }

  method FilterFirst(o: Params, rows: seq<Row>, ghost now: int) returns (out: seq<Row>)
    ensures out == KeptTo(o, 4, rows, now)
  {
    FilterAll(rows, r => PassesTo(o, 0, r, now));
    out := rows;
    out := Narrow(o, 0, rows, out, now, o.pr != 0, (r: Row) => r.pr == o.pr && r.repo == o.repo);
    out := Narrow(o, 1, rows, out, now, o.repo != "", (r: Row) => r.repo == o.repo);
    out := Narrow(o, 2, rows, out, now, |o.repos| > 0, (r: Row) => r.repo in o.repos);
    out := Narrow(o, 3, rows, out, now, o.sha != "", (r: Row) => r.sha == o.sha);
  }

  lemma PassesAll(o: Params, r: Row, now: int)
    ensures PassesTo(o, 10, r, now) <==> KeepsBut(o, r) && RecentInMemory(o, r, now)
  {
    if PassesTo(o, 10, r, now) {
      assert Passes(o, 0, r, now) && Passes(o, 1, r, now) && Passes(o, 2, r, now) && Passes(o, 3, r, now)
             && Passes(o, 4, r, now);
      assert Passes(o, 5, r, now) && Passes(o, 6, r, now) && Passes(o, 7, r, now) && Passes(o, 8, r, now)
             && Passes(o, 9, r, now);
    }
  }

  lemma AllPassed(o: Params, rows: seq<Row>, now: int)
    ensures KeptTo(o, 10, rows, now) == Filter(rows, r => KeepsBut(o, r) && RecentInMemory(o, r, now))
  {
    forall r | r in rows
      ensures PassesTo(o, 10, r, now) <==> KeepsBut(o, r) && RecentInMemory(o, r, now)
    {
      PassesAll(o, r, now);
    }
    FilterSame(rows, r => PassesTo(o, 10, r, now), r => KeepsBut(o, r) && RecentInMemory(o, r, now));
  }

  // Both searches find the same rows if no age is asked for.
  lemma SearchesAgree(o: Params, rows: seq<Row>, now: int)
    requires Check(o).None? && AnyCriterion(o) && o.createdSince == 0
    ensures Numbered(Criteria(o)).clauses != []
    ensures Filter(rows, r => Accepts(Numbered(Criteria(o)), r, now))
            == Filter(rows, r => KeepsBut(o, r) && RecentInMemory(o, r, now))
  {
    WellFormedIff(o);
    var p := r => Accepts(Numbered(Criteria(o)), r, now);
    var q := r => KeepsBut(o, r) && RecentInMemory(o, r, now);
    forall r | r in rows
      ensures p(r) <==> q(r)
    {
      QueryMeans(o, r, now);
    }
    FilterSame(rows, p, q);
  }
}
