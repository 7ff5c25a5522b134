/**
  The periodic clean-up, and runs of all operations on one store.
  */
module EnvReaper {
  import opened Wrappers
  import opened EnvStore
  import opened EnvRules
  import opened EnvManager

  const MAX_STUCK_SECS := 3600
  const MAX_DESTROYED_SECS := 730 * 3600
  const MAX_PRUNED := 100

  predicate Stuck(e: Env, now: int) {
    (e.status == Spawned || e.status == Failure) && now - e.created > MAX_STUCK_SECS
  }

  function StuckAmong(d: Table, names: set<string>, now: int): set<string> {
    set n | n in names && n in d && Stuck(d[n], now)
  }

  // A destroyed record may go if there is no event that tells when it was destroyed, or if that
  // is long ago.
  predicate Prunable(e: Env, at: string -> Option<int>, now: int) {
    e.status == Destroyed && (at(e.name).None? || now - at(e.name).value > MAX_DESTROYED_SECS)
  }

  // One of which an event tells that it was destroyed long ago. At most a hundred of these go at once.
  predicate Aged(e: Env, at: string -> Option<int>, now: int) {
    Prunable(e, at, now) && at(e.name).Some?
  }

  function AgedCount(qas: seq<Env>, k: nat, at: string -> Option<int>, now: int): (c: nat)
    requires k <= |qas|
    ensures c <= k
  {
    if k == 0 then 0 else AgedCount(qas, k - 1, at, now) + if Aged(qas[k - 1], at, now) then 1 else 0
  }

  // Whether the i-th record of a listing goes.
  predicate Goes(qas: seq<Env>, i: nat, at: string -> Option<int>, now: int, vf: string -> Faults)
    requires i < |qas|
  {
    Prunable(qas[i], at, now) && AgedCount(qas, i, at, now) < MAX_PRUNED && !vf(qas[i].name)(DropRecord)
  }

  // The names that have gone with the first k records.
  function Gone(qas: seq<Env>, k: nat, at: string -> Option<int>, now: int, vf: string -> Faults): set<string>
    requires k <= |qas|
  {
    if k == 0 then {}
    else Gone(qas, k - 1, at, now, vf) + if Goes(qas, k - 1, at, now, vf) then {qas[k - 1].name} else {}
  }

  // What is known of a pull request.
  datatype PrStatus = Opened | Closed | Unknown

  // The status is asked for, and cannot be had.
  predicate Unclear(e: Env, prs: (string, nat) -> PrStatus) {
    e.status != Destroyed && prs(e.repo, e.pr) == Unknown
  }

  function ClosedAmong(d: Table, names: set<string>, prs: (string, nat) -> PrStatus): set<string> {
    set n | n in names && n in d && d[n].status != Destroyed && prs(d[n].repo, d[n].pr) == Closed
  }

  class Reaper {
    const manager: Manager
    const store: DataLayer

    constructor (manager: Manager)
      ensures this.manager == manager && store == manager.store
    {
      this.manager, store := manager, manager.store;
    }

    ghost predicate Valid() {
      store == manager.store
    }

    // `at` tells when an environment was destroyed, if an event says so.
    method PruneDestroyedRecords(now: int, at: string -> Option<int>, f: Faults, vf: string -> Faults)
      returns (pruned: nat, ghost qas: seq<Env>)
      requires Valid() && Well(store.d)
      modifies store
      ensures Well(store.d)
      ensures f(ReadAll) ==> pruned == 0 && store.d == old(store.d) && store.k8s == old(store.k8s)
      ensures !f(ReadAll) ==>
                && Listing(qas, old(store.d), old(store.d).Keys)
                && store.d == old(store.d) - Gone(qas, |qas|, at, now, vf)
                && store.k8s == old(store.k8s) - Gone(qas, |qas|, at, now, vf)
                && pruned == Least(AgedCount(qas, |qas|, at, now), MAX_PRUNED)
    {
      pruned, qas := 0, [];
      if f(ReadAll) {
        return;
      }
      var all := store.GetQAEnvironments();
      qas := all;
      ghost var before, rows := store.d, store.k8s;
      for i := 0 to |all|
        invariant PrunedTo(before, rows, qas, i, at, now, vf, store.d, store.k8s, pruned)
      {
        PruneStep(before, rows, qas, i, at, now, vf, store.d, store.k8s, pruned);
        pruned := PruneOne(all[i], pruned, now, at, vf(all[i].name));
      }
      PrunedWell(before, store.d);
    }

    // A record whose destruction no event tells of does not count; one that cannot be deleted does.
    method PruneOne(qa: Env, count: nat, now: int, at: string -> Option<int>, f: Faults) returns (pruned: nat)
      requires qa.name in store.d && store.d[qa.name] == qa
      modifies store
      ensures var gone := if Prunable(qa, at, now) && count < MAX_PRUNED && !f(DropRecord) then {qa.name} else {};
              store.d == old(store.d) - gone && store.k8s == old(store.k8s) - gone
      ensures pruned == if Aged(qa, at, now) && count < MAX_PRUNED then count + 1 else count
    {
      pruned := count;
      if qa.status == Destroyed && count < MAX_PRUNED {
        match at(qa.name) {
          case None =>
            if !f(DropRecord) {
              var deleted := store.DeleteQAEnvironment(qa.name);
            }
          case Some(ts) =>
            if now - ts > MAX_DESTROYED_SECS {
              if !f(DropRecord) {
                var deleted := store.DeleteQAEnvironment(qa.name);
              }
              pruned := pruned + 1;
            }
        }
      }
    }

    method DestroyIfOlderThan(qa: Env, now: int, secs: int, f: Faults)
      requires Valid() && Well(store.d)
      modifies store`d
      ensures store.d == if now - qa.created > secs then DeleteIn(old(store.d), store.k8s, RdOf(qa), f)
                         else old(store.d)
    {
      if now - qa.created > secs {
        var deleted := manager.Delete(RdOf(qa), f);
      }
    }

    // One record, after the first i.
    method DestroyIfStuck(qas: seq<Env>, i: nat, now: int, vf: string -> Faults, ghost before: Table)
      requires Valid() && Well(before) && Listing(qas, before, before.Keys) && i < |qas|
      requires StuckTo(before, store.k8s, qas, i, now, vf, store.d)
      modifies store`d
      ensures StuckTo(before, store.k8s, qas, i + 1, now, vf, store.d)
    {
      var qa := qas[i];
      StuckStep(before, store.k8s, qas, i, now, vf);
      match qa.status {
        case Spawned =>
          DestroyIfOlderThan(qa, now, MAX_STUCK_SECS, vf(qa.name));
        case Failure =>
          DestroyIfOlderThan(qa, now, MAX_STUCK_SECS, vf(qa.name));
        case _ =>
      }
    }

    // Environments that failed, or were spawned and never became ready, are deleted in time.
    method DestroyFailedOrStuckEnvironments(now: int, f: Faults, vf: string -> Faults)
      requires Valid() && Well(store.d)
      modifies store`d
      ensures Well(store.d) && store.d.Keys == old(store.d).Keys
      ensures store.d == if f(ReadAll) then old(store.d)
                         else DeleteEach(old(store.d), store.k8s, StuckAmong(old(store.d), old(store.d).Keys, now), vf)
    {
      if f(ReadAll) {
        return;
      }
      var qas := store.GetQAEnvironments();
      ghost var before := store.d;
      StuckStart(before, store.k8s, qas, now, vf);
      for i := 0 to |qas|
        invariant StuckTo(before, store.k8s, qas, i, now, vf, store.d)
      {
        DestroyIfStuck(qas, i, now, vf, before);
      }
      StuckEnd(before, store.k8s, qas, now, vf, store.d);
    }

    // One record after the first i, unless the status of its pull request cannot be had.
    method DestroyIfClosed(qas: seq<Env>, i: nat, prs: (string, nat) -> PrStatus, vf: string -> Faults,
                           ghost before: Table)
      returns (ok: bool)
      requires Valid() && Well(before) && Listing(qas, before, before.Keys) && i < |qas|
      requires store.d == DeleteEach(before, store.k8s, ClosedAmong(before, NamesOf(qas[..i]), prs), vf)
      modifies store`d
      ensures ok <==> !Unclear(qas[i], prs)
      ensures var k := if ok then i + 1 else i;
              store.d == DeleteEach(before, store.k8s, ClosedAmong(before, NamesOf(qas[..k]), prs), vf)
    {
      var qa := qas[i];
      ClosedStep(before, store.k8s, qas, i, prs, vf);
      ok := true;
      if qa.status != Destroyed {
        match prs(qa.repo, qa.pr) {
          case Unknown => ok := false;
          case Closed => var deleted := manager.Delete(RdOf(qa), vf(qa.name));
          case Opened =>
        }
      }
    }

    // Environments of closed pull requests are deleted, up to the first pull request whose status
    // cannot be had.
    method DestroyClosedPRs(prs: (string, nat) -> PrStatus, f: Faults, vf: string -> Faults)
      returns (ok: bool, ghost qas: seq<Env>, ghost k: nat)
      requires Valid() && Well(store.d)
      modifies store`d
      ensures Well(store.d) && store.d.Keys == old(store.d).Keys
      ensures f(ReadAll) ==> !ok && store.d == old(store.d)
      ensures !f(ReadAll) ==> Listing(qas, old(store.d), old(store.d).Keys) && k <= |qas| && (ok <==> k == |qas|)
      ensures !f(ReadAll) ==> forall i :: 0 <= i < k ==> !Unclear(qas[i], prs)
      ensures !ok && !f(ReadAll) ==> Unclear(qas[k], prs)
      ensures !f(ReadAll) ==>
                store.d == DeleteEach(old(store.d), store.k8s, ClosedAmong(old(store.d), NamesOf(qas[..k]), prs), vf)
    {
      ok, qas, k := false, [], 0;
      if f(ReadAll) {
        return;
      }
      var all := store.GetQAEnvironments();
      qas := all;
      ghost var before := store.d;
      assert NamesOf(qas[..0]) == {} && ClosedAmong(before, {}, prs) == {};
      assert DeleteEach(before, store.k8s, {}, vf) == before;
      ok := true;
      for i := 0 to |all|
        invariant k == i && ok
        invariant forall j :: 0 <= j < i ==> !Unclear(qas[j], prs)
        invariant store.d == DeleteEach(before, store.k8s, ClosedAmong(before, NamesOf(qas[..i]), prs), vf)
      {
        ok := DestroyIfClosed(all, i, prs, vf, before);
        if !ok {
          break;
        }
        k := i + 1;
      }
      EachWell(before, store.k8s, ClosedAmong(before, NamesOf(qas[..k]), prs), vf);
    }

    method EnforceGlobalLimit(f: Faults, vf: string -> Faults) returns (ghost all: seq<Env>, ghost vs: seq<Env>)
      requires Valid() && Well(store.d)
      modifies store`d
      ensures Well(store.d) && store.d.Keys == old(store.d).Keys
      ensures manager.globalLimit > 0 && !f(ReadRunning) ==>
                Oldest(old(store.d), all, manager.globalLimit, vs)
                  && store.d == DestroyAll(old(store.d), store.k8s, vs, vf)
      ensures manager.globalLimit == 0 || f(ReadRunning) ==> store.d == old(store.d)
    {
      all, vs := [], [];
      if manager.globalLimit == 0 || f(ReadRunning) {
        return;
      }
      ghost var before := store.d;
      var qae := store.GetRunningQAEnvironments();
      all := qae;
      if |qae| > manager.globalLimit {
        var kc := |qae| - manager.globalLimit;
        var sorted := SortByCreated(qae);
        SortSorts(qae);
        SortedListing(qae, sorted, before, RunningNames(before));
        ListingCount(qae, before, RunningNames(before));
        ListingCount(sorted, before, RunningNames(before));
        all := sorted;
        var kenvs := sorted[..kc];
        vs := kenvs;
        for i := 0 to |kenvs|
          invariant store.d == DestroyAll(before, store.k8s, kenvs[..i], vf)
        {
          assert kenvs[..i + 1][..i] == kenvs[..i];
          DestroyAllWell(before, store.k8s, kenvs[..i], vf);
          var deleted := manager.Delete(RdOf(kenvs[i]), vf(kenvs[i].name));
        }
        assert kenvs[..|kenvs|] == kenvs;
      }
      DestroyAllWell(before, store.k8s, vs, vf);
    }

    // The four parts of a clean-up, each of which fails on its own.
    method Reap(now: int, at: string -> Option<int>, prs: (string, nat) -> PrStatus, fs: nat -> Faults,
                vfs: nat -> string -> Faults)
      returns (ghost mid: seq<Table>)
      requires Valid() && Well(store.d)
      modifies store
      ensures Well(store.d) && store.d.Keys <= old(store.d).Keys
      ensures Reaped(old(store.d), old(store.k8s), manager.globalLimit, now, at, prs, fs, vfs, mid, store.d, store.k8s)
    {
      ghost var d, k8s := store.d, store.k8s;
      var pruned, qas := PruneDestroyedRecords(now, at, fs(0), vfs(0));
      mid := [store.d];
      assert PruneLeads(d, k8s, now, at, fs(0), vfs(0), store.d, store.k8s, qas);
      DestroyFailedOrStuckEnvironments(now, fs(1), vfs(1));
      mid := mid + [store.d];
      var ok, prqas, k := DestroyClosedPRs(prs, fs(2), vfs(2));
      assert ClosedLeads(mid[1], store.k8s, prs, fs(2), vfs(2), store.d, prqas, k);
      mid := mid + [store.d];
      var all, vs := EnforceGlobalLimit(fs(3), vfs(3));
      assert LimitReaps(mid[2], store.k8s, manager.globalLimit, fs(3), vfs(3), store.d, all, vs);
    }
  }

  // What each of the four parts leads to.

  ghost predicate PruneLeads(d: Table, k8s: set<string>, now: int, at: string -> Option<int>, f: Faults,
                             vf: string -> Faults, b: Table, rows: set<string>, qas: seq<Env>) {
    if f(ReadAll) then b == d && rows == k8s
    else
      && Listing(qas, d, d.Keys)
      && b == d - Gone(qas, |qas|, at, now, vf) && rows == k8s - Gone(qas, |qas|, at, now, vf)
  }

  function StuckGone(d: Table, k8s: set<string>, now: int, f: Faults, vf: string -> Faults): Table {
    if f(ReadAll) then d else DeleteEach(d, k8s, StuckAmong(d, d.Keys, now), vf)
  }

  ghost predicate ClosedLeads(d: Table, k8s: set<string>, prs: (string, nat) -> PrStatus, f: Faults,
                              vf: string -> Faults, b: Table, qas: seq<Env>, k: nat) {
    if f(ReadAll) then b == d
    else
      && Listing(qas, d, d.Keys) && k <= |qas|
      && (forall i :: 0 <= i < k ==> !Unclear(qas[i], prs)) && (k < |qas| ==> Unclear(qas[k], prs))
      && b == DeleteEach(d, k8s, ClosedAmong(d, NamesOf(qas[..k]), prs), vf)
  }

  ghost predicate LimitReaps(d: Table, k8s: set<string>, limit: nat, f: Faults, vf: string -> Faults, b: Table,
                             all: seq<Env>, vs: seq<Env>) {
    if limit == 0 || f(ReadRunning) then b == d else Oldest(d, all, limit, vs) && b == DestroyAll(d, k8s, vs, vf)
  }

  ghost predicate PruneEnds(d: Table, k8s: set<string>, now: int, at: string -> Option<int>, f: Faults,
                            vf: string -> Faults, b: Table, rows: set<string>) {
    exists qas :: PruneLeads(d, k8s, now, at, f, vf, b, rows, qas)
  }

  ghost predicate ClosedEnds(d: Table, k8s: set<string>, prs: (string, nat) -> PrStatus, f: Faults,
                             vf: string -> Faults, b: Table) {
    exists qas, k :: ClosedLeads(d, k8s, prs, f, vf, b, qas, k)
  }

  ghost predicate LimitEnds(d: Table, k8s: set<string>, limit: nat, f: Faults, vf: string -> Faults, b: Table) {
    exists all, vs :: LimitReaps(d, k8s, limit, f, vf, b, all, vs)
  }

  // A whole clean-up leads from d to b, over the tables in between.
  ghost predicate Reaped(d: Table, k8s: set<string>, limit: nat, now: int, at: string -> Option<int>,
                         prs: (string, nat) -> PrStatus, fs: nat -> Faults, vfs: nat -> string -> Faults,
                         mid: seq<Table>, b: Table, rows: set<string>) {
    && |mid| == 3
    && PruneEnds(d, k8s, now, at, fs(0), vfs(0), mid[0], rows)
    && mid[1] == StuckGone(mid[0], rows, now, fs(1), vfs(1))
    && ClosedEnds(mid[1], rows, prs, fs(2), vfs(2), mid[2])
    && LimitEnds(mid[2], rows, limit, fs(3), vfs(3), b)
  }

  // The first k records have been looked at.
  ghost predicate PrunedTo(before: Table, rows: set<string>, qas: seq<Env>, k: nat, at: string -> Option<int>, now: int,
                           vf: string -> Faults, d: Table, k8s: set<string>, pruned: nat) {
    && k <= |qas|
    && d == before - Gone(qas, k, at, now, vf) && k8s == rows - Gone(qas, k, at, now, vf)
    && pruned == Least(AgedCount(qas, k, at, now), MAX_PRUNED)
  }

  lemma PruneStep(before: Table, rows: set<string>, qas: seq<Env>, k: nat, at: string -> Option<int>, now: int,
                  vf: string -> Faults, d: Table, k8s: set<string>, pruned: nat)
    requires Listing(qas, before, before.Keys) && k < |qas|
    requires PrunedTo(before, rows, qas, k, at, now, vf, d, k8s, pruned)
    ensures qas[k].name in d && d[qas[k].name] == qas[k]
    ensures var e := qas[k];
            var gone := if Prunable(e, at, now) && pruned < MAX_PRUNED && !vf(e.name)(DropRecord) then {e.name} else {};
            PrunedTo(before, rows, qas, k + 1, at, now, vf, d - gone, k8s - gone,
                     if Aged(e, at, now) && pruned < MAX_PRUNED then pruned + 1 else pruned)
  {
    assert ListedAt(qas, before, before.Keys, k);
    NotGone(qas, k, at, now, vf);
    var a := Gone(qas, k, at, now, vf);
    assert before - (a + {qas[k].name}) == before - a - {qas[k].name};
    assert before - (a + {}) == before - a - {};
  }

  lemma {:induction false} GoneNamed(qas: seq<Env>, k: nat, at: string -> Option<int>, now: int, vf: string -> Faults,
                                     n: string)
    requires k <= |qas|
    ensures n in Gone(qas, k, at, now, vf) <==> exists i :: 0 <= i < k && qas[i].name == n && Goes(qas, i, at, now, vf)
  {
    if k > 0 {
      GoneNamed(qas, k - 1, at, now, vf, n);
    }
  }

  lemma NotGone(qas: seq<Env>, k: nat, at: string -> Option<int>, now: int, vf: string -> Faults)
    requires DistinctNames(qas) && k < |qas|
    ensures qas[k].name !in Gone(qas, k, at, now, vf)
  {
    GoneNamed(qas, k, at, now, vf, qas[k].name);
  }

  lemma {:induction false} AgedMore(qas: seq<Env>, i: nat, k: nat, at: string -> Option<int>, now: int)
    requires i <= k <= |qas|
    ensures AgedCount(qas, i, at, now) <= AgedCount(qas, k, at, now)
  {
    if i < k {
      AgedMore(qas, i, k - 1, at, now);
    }
  }

  // A record goes exactly if it may, and can be deleted, and not a hundred aged ones went before it.
  lemma PrunedIff(d: Table, qas: seq<Env>, at: string -> Option<int>, now: int, vf: string -> Faults, n: string)
    requires Well(d) && Listing(qas, d, d.Keys) && n in d
    ensures n in Gone(qas, |qas|, at, now, vf)
            <==> exists i :: 0 <= i < |qas| && qas[i].name == n && Prunable(d[n], at, now) && !vf(n)(DropRecord)
                             && AgedCount(qas, i, at, now) < MAX_PRUNED
  {
    GoneNamed(qas, |qas|, at, now, vf, n);
    forall i | 0 <= i < |qas| && qas[i].name == n
      ensures qas[i] == d[n]
    {
      assert ListedAt(qas, d, d.Keys, i);
    }
  }

  // So all that may go has gone, unless it could not be deleted or a hundred aged ones have gone.
  lemma AllPrunedUnlessFull(d: Table, qas: seq<Env>, at: string -> Option<int>, now: int, vf: string -> Faults,
                            n: string)
    requires Well(d) && Listing(qas, d, d.Keys) && n in d
    ensures n in Gone(qas, |qas|, at, now, vf) ==> Prunable(d[n], at, now) && !vf(n)(DropRecord)
    ensures Prunable(d[n], at, now) && !vf(n)(DropRecord) && AgedCount(qas, |qas|, at, now) < MAX_PRUNED ==>
              n in Gone(qas, |qas|, at, now, vf)
    ensures |d.Keys| <= MAX_PRUNED ==>
              (n in Gone(qas, |qas|, at, now, vf) <==> Prunable(d[n], at, now) && !vf(n)(DropRecord))
  {
    PrunedIff(d, qas, at, now, vf, n);
    ListingCount(qas, d, d.Keys);
    assert Named(qas, n);
    var i :| 0 <= i < |qas| && qas[i].name == n;
    AgedMore(qas, i, |qas|, at, now);
  }

  // A clean-up in which nothing fails.

  ghost predicate Working(f: Faults) {
    forall c :: !f(c)
  }

  ghost predicate AllWork(fs: nat -> Faults, vfs: nat -> string -> Faults) {
    (forall i :: Working(fs(i))) && forall i, n :: Working(vfs(i)(n))
  }

  // Every extant environment of d has its row.
  ghost predicate HasRows(d: Table, rows: set<string>) {
    forall n :: n in d && Extant(d[n].status) ==> n in rows
  }

  // What each part does when nothing fails.

  ghost predicate WellWithRows(d: Table, rows: set<string>) {
    Well(d) && HasRows(d, rows)
  }

  ghost predicate PruneWorked(d: Table, b: Table, now: int, at: string -> Option<int>) {
    && b.Keys <= d.Keys && (forall n :: n in b ==> b[n] == d[n])
    && (forall n :: n in d && n !in b ==> Prunable(d[n], at, now))
    && (|d.Keys| <= MAX_PRUNED ==> forall n :: n in b ==> !Prunable(d[n], at, now))
  }

  // Exactly the named records have been destroyed.
  ghost predicate NowDestroyed(d: Table, b: Table, names: set<string>) {
    && b.Keys == d.Keys
    && forall n :: n in d ==> b[n] == if n in names then d[n].(status := Destroyed) else d[n]
  }

  ghost predicate LimitWorked(d: Table, b: Table, limit: nat) {
    && b.Keys == d.Keys && (limit > 0 ==> |RunningNames(b)| == Least(|RunningNames(d)|, limit))
    && forall n :: n in d ==>
         b[n] == d[n] || (b[n] == d[n].(status := Destroyed) && 0 < limit < |RunningNames(d)| && Running(d[n].status))
  }

  function ClosedNames(d: Table, prs: (string, nat) -> PrStatus): set<string> {
    set n | n in d && prs(d[n].repo, d[n].pr) == Closed
  }

  lemma PruneCleans(d: Table, k8s: set<string>, now: int, at: string -> Option<int>, f: Faults, vf: string -> Faults,
                    b: Table, rows: set<string>, qas: seq<Env>)
    requires WellWithRows(d, k8s) && Working(f) && forall n :: Working(vf(n))
    requires PruneLeads(d, k8s, now, at, f, vf, b, rows, qas)
    ensures WellWithRows(b, rows) && PruneWorked(d, b, now, at)
  {
    forall n | n in d
      ensures n in Gone(qas, |qas|, at, now, vf) ==> Prunable(d[n], at, now)
      ensures |d.Keys| <= MAX_PRUNED && Prunable(d[n], at, now) ==> n in Gone(qas, |qas|, at, now, vf)
    {
      AllPrunedUnlessFull(d, qas, at, now, vf, n);
      assert Working(vf(n));
    }
    PrunedWell(d, b);
  }

  // Deletes that nothing makes fail destroy what they are for.
  lemma EachDestroys(d: Table, rows: set<string>, names: set<string>, vf: string -> Faults)
    requires WellWithRows(d, rows) && forall n :: Working(vf(n))
    ensures WellWithRows(DeleteEach(d, rows, names, vf), rows) && NowDestroyed(d, DeleteEach(d, rows, names, vf), names)
  {
    EachWell(d, rows, names, vf);
    forall n | n in d
      ensures Deleted(d[n], rows, d[n].rev, vf(n)) == d[n].(status := Destroyed)
    {
      assert Working(vf(n));
    }
  }

  // With no status unknown, the environments of closed pull requests are destroyed.
  lemma ClosedCleans(d: Table, rows: set<string>, prs: (string, nat) -> PrStatus, f: Faults, vf: string -> Faults,
                     b: Table, qas: seq<Env>, k: nat)
    requires WellWithRows(d, rows) && Working(f) && forall n :: Working(vf(n))
    requires forall n :: n in d ==> prs(d[n].repo, d[n].pr) != Unknown
    requires ClosedLeads(d, rows, prs, f, vf, b, qas, k)
    ensures WellWithRows(b, rows) && NowDestroyed(d, b, ClosedNames(d, prs))
  {
    ListingCount(qas, d, d.Keys);
    forall i | 0 <= i < |qas|
      ensures !Unclear(qas[i], prs)
    {
      assert ListedAt(qas, d, d.Keys, i);
    }
    assert qas[..k] == qas;
    EachDestroys(d, rows, ClosedAmong(d, d.Keys, prs), vf);
  }

  // And as many of the oldest as are too many.
  lemma LimitCleans(d: Table, rows: set<string>, limit: nat, f: Faults, vf: string -> Faults, b: Table, all: seq<Env>,
                    vs: seq<Env>)
    requires WellWithRows(d, rows) && Working(f) && forall n :: Working(vf(n))
    requires LimitReaps(d, rows, limit, f, vf, b, all, vs)
    ensures LimitWorked(d, b, limit)
  {
    if limit > 0 {
      VictimCount(d, all, limit, vs);
      DestroyAllIs(d, rows, vs, vf);
      EachDestroys(d, rows, NamesOf(vs), vf);
      forall n | n in NamesOf(vs)
        ensures n in RunningNames(d) && Destroys(vf(n), rows, n)
      {
        assert Working(vf(n)) && Running(d[n].status) && Extant(d[n].status);
      }
      LimitMetIff(d, rows, all, limit, vs, vf);
      ListingCount(all, d, RunningNames(d));
    }
  }

  // Destroyed more than 730 hours ago, or at no known time.
  predicate LongDestroyed(e: Env, at: Option<int>, now: int) {
    e.status == Destroyed && (at.None? || now - at.value > 730 * 3600)
  }

  // What has gone, and what has become of the record d[n], that is b[n] afterwards: none but those long
  // destroyed has gone, and all of these if there are not too many; one that failed or was only spawned
  // more than an hour ago is destroyed, and so is one of a closed pull request.
  ghost predicate CleanAt(d: Table, limit: nat, now: int, at: string -> Option<int>, prs: (string, nat) -> PrStatus,
                          b: Table, n: string)
    requires n in d
  {
    var e := d[n];
    && (n !in b ==> LongDestroyed(e, at(n), now)) && (n in b && |d.Keys| <= 100 ==> !LongDestroyed(e, at(n), now))
    && (n in b ==>
          if (e.status in {Spawned, Failure} && now - e.created > 3600) || prs(e.repo, e.pr) == Closed
          then b[n] == e.(status := Destroyed)
          else b[n] == e
               || (b[n] == e.(status := Destroyed) && limit > 0 && e.status in {Success, Spawned, Updating}))
  }

  lemma CleanThroughAt(d: Table, limit: nat, now: int, at: string -> Option<int>, prs: (string, nat) -> PrStatus,
                       t0: Table, t1: Table, t2: Table, b: Table, n: string)
    requires n in d && d[n].name == n && PruneWorked(d, t0, now, at)
    requires NowDestroyed(t0, t1, StuckAmong(t0, t0.Keys, now)) && NowDestroyed(t1, t2, ClosedNames(t1, prs))
    requires LimitWorked(t2, b, limit)
    ensures n in b ==> n in t0 && n in t1 && n in t2
    ensures CleanAt(d, limit, now, at, prs, b, n)
  {
    var e := d[n];
    if n in t0 {
      assert n in StuckAmong(t0, t0.Keys, now) <==> e.status in {Spawned, Failure} && now - e.created > 3600;
      assert t1[n] == e || t1[n] == e.(status := Destroyed);
      assert n in ClosedNames(t1, prs) <==> prs(e.repo, e.pr) == Closed;
      assert t2[n] == e || t2[n] == e.(status := Destroyed);
    }
  }

  lemma CleanThrough(d: Table, limit: nat, now: int, at: string -> Option<int>, prs: (string, nat) -> PrStatus,
                     t0: Table, t1: Table, t2: Table, b: Table)
    requires Keyed(d) && PruneWorked(d, t0, now, at) && NowDestroyed(t0, t1, StuckAmong(t0, t0.Keys, now))
    requires NowDestroyed(t1, t2, ClosedNames(t1, prs)) && LimitWorked(t2, b, limit)
    ensures b.Keys <= d.Keys && forall n :: n in d ==> CleanAt(d, limit, now, at, prs, b, n)
    ensures limit > 0 ==> |RunningNames(b)| <= limit
  {
    forall n | n in d
      ensures CleanAt(d, limit, now, at, prs, b, n)
    {
      CleanThroughAt(d, limit, now, at, prs, t0, t1, t2, b, n);
    }
  }

  // The first two parts, and the others.
  lemma FirstParts(d: Table, k8s: set<string>, now: int, at: string -> Option<int>, fs: nat -> Faults,
                   vfs: nat -> string -> Faults, t0: Table, rows: set<string>)
    requires WellWithRows(d, k8s) && AllWork(fs, vfs)
    requires PruneEnds(d, k8s, now, at, fs(0), vfs(0), t0, rows)
    ensures var t1 := StuckGone(t0, rows, now, fs(1), vfs(1));
            PruneWorked(d, t0, now, at) && NowDestroyed(t0, t1, StuckAmong(t0, t0.Keys, now)) && WellWithRows(t1, rows)
  {
    assert Working(fs(0)) && Working(fs(1));
    var qas :| PruneLeads(d, k8s, now, at, fs(0), vfs(0), t0, rows, qas);
    PruneCleans(d, k8s, now, at, fs(0), vfs(0), t0, rows, qas);
    EachDestroys(t0, rows, StuckAmong(t0, t0.Keys, now), vfs(1));
  }

  ghost predicate AllKnown(d: Table, prs: (string, nat) -> PrStatus) {
    forall n :: n in d ==> prs(d[n].repo, d[n].pr) != Unknown
  }

  lemma LastParts(t1: Table, rows: set<string>, limit: nat, prs: (string, nat) -> PrStatus, fs: nat -> Faults,
                  vfs: nat -> string -> Faults, t2: Table, b: Table)
    requires WellWithRows(t1, rows) && AllWork(fs, vfs) && AllKnown(t1, prs)
    requires ClosedEnds(t1, rows, prs, fs(2), vfs(2), t2) && LimitEnds(t2, rows, limit, fs(3), vfs(3), b)
    ensures NowDestroyed(t1, t2, ClosedNames(t1, prs)) && LimitWorked(t2, b, limit)
  {
    assert Working(fs(2)) && Working(fs(3));
    var qas, k :| ClosedLeads(t1, rows, prs, fs(2), vfs(2), t2, qas, k);
    ClosedCleans(t1, rows, prs, fs(2), vfs(2), t2, qas, k);
    var all, vs :| LimitReaps(t2, rows, limit, fs(3), vfs(3), b, all, vs);
    LimitCleans(t2, rows, limit, fs(3), vfs(3), b, all, vs);
  }

  lemma StillKnown(d: Table, t0: Table, t1: Table, now: int, at: string -> Option<int>, prs: (string, nat) -> PrStatus)
    requires AllKnown(d, prs) && PruneWorked(d, t0, now, at) && NowDestroyed(t0, t1, StuckAmong(t0, t0.Keys, now))
    ensures AllKnown(t1, prs)
  {
  }

  // After a clean-up in which nothing fails only long destroyed records have gone, what was stuck or
  // belongs to a closed pull request is destroyed, no more run than the limit allows, and nothing
  // else has changed.
  lemma ReapCleans(d: Table, k8s: set<string>, limit: nat, now: int, at: string -> Option<int>,
                   prs: (string, nat) -> PrStatus, fs: nat -> Faults, vfs: nat -> string -> Faults, mid: seq<Table>,
                   b: Table, rows: set<string>)
    requires WellWithRows(d, k8s) && AllWork(fs, vfs) && AllKnown(d, prs)
    requires Reaped(d, k8s, limit, now, at, prs, fs, vfs, mid, b, rows)
    ensures b.Keys <= d.Keys && forall n :: n in d ==> CleanAt(d, limit, now, at, prs, b, n)
    ensures limit > 0 ==> |RunningNames(b)| <= limit
  {
    FirstParts(d, k8s, now, at, fs, vfs, mid[0], rows);
    StillKnown(d, mid[0], mid[1], now, at, prs);
    LastParts(mid[1], rows, limit, prs, fs, vfs, mid[2], b);
    CleanThrough(d, limit, now, at, prs, mid[0], mid[1], mid[2], b);
  }

  lemma NextName(qas: seq<Env>, i: nat)
    requires DistinctNames(qas) && i < |qas|
    ensures NamesOf(qas[..i + 1]) == NamesOf(qas[..i]) + {qas[i].name} && qas[i].name !in NamesOf(qas[..i])
  {
    assert qas[..i + 1] == qas[..i] + [qas[i]];
    forall e | e in qas[..i]
      ensures e.name != qas[i].name
    {
      var j :| 0 <= j < i && qas[..i][j] == e;
      assert qas[j].name != qas[i].name;
    }
  }

  lemma StuckMore(d: Table, done: set<string>, now: int, e: Env)
    ensures e.name !in done ==> e.name !in StuckAmong(d, done, now)
    ensures e.name in d && d[e.name] == e ==>
              StuckAmong(d, done + {e.name}, now)
              == StuckAmong(d, done, now) + if Stuck(e, now) then {e.name} else {}
  {
  }

  lemma ClosedMore(d: Table, done: set<string>, prs: (string, nat) -> PrStatus, e: Env)
    ensures e.name !in done ==> e.name !in ClosedAmong(d, done, prs)
    ensures e.name in d && d[e.name] == e ==>
              ClosedAmong(d, done + {e.name}, prs)
              == ClosedAmong(d, done, prs)
                 + if e.status != Destroyed && prs(e.repo, e.pr) == Closed then {e.name} else {}
  {
  }

  // Those stuck among the first k records have been deleted.
  ghost predicate StuckTo(before: Table, k8s: set<string>, qas: seq<Env>, k: nat, now: int, vf: string -> Faults,
                          d: Table) {
    k <= |qas| && d == DeleteEach(before, k8s, StuckAmong(before, NamesOf(qas[..k]), now), vf)
  }

  lemma StuckStart(before: Table, k8s: set<string>, qas: seq<Env>, now: int, vf: string -> Faults)
    ensures StuckTo(before, k8s, qas, 0, now, vf, before)
  {
    assert NamesOf(qas[..0]) == {} && StuckAmong(before, {}, now) == {};
  }

  lemma StuckEnd(before: Table, k8s: set<string>, qas: seq<Env>, now: int, vf: string -> Faults, d: Table)
    requires Well(before) && Listing(qas, before, before.Keys) && StuckTo(before, k8s, qas, |qas|, now, vf, d)
    ensures Well(d) && d.Keys == before.Keys
    ensures d == DeleteEach(before, k8s, StuckAmong(before, before.Keys, now), vf)
  {
    ListingCount(qas, before, before.Keys);
    assert qas[..|qas|] == qas;
    EachWell(before, k8s, StuckAmong(before, before.Keys, now), vf);
  }

  // What one more record adds.
  lemma StuckStep(d: Table, k8s: set<string>, qas: seq<Env>, i: nat, now: int, vf: string -> Faults)
    requires Well(d) && Listing(qas, d, d.Keys) && i < |qas|
    ensures var a, b := StuckAmong(d, NamesOf(qas[..i]), now), StuckAmong(d, NamesOf(qas[..i + 1]), now);
            && Well(DeleteEach(d, k8s, a, vf))
            && if Stuck(qas[i], now)
               then DeleteEach(d, k8s, b, vf) == DeleteIn(DeleteEach(d, k8s, a, vf), k8s, RdOf(qas[i]), vf(qas[i].name))
               else a == b
  {
    var names := StuckAmong(d, NamesOf(qas[..i]), now);
    ListingCount(qas, d, d.Keys);
    assert ListedAt(qas, d, d.Keys, i);
    NextName(qas, i);
    StuckMore(d, NamesOf(qas[..i]), now, qas[i]);
    EachWell(d, k8s, names, vf);
    DeleteOneOf(d, k8s, names, vf, qas[i]);
  }

  // What one more record of a closed pull request adds.
  lemma ClosedStep(d: Table, k8s: set<string>, qas: seq<Env>, i: nat, prs: (string, nat) -> PrStatus,
                   vf: string -> Faults)
    requires Well(d) && Listing(qas, d, d.Keys) && i < |qas|
    ensures var a, b := ClosedAmong(d, NamesOf(qas[..i]), prs), ClosedAmong(d, NamesOf(qas[..i + 1]), prs);
            && Well(DeleteEach(d, k8s, a, vf))
            && if qas[i].status != Destroyed && prs(qas[i].repo, qas[i].pr) == Closed
               then DeleteEach(d, k8s, b, vf) == DeleteIn(DeleteEach(d, k8s, a, vf), k8s, RdOf(qas[i]), vf(qas[i].name))
               else a == b
  {
    var names := ClosedAmong(d, NamesOf(qas[..i]), prs);
    ListingCount(qas, d, d.Keys);
    assert ListedAt(qas, d, d.Keys, i);
    NextName(qas, i);
    ClosedMore(d, NamesOf(qas[..i]), prs, qas[i]);
    EachWell(d, k8s, names, vf);
    DeleteOneOf(d, k8s, names, vf, qas[i]);
  }

  lemma PrunedWell(a: Table, b: Table)
    requires Well(a) && b.Keys <= a.Keys && (forall n :: n in b ==> b[n] == a[n])
    ensures Well(b)
  {
    forall n, m | n in b && m in b && SameKey(b[n], b[m])
      ensures n == m
    {
      assert SameKey(a[n], a[m]);
    }
  }

  // Runs of serialised operations.

  datatype Op =
    | CreateOp(rd: Rd, name: string, now: int, f: Faults, vf: string -> Faults)
    | UpdateOp(rd: Rd, name: string, now: int, sameConfig: bool, f: Faults, vf: string -> Faults)
    | DeleteOp(rd: Rd, f: Faults)
    | ReapOp(now: int, at: string -> Option<int>, prs: (string, nat) -> PrStatus,
             fs: nat -> Faults, vfs: nat -> string -> Faults)

  predicate Generates(op: Op, name: string) {
    (op.CreateOp? || op.UpdateOp?) && op.name == name
  }

  // Generated names are neither in the store nor generated again.
  ghost predicate NamesUnused(d: Table, ops: seq<Op>) {
    && (forall i, n :: 0 <= i < |ops| && Generates(ops[i], n) ==> n !in d)
    && forall i, j, n :: 0 <= i < j < |ops| && Generates(ops[i], n) ==> !Generates(ops[j], n)
  }

  // After every run there is at most one record, and so at most one extant environment, for each
  // repository and pull request.
  method Run(reaper: Reaper, ops: seq<Op>)
    requires reaper.Valid() && Well(reaper.store.d) && NamesUnused(reaper.store.d, ops)
    modifies reaper.store
    ensures Well(reaper.store.d)
    ensures forall repo, pr :: |ExtantFor(reaper.store.d, repo, pr)| <= |RecordsFor(reaper.store.d, repo, pr)| <= 1
  {
    var store, manager := reaper.store, reaper.manager;
    for i := 0 to |ops|
      invariant Well(store.d)
      invariant forall j, n :: i <= j < |ops| && Generates(ops[j], n) ==> n !in store.d
    {
      match ops[i] {
        case CreateOp(rd, name, now, f, vf) =>
          assert Generates(ops[i], name);
          var r, ok := manager.Create(rd, name, now, f, vf);
        case UpdateOp(rd, name, now, sameConfig, f, vf) =>
          assert Generates(ops[i], name);
          var r, ok := manager.Update(rd, name, now, sameConfig, f, vf);
        case DeleteOp(rd, f) =>
          DeleteTouches(store.d, store.k8s, rd, f);
          var ok := manager.Delete(rd, f);
        case ReapOp(now, at, prs, fs, vfs) =>
          var mid := reaper.Reap(now, at, prs, fs, vfs);
      }
    }
    forall repo, pr
      ensures |ExtantFor(store.d, repo, pr)| <= |RecordsFor(store.d, repo, pr)| <= 1
    {
      ExtantAtMostOne(store.d, repo, pr);
    }
  }
}
