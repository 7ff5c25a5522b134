/**
  The life of an environment: creating, updating and deleting it, and keeping
  the number of running environments within the global limit. Operations are
  serialised.
  */
module EnvManager {
  import opened Wrappers
  import opened EnvStore
  import opened EnvRules

  class Manager {
    const store: DataLayer
    const globalLimit: nat

    constructor (limit: nat)
      ensures fresh(store) && globalLimit == limit && store.d == map[] && store.k8s == {}
    {
      store := new DataLayer();
      globalLimit := limit;
    }

    // One of the records that were created last.
    static method Latest(envs: seq<Env>) returns (latest: Env)
      requires envs != []
      ensures latest in envs && forall e :: e in envs ==> e.created <= latest.created
    {
      SortSorts(envs);
      var sorted := SortByCreated(envs);
      assert |sorted| == |multiset(sorted)| == |envs|;
      latest := sorted[|sorted| - 1];
      assert latest in multiset(sorted);
      forall e | e in envs
        ensures e.created <= latest.created
      {
        assert e in multiset(sorted) && e in sorted;
      }
    }

    // Reuses the latest record of the pull request, or writes a new one.
    method GenerateNewEnv(rd: Rd, name: string, now: int, f: Faults) returns (r: Option<Env>)
      requires Well(store.d) && name !in store.d
      modifies store`d
      ensures Well(store.d) && Touches(old(store.d), store.d, rd.repo, rd.pr)
      ensures old(store.d).Keys <= store.d.Keys <= old(store.d).Keys + {name}
      ensures r.Some? <==> CanGenerate(old(store.d), rd, f)
      ensures r.None? ==> store.d.Keys == old(store.d).Keys
      ensures r.Some? ==> store.d == old(store.d)[r.value.name := r.value]
      ensures r.Some? ==> r.value == Env(r.value.name, rd.repo, rd.pr, Spawned, now, rd.rev)
      ensures r.Some? ==>
                RecordsFor(old(store.d), rd.repo, rd.pr) == if r.value.name == name then {} else {r.value.name}
    {
      if f(ListRecords) {
        return None;
      }
      var envs := store.GetQAEnvironmentsByRepoAndPR(rd.repo, rd.pr);
      ListingCount(envs, store.d, RecordsFor(store.d, rd.repo, rd.pr));
      ExtantAtMostOne(store.d, rd.repo, rd.pr);
      if |envs| > 0 {
        var latest := Latest(envs);
        ghost var before, n := store.d, latest.name;
        r := Reuse(latest.name, rd, now, f);
        ReuseWell(before, n, rd, store.d[n]);
      } else {
        if f(GenerateName) || f(WriteRecord) {
          return None;
        }
        var e := Env(name, rd.repo, rd.pr, Spawned, now, rd.rev);
        NewWell(store.d, e);
        store.CreateQAEnvironment(e);
        r := Some(e);
      }
    }

    method Reuse(n: string, rd: Rd, now: int, f: Faults) returns (r: Option<Env>)
      requires n in store.d && store.d[n].name == n && For(store.d[n], rd.repo, rd.pr)
      modifies store`d
      ensures n in store.d && store.d == old(store.d)[n := store.d[n]]
      ensures store.d[n].name == n && For(store.d[n], rd.repo, rd.pr)
      ensures r.Some? <==> !f(MarkSpawned) && !f(WriteRepoData) && !f(WriteCreated) && !f(Reread)
      ensures r.Some? ==> r.value == store.d[n] == Env(n, rd.repo, rd.pr, Spawned, now, rd.rev)
    {
      if f(MarkSpawned) {
        return None;
      }
      var ok := store.SetQAEnvironmentStatus(n, Spawned);
      if f(WriteRepoData) {
        return None;
      }
      ok := store.SetQAEnvironmentRepoData(n, rd);
      if f(WriteCreated) {
        return None;
      }
      ok := store.SetQAEnvironmentCreated(n, now);
      if f(Reread) {
        return None;
      }
      r := Some(store.d[n]);
    }

    method ProcessEnvConfig(n: string, rd: Rd, f: Faults) returns (ok: bool)
      requires n in store.d && For(store.d[n], rd.repo, rd.pr)
      modifies store`d
      ensures store.d == if RevWritten(f) then old(store.d)[n := old(store.d)[n].(rev := rd.rev)] else old(store.d)
      ensures ok <==> ConfigDone(f)
    {
      if f(FetchConfig) || f(MakeMaps) || f(WriteMaps) || f(WriteConfigData) {
        return false;
      }
      var written := store.SetQAEnvironmentRepoData(n, rd);
      ok := !f(RereadConfig);
    }

    method Delete(rd: Rd, f: Faults) returns (ok: bool)
      requires Well(store.d)
      modifies store`d
      ensures DeleteMeans(old(store.d), store.d, rd, f, ok)
      ensures store.d == DeleteIn(old(store.d), store.k8s, rd, f)
      ensures ok <==> !f(ReadExtant) &&
                      if ExtantFor(old(store.d), rd.repo, rd.pr) == {} then !f(ListRecords)
                      else
                        ExtantFor(old(store.d), rd.repo, rd.pr) <= store.k8s
                        && !f(Cancelled) && !f(ReadK8s) && !f(MarkDestroyed)
    {
      ghost var d := store.d;
      if f(ReadExtant) {
        DeleteIsMeant(d, store.k8s, rd, f, false);
        return false;
      }
      var envs := store.GetExtantQAEnvironments(rd.repo, rd.pr);
      ListingCount(envs, store.d, ExtantFor(store.d, rd.repo, rd.pr));
      ExtantAtMostOne(store.d, rd.repo, rd.pr);
      if |envs| != 1 {
        ok := DeleteRecords(rd, f);
      } else {
        assert ListedAt(envs, store.d, ExtantFor(store.d, rd.repo, rd.pr), 0);
        ok := DeleteExtant(envs[0].name, rd, f);
      }
      DeleteIsMeant(d, store.k8s, rd, f, ok);
    }

    // Without an extant environment all records of the pull request are marked.
    method DeleteRecords(rd: Rd, f: Faults) returns (ok: bool)
      requires Well(store.d) && ExtantFor(store.d, rd.repo, rd.pr) == {} && !f(ReadExtant)
      modifies store`d
      ensures store.d == DeleteIn(old(store.d), store.k8s, rd, f) && ok == !f(ListRecords)
    {
      ghost var before := store.d;
      ghost var rs := RecordsFor(before, rd.repo, rd.pr);
      if f(ListRecords) {
        DeleteNoneIs(before, store.k8s, rd, f, store.d);
        return false;
      }
      var envs := store.GetQAEnvironmentsByRepoAndPR(rd.repo, rd.pr);
      assert Marked(before, envs[..0]) == before;
      for i := 0 to |envs|
        invariant store.d == if f(MarkDestroyed) then before else Marked(before, envs[..i])
      {
        assert ListedAt(envs, before, rs, i);
        assert envs[..i + 1] == envs[..i] + [envs[i]];
        MarkMore(before, envs[..i], envs[i]);
        if !f(MarkDestroyed) {
          var marked := store.SetQAEnvironmentStatus(envs[i].name, Destroyed);
        }
      }
      assert envs[..|envs|] == envs;
      AllMarked(before, rd, envs);
      DeleteNoneIs(before, store.k8s, rd, f, store.d);
      ok := true;
    }

    method DeleteExtant(n: string, rd: Rd, f: Faults) returns (ok: bool)
      requires Well(store.d) && ExtantFor(store.d, rd.repo, rd.pr) == {n} && !f(ReadExtant)
      modifies store`d
      ensures store.d == DeleteIn(old(store.d), store.k8s, rd, f) && ok == Destroys(f, store.k8s, n)
    {
      assert n in ExtantFor(store.d, rd.repo, rd.pr);
      DeleteOne(store.d, store.k8s, rd, f, n);
      var processed := ProcessEnvConfig(n, rd, f);
      if f(Cancelled) || f(ReadK8s) || n !in store.k8s || f(MarkDestroyed) {
        return false;
      }
      var marked := store.SetQAEnvironmentStatus(n, Destroyed);
      ok := true;
    }

    // Destroys the oldest environments beyond the limit. A delete that fails is only logged.
    method EnforceGlobalLimit(f: Faults, vf: string -> Faults)
      returns (ok: bool, ghost all: seq<Env>, ghost vs: seq<Env>, ghost k: nat)
      requires Well(store.d)
      modifies store`d
      ensures globalLimit > 0 && !f(ReadRunning) ==> Oldest(old(store.d), all, globalLimit, vs)
      ensures k <= |vs| && store.d == DestroyAll(old(store.d), store.k8s, vs[..k], vf)
      ensures ok <==> globalLimit == 0 || (!f(ReadRunning) && forall i :: 0 < i <= |vs| ==> !f(LimitCancelled(i)))
      ensures globalLimit > 0 ==> k == if f(ReadRunning) then 0 else FirstCancelled(f, |vs|)
      ensures globalLimit == 0 ==> k == 0
      ensures ok && globalLimit > 0 ==> k == |vs| && !f(ReadRunning)
    {
      all, vs, k := [], [], 0;
      if globalLimit == 0 {
        ok := true;
        return;
      }
      if f(ReadRunning) {
        ok := false;
        return;
      }
      var qae := store.GetRunningQAEnvironments();
      var limit := globalLimit;
      all := qae;
      ok := true;
      if |qae| > limit {
        var kenvs := qae[..|qae| - limit];
        vs := kenvs;
        ok, k := DestroyVictims(kenvs, f, vf);
      }
    }

    // One after the other, until the context is found cancelled.
    method DestroyVictims(kenvs: seq<Env>, f: Faults, vf: string -> Faults) returns (ok: bool, ghost k: nat)
      requires Well(store.d)
      modifies store`d
      ensures k == FirstCancelled(f, |kenvs|) <= |kenvs|
              && store.d == DestroyAll(old(store.d), store.k8s, kenvs[..k], vf)
      ensures ok <==> forall i :: 0 < i <= |kenvs| ==> !f(LimitCancelled(i))
      ensures ok ==> k == |kenvs|
    {
      ghost var before := store.d;
      k := 0;
      for i := 0 to |kenvs|
        invariant k == i && store.d == DestroyAll(before, store.k8s, kenvs[..i], vf)
        invariant forall j :: 0 < j <= i ==> !f(LimitCancelled(j))
      {
        assert kenvs[..i + 1][..i] == kenvs[..i];
        DestroyAllWell(before, store.k8s, kenvs[..i], vf);
        var deleted := Delete(RdOf(kenvs[i]), vf(kenvs[i].name));
        k := i + 1;
        if f(LimitCancelled(i + 1)) {
          CancelledAt(f, k, |kenvs|);
          ok := false;
          return;
        }
      }
      NotCancelled(f, |kenvs|);
      ok := true;
    }

    // Builds and installs all charts of an environment; the result becomes its status.
    method BuildAndInstallCharts(n: string, f: Faults) returns (ok: bool)
      requires n in store.d
      modifies store
      ensures ok <==> Installs(n, old(store.k8s), f)
      ensures store.d == InstalledIn(old(store.d), n, f, ok)
      ensures store.k8s == RowsInstalled(old(store.k8s), n, f)
    {
      if f(K8sClient) || f(Namespace) {
        return false;
      }
      ok := WriteK8sEnvironment(n, f);
      ok := ok && !f(Deploy);
      if ok && !f(MarkInstalled) {
        var marked := store.SetQAEnvironmentStatus(n, Success);
      } else if !ok && !f(MarkNotInstalled) {
        var marked := store.SetQAEnvironmentStatus(n, Failure);
      }
    }

    method WriteK8sEnvironment(n: string, f: Faults) returns (ok: bool)
      requires n in store.d
      modifies store`k8s
      ensures ok <==> !f(ReadK8sRow) && (n in old(store.k8s) ==> !f(DropK8sRow))
                      && !f(EncodeConfig) && !f(WriteK8sRow) && n != ""
      ensures store.k8s == RowWritten(old(store.k8s), n, f)
    {
      if f(ReadK8sRow) {
        return false;
      }
      if n in store.k8s {
        if f(DropK8sRow) {
          return false;
        }
        store.DeleteK8sEnv(n);
      }
      if f(EncodeConfig) || f(WriteK8sRow) {
        return false;
      }
      ok := store.CreateK8sEnv(n);
    }

    // Upgrades the releases of an environment in place.
    method InstallOrUpgradeIntoExisting(n: string, f: Faults) returns (ok: bool)
      modifies store`d
      ensures ok <==> !f(K8sClient) && !f(Deploy)
      ensures store.d == UpgradedIn(old(store.d), n, f, ok)
    {
      if f(K8sClient) {
        return false;
      }
      if !f(MarkUpdating) {
        var updating := store.SetQAEnvironmentStatus(n, Updating);
      }
      ok := !f(Deploy);
      if ok && !f(MarkInstalled) {
        var marked := store.SetQAEnvironmentStatus(n, Success);
      } else if !ok && !f(MarkNotInstalled) {
        var marked := store.SetQAEnvironmentStatus(n, Failure);
      }
    }

    // Creates an environment and returns its record, if one was obtained.
    method Create(rd: Rd, name: string, now: int, f: Faults, vf: string -> Faults) returns (r: Option<Env>, ok: bool)
      requires Well(store.d) && name !in store.d
      modifies store
      ensures Well(store.d) && old(store.d).Keys <= store.d.Keys <= old(store.d).Keys + {name}
      ensures CreateDone(old(store.d), old(store.k8s), globalLimit, rd, name, now, f, vf, NameIn(r), ok,
                store.d, store.k8s)
      ensures r.Some? ==> r.value == Env(r.value.name, rd.repo, rd.pr, Spawned, now, rd.rev)
      ensures r.Some? ==> Outcome(r.value.name, rd, f, ok)
      ensures ok && globalLimit > 0 && (forall n :: n in old(store.d) ==> old(store.d)[n].created < now)
              && OthersDestroyable(old(store.d), old(store.k8s), vf, r.value.name)
              ==> |RunningNames(store.d)| <= globalLimit
    {
      r := GenerateNewEnv(rd, name, now, f);
      if r.None? {
        return None, false;
      }
      var n := r.value.name;
      ok := CreateInto(n, rd, f, vf);
    }

    // A finished operation that obtained a record leaves it Success if it returned no error, and
    // Failure if it did.
    ghost predicate Outcome(n: string, rd: Rd, f: Faults, ok: bool)
      reads store
    {
      n in store.d && For(store.d[n], rd.repo, rd.pr) &&
      (StoreWorks(f) ==> store.d[n].status == if ok then Success else Failure)
    }

    // Creates the environment of the new record n, and marks it as failed if that fails.
    method CreateInto(n: string, rd: Rd, f: Faults, vf: string -> Faults) returns (ok: bool)
      requires Well(store.d) && n in store.d && For(store.d[n], rd.repo, rd.pr) && store.d[n].status == Spawned
      requires store.d[n].rev == rd.rev
      modifies store
      ensures Well(store.d) && store.d.Keys == old(store.d).Keys && For(store.d[n], rd.repo, rd.pr)
      ensures CreateEnds(old(store.d), old(store.k8s), n, globalLimit, f, vf, ok, store.d, store.k8s)
      ensures MarkedAs(store.d[n].status, ok, f)
      ensures ok && globalLimit > 0 && Newest(old(store.d), n) && OthersDestroyable(old(store.d), old(store.k8s), vf, n)
              ==> |RunningNames(store.d)| <= globalLimit
    {
      var prepared := PrepareCreate(n, rd, f, vf);
      ghost var t := store.d;
      ok := false;
      if prepared {
        ok := BuildAndInstallCharts(n, f);
        FinishedWell(t, n, f, ok);
      }
      CreateEnded(old(store.d), old(store.k8s), n, globalLimit, f, vf, ok, t, prepared);
      if !ok && !f(MarkFailure) {
        StatusWell(store.d, n, Failure);
        var marked := store.SetQAEnvironmentStatus(n, Failure);
      }
    }

    // Everything up to the installation of the charts.
    method PrepareCreate(n: string, rd: Rd, f: Faults, vf: string -> Faults) returns (ok: bool)
      requires Well(store.d) && n in store.d && For(store.d[n], rd.repo, rd.pr) && store.d[n].status == Spawned
      requires store.d[n].rev == rd.rev
      modifies store`d
      ensures Well(store.d) && store.d.Keys == old(store.d).Keys && For(store.d[n], rd.repo, rd.pr)
      ensures Prepared(old(store.d), store.k8s, globalLimit, f, vf, store.d, ok)
      ensures ok && globalLimit > 0 && Newest(old(store.d), n) && OthersDestroyable(old(store.d), store.k8s, vf, n)
              ==> n in RunningNames(store.d) && |RunningNames(store.d)| <= globalLimit
    {
      ghost var d := store.d;
      var configured := ProcessEnvConfig(n, rd, f);
      assert store.d == d;
      if !configured || f(Cancelled) || f(FetchCharts) {
        return false;
      }
      var limited, all, vs, k := EnforceGlobalLimit(f, vf);
      ok := limited;
      DestroyAllWell(d, store.k8s, vs[..k], vf);
      KeyKept(d, store.k8s, vs[..k], vf, n);
      if globalLimit > 0 && !f(ReadRunning) {
        assert LimitLeads(d, store.k8s, all, globalLimit, vs, f, vf, store.d, ok);
        if ok && Newest(d, n) && OthersDestroyable(d, store.k8s, vf, n) {
          assert vs[..k] == vs;
          LimitWithNewest(d, store.k8s, all, globalLimit, vs, vf, n);
        }
      }
    }

    // Updates the one extant environment, or creates one. `sameConfig` says that the signature of
    // the new configuration equals the one in the Kubernetes row.
    method Update(rd: Rd, name: string, now: int, sameConfig: bool, f: Faults, vf: string -> Faults)
      returns (r: Option<string>, ok: bool)
      requires Well(store.d) && name !in store.d
      modifies store
      ensures Well(store.d) && old(store.d).Keys <= store.d.Keys <= old(store.d).Keys + {name}
      ensures f(ReadExtant) ==> r.None? && !ok && store.d == old(store.d) && store.k8s == old(store.k8s)
      ensures !f(ReadExtant) && ExtantFor(old(store.d), rd.repo, rd.pr) == {} ==>
                CreateDone(old(store.d), old(store.k8s), globalLimit, rd, name, now, f, vf, r, ok, store.d, store.k8s)
      ensures !f(ReadExtant) && ExtantFor(old(store.d), rd.repo, rd.pr) != {} ==>
                && r.Some? && ExtantFor(old(store.d), rd.repo, rd.pr) == {r.value}
                && UpdateDone(old(store.d), old(store.k8s), r.value, rd,
                     sameConfig && old(store.d)[r.value].status == Success, f, ok, store.d, store.k8s)
      ensures r.Some? ==> Outcome(r.value, rd, f, ok)
      ensures ExtantFor(old(store.d), rd.repo, rd.pr) == {} && ok && globalLimit > 0
              && (forall n :: n in old(store.d) ==> old(store.d)[n].created < now)
              && OthersDestroyable(old(store.d), old(store.k8s), vf, r.value)
              ==> |RunningNames(store.d)| <= globalLimit
    {
      if f(ReadExtant) {
        return None, false;
      }
      var envs := store.GetExtantQAEnvironments(rd.repo, rd.pr);
      ghost var xs := ExtantFor(store.d, rd.repo, rd.pr);
      ListingCount(envs, store.d, xs);
      ExtantAtMostOne(store.d, rd.repo, rd.pr);
      if |envs| != 1 {
        var e;
        e, ok := Create(rd, name, now, f, vf);
        r := NameIn(e);
        return;
      }
      assert ListedAt(envs, store.d, xs, 0);
      var n := envs[0].name;
      assert NamesOf(envs) == {n};
      ok := UpdateExisting(n, rd, sameConfig && envs[0].status == Success, f);
      r := Some(n);
    }

    // Updates the environment n, and marks it as failed if that fails.
    method UpdateExisting(n: string, rd: Rd, inPlace: bool, f: Faults) returns (ok: bool)
      requires Well(store.d) && n in store.d && For(store.d[n], rd.repo, rd.pr)
      modifies store
      ensures Well(store.d)
      ensures UpdateDone(old(store.d), old(store.k8s), n, rd, inPlace, f, ok, store.d, store.k8s)
    {
      ok := Rebuild(n, rd, inPlace, f);
      if !ok && !f(MarkFailure) {
        StatusWell(store.d, n, Failure);
        var marked := store.SetQAEnvironmentStatus(n, Failure);
      }
    }

    method Rebuild(n: string, rd: Rd, inPlace: bool, f: Faults) returns (ok: bool)
      requires Well(store.d) && n in store.d && For(store.d[n], rd.repo, rd.pr)
      modifies store
      ensures Well(store.d) && n in store.d
      ensures var d := Revised(old(store.d), n, rd, f); store.d == d[n := d[n].(status := store.d[n].status)]
      ensures ok <==> UpdateWorks(n, inPlace, old(store.k8s), f)
      ensures ok ==> store.d[n].status == if !f(MarkInstalled) then Success
                                          else if inPlace && !f(MarkUpdating) then Updating else old(store.d)[n].status
      ensures !ok ==> store.d[n].status in {old(store.d)[n].status, Updating, Failure}
      ensures store.k8s == old(store.k8s) || (!inPlace && store.k8s == RowsInstalled(old(store.k8s), n, f))
      ensures ok && !inPlace ==> store.k8s == RowsInstalled(old(store.k8s), n, f)
    {
      RevWell(store.d, n, rd.rev);
      var configured := ProcessEnvConfig(n, rd, f);
      if !configured || f(ReadK8s) || n !in store.k8s || f(Cancelled) || f(FetchCharts) {
        return false;
      }
      ghost var d := store.d;
      if inPlace {
        if f(ReadReleases) {
          return false;
        }
        ok := InstallOrUpgradeIntoExisting(n, f);
        UpgradedWell(d, n, f, ok);
      } else {
        ok := BuildAndInstallCharts(n, f);
        FinishedWell(d, n, f, ok);
      }
    }
  }

  function NameIn(r: Option<Env>): Option<string> {
    if r.Some? then Some(r.value.name) else None
  }
}
