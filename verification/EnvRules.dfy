/**
  What the operations on environments do to the table of records, whatever they
  call may fail: deleting by repository and pull request, and destroying the
  oldest running environments.
  */
module EnvRules {
  import opened Wrappers
  import opened EnvStore

  // What an operation calls, and may see fail. The last group is outside the data layer.
  datatype Call =
    | ListRecords | MarkSpawned | WriteRepoData | WriteCreated | Reread | WriteRecord
    | WriteMaps | WriteConfigData | RereadConfig
    | ReadExtant | ReadK8s | ReadRunning | ReadReleases | MarkDestroyed | MarkFailure
    | MarkUpdating | MarkInstalled | MarkNotInstalled | ReadK8sRow | DropK8sRow | WriteK8sRow
    | ReadAll | DropRecord
    | GenerateName | FetchConfig | MakeMaps | FetchCharts | Cancelled
    | LimitCancelled(victims: nat) // found cancelled after so many have been deleted
    | K8sClient | Namespace | EncodeConfig | Deploy

  predicate StoreCall(c: Call) {
    match c
    case GenerateName | FetchConfig | MakeMaps | FetchCharts | Cancelled | LimitCancelled(_) => false
    case K8sClient | Namespace | EncodeConfig | Deploy => false
    case _ => true
  }

  type Faults = Call -> bool

  ghost predicate StoreWorks(f: Faults) {
    forall c :: StoreCall(c) ==> !f(c)
  }

  // What an operation for one (repository, pull request) may change.

  ghost predicate TouchAt(a: Table, b: Table, repo: string, pr: nat, n: string) {
    && (n in a ==>
          n in b && if For(a[n], repo, pr) then For(b[n], repo, pr) && b[n].name == a[n].name else b[n] == a[n])
    && (n in b && n !in a ==> For(b[n], repo, pr))
  }

  ghost predicate Touches(a: Table, b: Table, repo: string, pr: nat) {
    forall n :: TouchAt(a, b, repo, pr, n)
  }

  lemma TouchOne(a: Table, n: string, e: Env, repo: string, pr: nat)
    requires For(e, repo, pr) && (n in a ==> For(a[n], repo, pr) && e.name == a[n].name)
    ensures Touches(a, a[n := e], repo, pr)
  {
    var b := a[n := e];
    forall m
      ensures TouchAt(a, b, repo, pr, m)
    {
    }
  }

  // Records keep their names and keys, so the store stays well kept.
  lemma TouchedWell(a: Table, b: Table, repo: string, pr: nat)
    requires Well(a) && Touches(a, b, repo, pr) && b.Keys == a.Keys
    ensures Well(b)
  {
    forall n, m | n in b && m in b && SameKey(b[n], b[m])
      ensures n == m
    {
      assert TouchAt(a, b, repo, pr, n) && TouchAt(a, b, repo, pr, m);
      assert SameKey(a[n], a[m]);
    }
    forall n | n in b
      ensures b[n].name == n
    {
      assert TouchAt(a, b, repo, pr, n);
    }
  }

  // In a well-kept store a count other than one means that there is no extant environment.
  lemma ExtantAtMostOne(d: Table, repo: string, pr: nat)
    requires Well(d)
    ensures |ExtantFor(d, repo, pr)| <= |RecordsFor(d, repo, pr)| <= 1
    ensures |ExtantFor(d, repo, pr)| != 1 ==> ExtantFor(d, repo, pr) == {}
  {
    var rs, xs := RecordsFor(d, repo, pr), ExtantFor(d, repo, pr);
    if n :| n in rs {
      forall m | m in rs
        ensures m == n
      {
        assert SameKey(d[n], d[m]);
      }
      assert rs == {n};
      assert xs == {} || xs == {n};
    } else {
      assert rs == {} && xs == {};
    }
  }

  // Deleting, on the table.

  // The revision data has been written by the time that reading it back may fail.
  predicate RevWritten(f: Faults) {
    !f(FetchConfig) && !f(MakeMaps) && !f(WriteMaps) && !f(WriteConfigData)
  }

  predicate ConfigDone(f: Faults) {
    RevWritten(f) && !f(RereadConfig)
  }

  // An extant environment is destroyed by a delete without a fault if it has a Kubernetes row.
  predicate Destroys(f: Faults, k8s: set<string>, n: string) {
    !f(ReadExtant) && !f(Cancelled) && !f(ReadK8s) && n in k8s && !f(MarkDestroyed)
  }

  // What becomes of the one record for the deleted (repository, pull request).
  function Deleted(e: Env, k8s: set<string>, rev: string, f: Faults): Env {
    if f(ReadExtant) then e
    else if Extant(e.status) then
      e.(rev := if RevWritten(f) then rev else e.rev,
         status := if Destroys(f, k8s, e.name) then Destroyed else e.status)
    else e.(status := if f(ListRecords) || f(MarkDestroyed) then e.status else Destroyed)
  }

  function DeleteIn(d: Table, k8s: set<string>, rd: Rd, f: Faults): Table {
    map n | n in d :: if For(d[n], rd.repo, rd.pr) then Deleted(d[n], k8s, rd.rev, f) else d[n]
  }

  lemma DeleteTouches(d: Table, k8s: set<string>, rd: Rd, f: Faults)
    ensures Touches(d, DeleteIn(d, k8s, rd, f), rd.repo, rd.pr)
    ensures Well(d) ==> Well(DeleteIn(d, k8s, rd, f))
  {
    forall n
      ensures TouchAt(d, DeleteIn(d, k8s, rd, f), rd.repo, rd.pr, n)
    {
    }
    if Well(d) {
      TouchedWell(d, DeleteIn(d, k8s, rd, f), rd.repo, rd.pr);
    }
  }

  lemma NamedMore(out: seq<Env>, e: Env)
    ensures forall n :: Named(out + [e], n) <==> Named(out, n) || n == e.name
  {
    forall n
      ensures Named(out + [e], n) <==> Named(out, n) || n == e.name
    {
      if Named(out, n) {
        var i :| 0 <= i < |out| && out[i].name == n;
        assert (out + [e])[i].name == n;
      }
      assert (out + [e])[|out|].name == e.name;
    }
  }

  // The records listed in out are marked as destroyed.
  ghost function Marked(d: Table, out: seq<Env>): Table {
    map n | n in d :: if Named(out, n) then d[n].(status := Destroyed) else d[n]
  }

  lemma MarkMore(d: Table, out: seq<Env>, e: Env)
    requires e.name in d
    ensures Marked(d, out + [e]) == SetStatus(Marked(d, out), e.name, Destroyed)
  {
    NamedMore(out, e);
  }

  lemma AllMarked(d: Table, rd: Rd, envs: seq<Env>)
    requires Listing(envs, d, RecordsFor(d, rd.repo, rd.pr))
    ensures Marked(d, envs) == map n | n in d :: if For(d[n], rd.repo, rd.pr) then d[n].(status := Destroyed) else d[n]
  {
    AllNamed(envs, d, RecordsFor(d, rd.repo, rd.pr));
  }

  lemma AllNamed(out: seq<Env>, d: Table, ns: set<string>)
    requires Listing(out, d, ns)
    ensures forall n :: Named(out, n) <==> n in ns
  {
    forall n | Named(out, n)
      ensures n in ns
    {
      var i :| 0 <= i < |out| && out[i].name == n;
      assert ListedAt(out, d, ns, i);
    }
  }

  lemma OnlyRecord(d: Table, rd: Rd, n: string)
    requires Well(d) && n in d && For(d[n], rd.repo, rd.pr)
    ensures RecordsFor(d, rd.repo, rd.pr) == {n}
  {
    forall m | m in RecordsFor(d, rd.repo, rd.pr)
      ensures m == n
    {
      assert SameKey(d[m], d[n]);
    }
  }

  lemma NewWell(d: Table, e: Env)
    requires Well(d) && e.name !in d && RecordsFor(d, e.repo, e.pr) == {}
    ensures Well(d[e.name := e]) && Touches(d, d[e.name := e], e.repo, e.pr)
  {
    TouchOne(d, e.name, e, e.repo, e.pr);
    forall n | n in d
      ensures !SameKey(d[n], e) && !SameKey(e, d[n])
    {
      assert n !in RecordsFor(d, e.repo, e.pr);
    }
  }

  lemma ReuseWell(d: Table, n: string, rd: Rd, e: Env)
    requires Well(d) && n in d && For(d[n], rd.repo, rd.pr)
    requires e.name == n && For(e, rd.repo, rd.pr)
    ensures RecordsFor(d, rd.repo, rd.pr) == {n}
    ensures Well(d[n := e]) && Touches(d, d[n := e], rd.repo, rd.pr)
  {
    OnlyRecord(d, rd, n);
    TouchOne(d, n, e, rd.repo, rd.pr);
    TouchedWell(d, d[n := e], rd.repo, rd.pr);
  }

  // Deleting the one extant environment.
  lemma DeleteOne(d: Table, k8s: set<string>, rd: Rd, f: Faults, n: string)
    requires Well(d) && !f(ReadExtant) && n in ExtantFor(d, rd.repo, rd.pr)
    ensures var d1 := if RevWritten(f) then d[n := d[n].(rev := rd.rev)] else d;
            DeleteIn(d, k8s, rd, f) == if Destroys(f, k8s, n) then d1[n := d1[n].(status := Destroyed)] else d1
  {
    OnlyRecord(d, rd, n);
    assert forall m :: m in d && m != n ==> m !in RecordsFor(d, rd.repo, rd.pr);
  }

  // Deleting without an extant environment.
  lemma DeleteNone(d: Table, k8s: set<string>, rd: Rd, f: Faults, n: string)
    requires ExtantFor(d, rd.repo, rd.pr) == {} && !f(ReadExtant) && n in d
    ensures DeleteIn(d, k8s, rd, f)[n]
            == if For(d[n], rd.repo, rd.pr) && !f(ListRecords) && !f(MarkDestroyed) then d[n].(status := Destroyed)
               else d[n]
  {
    assert n !in ExtantFor(d, rd.repo, rd.pr);
  }

  lemma DeleteNoneIs(d: Table, k8s: set<string>, rd: Rd, f: Faults, after: Table)
    requires ExtantFor(d, rd.repo, rd.pr) == {} && !f(ReadExtant) && after.Keys == d.Keys
    requires forall n :: n in d ==>
               after[n]
               == if For(d[n], rd.repo, rd.pr) && !f(ListRecords) && !f(MarkDestroyed) then d[n].(status := Destroyed)
                  else d[n]
    ensures after == DeleteIn(d, k8s, rd, f)
  {
    forall n | n in d
      ensures after[n] == DeleteIn(d, k8s, rd, f)[n]
    {
      DeleteNone(d, k8s, rd, f, n);
    }
  }

  // A delete touches no other pull request and keeps all but revision and status. One that reports no
  // error, and could mark records, leaves none undestroyed; one that does report one changes no status.
  ghost predicate DeleteMeans(d: Table, b: Table, rd: Rd, f: Faults, ok: bool) {
    && b.Keys == d.Keys
    && forall n :: n in d ==>
         if For(d[n], rd.repo, rd.pr)
         then b[n] == d[n].(rev := b[n].rev, status := b[n].status)
              && b[n].rev == (if !f(ReadExtant) && Extant(d[n].status) && RevWritten(f) then rd.rev else d[n].rev)
              && (b[n].status == d[n].status || b[n].status == Destroyed)
              && (ok && !f(MarkDestroyed) ==> b[n].status == Destroyed)
              && (!ok ==> b[n].status == d[n].status)
         else b[n] == d[n]
  }

  lemma DeleteIsMeant(d: Table, k8s: set<string>, rd: Rd, f: Faults, ok: bool)
    requires Well(d)
    requires ok <==> !f(ReadExtant) &&
                     if ExtantFor(d, rd.repo, rd.pr) == {} then !f(ListRecords)
                     else ExtantFor(d, rd.repo, rd.pr) <= k8s && !f(Cancelled) && !f(ReadK8s) && !f(MarkDestroyed)
    ensures DeleteMeans(d, DeleteIn(d, k8s, rd, f), rd, f, ok)
  {
    var b, xs := DeleteIn(d, k8s, rd, f), ExtantFor(d, rd.repo, rd.pr);
    forall n | n in d && For(d[n], rd.repo, rd.pr)
      ensures ok && !f(MarkDestroyed) ==> b[n].status == Destroyed
      ensures !ok ==> b[n].status == d[n].status
    {
      if Extant(d[n].status) {
        assert n in xs;
        OnlyRecord(d, rd, n);
        assert xs == {n};
      } else {
        OnlyRecord(d, rd, n);
        assert xs <= RecordsFor(d, rd.repo, rd.pr) && n !in xs;
        assert xs == {};
      }
    }
  }

  // An extant environment whose Kubernetes row is gone: the namespace of a delete that could not
  // mark the record has been removed. No delete destroys it any more.

  function Deletes(d: Table, k8s: set<string>, dels: seq<(Rd, Faults)>): Table {
    if dels == [] then d
    else DeleteIn(Deletes(d, k8s, dels[..|dels| - 1]), k8s, dels[|dels| - 1].0, dels[|dels| - 1].1)
  }

  lemma RowlessDelete(d: Table, k8s: set<string>, rd: Rd, f: Faults, n: string)
    requires Well(d) && n in d && Extant(d[n].status) && n !in k8s
    ensures var a := DeleteIn(d, k8s, rd, f); Well(a) && n in a && a[n].status == d[n].status
  {
    DeleteTouches(d, k8s, rd, f);
    assert TouchAt(d, DeleteIn(d, k8s, rd, f), rd.repo, rd.pr, n);
    if For(d[n], rd.repo, rd.pr) && !f(ReadExtant) {
      assert n in ExtantFor(d, rd.repo, rd.pr);
      DeleteOne(d, k8s, rd, f, n);
    }
  }

  lemma {:induction false} RowlessStays(d: Table, k8s: set<string>, dels: seq<(Rd, Faults)>, n: string)
    requires Well(d) && n in d && Extant(d[n].status) && n !in k8s
    ensures var a := Deletes(d, k8s, dels); Well(a) && n in a && a[n].status == d[n].status
  {
    if dels != [] {
      RowlessStays(d, k8s, dels[..|dels| - 1], n);
      RowlessDelete(Deletes(d, k8s, dels[..|dels| - 1]), k8s, dels[|dels| - 1].0, dels[|dels| - 1].1, n);
    }
  }

  // Destroying the oldest.

  function RdOf(e: Env): Rd {
    Rd(e.repo, e.pr, e.rev)
  }

  // Each victim is deleted by its repository and pull request; the deletes may fail.
  function DestroyAll(d: Table, k8s: set<string>, vs: seq<Env>, vf: string -> Faults): Table {
    if vs == [] then d
    else
      var e := vs[|vs| - 1];
      DeleteIn(DestroyAll(d, k8s, vs[..|vs| - 1], vf), k8s, RdOf(e), vf(e.name))
  }

  // Exactly the named records are deleted, each under its own name.
  function DeleteEach(d: Table, k8s: set<string>, names: set<string>, vf: string -> Faults): Table {
    map n | n in d :: if n in names then Deleted(d[n], k8s, d[n].rev, vf(n)) else d[n]
  }

  ghost predicate VictimAt(d: Table, vs: seq<Env>, i: nat) {
    i < |vs| && vs[i].name in d && vs[i] == d[vs[i].name]
  }

  ghost predicate Victims(d: Table, vs: seq<Env>) {
    DistinctNames(vs) && forall i :: 0 <= i < |vs| ==> VictimAt(d, vs, i)
  }

  lemma DeleteOneOfAt(d: Table, k8s: set<string>, names: set<string>, vf: string -> Faults, e: Env, n: string)
    requires Well(d) && n in d && e.name in d && e == d[e.name] && e.name !in names
    ensures DeleteIn(DeleteEach(d, k8s, names, vf), k8s, RdOf(e), vf(e.name))[n]
            == DeleteEach(d, k8s, names + {e.name}, vf)[n]
  {
    if n != e.name {
      assert !SameKey(d[n], d[e.name]);
    }
  }

  lemma DeleteOneOf(d: Table, k8s: set<string>, names: set<string>, vf: string -> Faults, e: Env)
    requires Well(d) && e.name in d && e == d[e.name] && e.name !in names
    ensures DeleteIn(DeleteEach(d, k8s, names, vf), k8s, RdOf(e), vf(e.name))
            == DeleteEach(d, k8s, names + {e.name}, vf)
  {
    forall n | n in d
      ensures DeleteIn(DeleteEach(d, k8s, names, vf), k8s, RdOf(e), vf(e.name))[n]
              == DeleteEach(d, k8s, names + {e.name}, vf)[n]
    {
      DeleteOneOfAt(d, k8s, names, vf, e, n);
    }
  }

  lemma EachWell(d: Table, k8s: set<string>, names: set<string>, vf: string -> Faults)
    requires Well(d)
    ensures Well(DeleteEach(d, k8s, names, vf))
  {
    var a := DeleteEach(d, k8s, names, vf);
    forall n, m | n in a && m in a && SameKey(a[n], a[m])
      ensures n == m
    {
      assert SameKey(d[n], d[m]);
    }
  }

  // Deletes by repository and pull request hit the intended records and no others.
  lemma {:induction false} DestroyAllIs(d: Table, k8s: set<string>, vs: seq<Env>, vf: string -> Faults)
    requires Well(d) && Victims(d, vs)
    ensures DestroyAll(d, k8s, vs, vf) == DeleteEach(d, k8s, NamesOf(vs), vf)
  {
    if vs == [] {
      assert DeleteEach(d, k8s, {}, vf) == d;
    } else {
      var before, e := vs[..|vs| - 1], vs[|vs| - 1];
      forall i | 0 <= i < |before|
        ensures VictimAt(d, before, i)
      {
        assert VictimAt(d, vs, i);
      }
      DestroyAllIs(d, k8s, before, vf);
      LastDiffers(vs);
      assert vs == before + [e] && VictimAt(d, vs, |vs| - 1);
      assert NamesOf(vs) == NamesOf(before) + {e.name};
      DeleteOneOf(d, k8s, NamesOf(before), vf, e);
    }
  }

  lemma {:induction false} DestroyAllWell(d: Table, k8s: set<string>, vs: seq<Env>, vf: string -> Faults)
    requires Well(d)
    ensures Well(DestroyAll(d, k8s, vs, vf)) && DestroyAll(d, k8s, vs, vf).Keys == d.Keys
  {
    if vs != [] {
      DestroyAllWell(d, k8s, vs[..|vs| - 1], vf);
      DeleteTouches(DestroyAll(d, k8s, vs[..|vs| - 1], vf), k8s, RdOf(vs[|vs| - 1]), vf(vs[|vs| - 1].name));
    }
  }

  // After how many of n victims the context is first found cancelled, or n if it never is.
  function FirstCancelled(f: Faults, n: nat): nat {
    if n == 0 then 0
    else
      var k := FirstCancelled(f, n - 1);
      if k < n - 1 || (k > 0 && f(LimitCancelled(k))) then k else n
  }

  lemma {:induction false} NotCancelled(f: Faults, n: nat)
    requires forall i :: 0 < i <= n ==> !f(LimitCancelled(i))
    ensures FirstCancelled(f, n) == n
  {
    if n > 0 {
      NotCancelled(f, n - 1);
    }
  }

  lemma {:induction false} CancelledAt(f: Faults, k: nat, n: nat)
    requires 0 < k <= n && f(LimitCancelled(k)) && forall i :: 0 < i < k ==> !f(LimitCancelled(i))
    ensures FirstCancelled(f, n) == k
  {
    if n == k {
      NotCancelled(f, n - 1);
    } else {
      CancelledAt(f, k, n - 1);
    }
  }

  // The global limit.

  // The environments that the limit makes victims of: so many of the oldest as are too many.
  ghost predicate Oldest(d: Table, all: seq<Env>, limit: nat, vs: seq<Env>) {
    && Listing(all, d, RunningNames(d)) && Sorted(all)
    && vs == if |all| > limit then all[..|all| - limit] else []
  }

  lemma OldestAreVictims(d: Table, all: seq<Env>, k: nat)
    requires Listing(all, d, RunningNames(d)) && k <= |all|
    ensures Victims(d, all[..k]) && NamesOf(all[..k]) <= RunningNames(d)
  {
    forall i | 0 <= i < k
      ensures VictimAt(d, all[..k], i) && all[..k][i].name in RunningNames(d)
    {
      assert ListedAt(all, d, RunningNames(d), i);
    }
    forall n | n in NamesOf(all[..k])
      ensures n in RunningNames(d)
    {
      var i :| 0 <= i < k && all[..k][i].name == n;
    }
  }

  function DestroyedOf(k8s: set<string>, names: set<string>, vf: string -> Faults): set<string> {
    set n | n in names && Destroys(vf(n), k8s, n)
  }

  lemma DeletedRunning(d: Table, k8s: set<string>, names: set<string>, vf: string -> Faults)
    requires names <= RunningNames(d) && Keyed(d)
    ensures RunningNames(DeleteEach(d, k8s, names, vf)) == RunningNames(d) - DestroyedOf(k8s, names, vf)
    ensures |RunningNames(DeleteEach(d, k8s, names, vf))| == |RunningNames(d)| - |DestroyedOf(k8s, names, vf)|
  {
    var gone := DestroyedOf(k8s, names, vf);
    assert RunningNames(d) == (RunningNames(d) - gone) + gone;
  }

  function Least(a: nat, b: nat): nat {
    if a < b then a else b
  }

  lemma AllDestroyed(k8s: set<string>, names: set<string>, vf: string -> Faults)
    ensures |DestroyedOf(k8s, names, vf)| <= |names|
    ensures |DestroyedOf(k8s, names, vf)| == |names| <==> forall n :: n in names ==> Destroys(vf(n), k8s, n)
  {
    SubsetSize(DestroyedOf(k8s, names, vf), names);
    if DestroyedOf(k8s, names, vf) == names {
      forall n | n in names
        ensures Destroys(vf(n), k8s, n)
      {
        assert n in DestroyedOf(k8s, names, vf);
      }
    }
  }

  lemma VictimCount(d: Table, all: seq<Env>, limit: nat, vs: seq<Env>)
    requires Oldest(d, all, limit, vs)
    ensures Victims(d, vs) && NamesOf(vs) <= RunningNames(d)
    ensures |NamesOf(vs)| == |RunningNames(d)| - Least(|RunningNames(d)|, limit)
  {
    ListingCount(all, d, RunningNames(d));
    OldestAreVictims(d, all, |vs|);
    assert vs == all[..|vs|];
    DistinctCount(vs);
  }

  // Afterwards exactly as many environments run as before or as the limit says, whichever is
  // less, if and only if every victim could be destroyed; otherwise more.
  lemma LimitMetIff(d: Table, k8s: set<string>, all: seq<Env>, limit: nat, vs: seq<Env>, vf: string -> Faults)
    requires Well(d) && Oldest(d, all, limit, vs)
    ensures |RunningNames(DestroyAll(d, k8s, vs, vf))| >= Least(|RunningNames(d)|, limit)
    ensures |RunningNames(DestroyAll(d, k8s, vs, vf))| == Least(|RunningNames(d)|, limit)
            <==> forall n :: n in NamesOf(vs) ==> Destroys(vf(n), k8s, n)
  {
    VictimCount(d, all, limit, vs);
    DestroyAllIs(d, k8s, vs, vf);
    DeletedRunning(d, k8s, NamesOf(vs), vf);
    AllDestroyed(k8s, NamesOf(vs), vf);
  }

  // No victim is newer than an environment that is spared, and one that is newer than all others
  // is always spared, if the limit leaves any.
  lemma VictimsAreOldest(d: Table, all: seq<Env>, limit: nat, vs: seq<Env>, n: string)
    requires Oldest(d, all, limit, vs) && n in RunningNames(d)
    ensures n !in NamesOf(vs) ==> forall v :: v in vs ==> v.created <= d[n].created
    ensures limit > 0 && (forall m :: m in RunningNames(d) && m != n ==> d[m].created < d[n].created) ==>
            n !in NamesOf(vs)
  {
    assert Named(all, n);
    var i :| 0 <= i < |all| && all[i].name == n;
    assert ListedAt(all, d, RunningNames(d), i);
    if |all| > limit {
      var k := |all| - limit;
      if i >= k {
        assert forall v :: v in vs ==> exists j :: 0 <= j < k && all[j] == v;
        forall j | 0 <= j < k
          ensures all[j].name != n
        {
        }
      } else {
        assert vs[i].name == n && vs[i] in vs;
        if limit > 0 {
          var last := all[|all| - 1];
          assert ListedAt(all, d, RunningNames(d), |all| - 1);
          assert last.created >= all[i].created && last.name != n;
        }
      }
    }
  }

  // After the limit has been enforced on behalf of the newest environment n, that one still runs,
  // and with it no more than the limit allows.
  lemma LimitWithNewest(d: Table, k8s: set<string>, all: seq<Env>, limit: nat, vs: seq<Env>, vf: string -> Faults,
                        n: string)
    requires Well(d) && Oldest(d, all, limit, vs) && limit > 0 && n in RunningNames(d)
    requires Newest(d, n) && OthersDestroyable(d, k8s, vf, n)
    ensures n in RunningNames(DestroyAll(d, k8s, vs, vf)) && |RunningNames(DestroyAll(d, k8s, vs, vf))| <= limit
  {
    VictimsAreOldest(d, all, limit, vs, n);
    LimitMetIff(d, k8s, all, limit, vs, vf);
    VictimCount(d, all, limit, vs);
    DestroyAllIs(d, k8s, vs, vf);
  }

  ghost predicate Newest(d: Table, n: string) {
    n in d && forall m :: m in RunningNames(d) && m != n ==> d[m].created < d[n].created
  }

  ghost predicate OthersDestroyable(d: Table, k8s: set<string>, vf: string -> Faults, n: string) {
    forall m :: m in RunningNames(d) && m != n ==> Destroys(vf(m), k8s, m)
  }

  // Installing.

  predicate Installs(n: string, k8s: set<string>, f: Faults) {
    && !f(K8sClient) && !f(Namespace) && !f(ReadK8sRow) && (n in k8s ==> !f(DropK8sRow))
    && !f(EncodeConfig) && !f(WriteK8sRow) && n != "" && !f(Deploy)
  }

  function MarkUnless(fault: bool, d: Table, n: string, s: Status): Table {
    if fault then d else SetStatus(d, n, s)
  }

  function FinishedIn(d: Table, n: string, f: Faults, ok: bool): Table {
    if ok then MarkUnless(f(MarkInstalled), d, n, Success) else MarkUnless(f(MarkNotInstalled), d, n, Failure)
  }

  // The status after installing; nothing is written before there is a namespace.
  function InstalledIn(d: Table, n: string, f: Faults, ok: bool): Table {
    if f(K8sClient) || f(Namespace) then d else FinishedIn(d, n, f, ok)
  }

  function UpgradedIn(d: Table, n: string, f: Faults, ok: bool): Table {
    if f(K8sClient) then d else FinishedIn(MarkUnless(f(MarkUpdating), d, n, Updating), n, f, ok)
  }

  lemma StatusWell(d: Table, n: string, s: Status)
    requires Well(d)
    ensures Well(SetStatus(d, n, s)) && SetStatus(d, n, s).Keys == d.Keys
    ensures n in d ==> SameKey(SetStatus(d, n, s)[n], d[n])
  {
    if n in d {
      var e := d[n].(status := s);
      TouchOne(d, n, e, e.repo, e.pr);
      TouchedWell(d, d[n := e], e.repo, e.pr);
    }
  }

  lemma FinishedWell(d: Table, n: string, f: Faults, ok: bool)
    requires Well(d) && n in d
    ensures Well(FinishedIn(d, n, f, ok)) && FinishedIn(d, n, f, ok).Keys == d.Keys
    ensures SameKey(FinishedIn(d, n, f, ok)[n], d[n])
    ensures ok && n in RunningNames(d) ==> RunningNames(FinishedIn(d, n, f, ok)) == RunningNames(d)
    ensures ok && !f(MarkInstalled) ==> FinishedIn(d, n, f, ok)[n].status == Success
  {
    StatusWell(d, n, if ok then Success else Failure);
  }

  lemma UpgradedWell(d: Table, n: string, f: Faults, ok: bool)
    requires Well(d) && n in d
    ensures Well(UpgradedIn(d, n, f, ok)) && UpgradedIn(d, n, f, ok).Keys == d.Keys
    ensures SameKey(UpgradedIn(d, n, f, ok)[n], d[n])
    ensures ok && !f(MarkInstalled) && !f(K8sClient) ==> UpgradedIn(d, n, f, ok)[n].status == Success
  {
    StatusWell(d, n, Updating);
    FinishedWell(MarkUnless(f(MarkUpdating), d, n, Updating), n, f, ok);
  }

  lemma RevWell(d: Table, n: string, rev: string)
    requires Well(d) && n in d
    ensures Well(d[n := d[n].(rev := rev)]) && RunningNames(d[n := d[n].(rev := rev)]) == RunningNames(d)
  {
    var e := d[n].(rev := rev);
    TouchOne(d, n, e, e.repo, e.pr);
    TouchedWell(d, d[n := e], e.repo, e.pr);
  }

  lemma {:induction false} KeyKept(d: Table, k8s: set<string>, vs: seq<Env>, vf: string -> Faults, n: string)
    requires n in d
    ensures n in DestroyAll(d, k8s, vs, vf) && SameKey(DestroyAll(d, k8s, vs, vf)[n], d[n])
  {
    if vs != [] {
      KeyKept(d, k8s, vs[..|vs| - 1], vf, n);
    }
  }

  // The Kubernetes rows after writing the one of n: an old one goes first.
  function RowWritten(k8s: set<string>, n: string, f: Faults): set<string> {
    if f(ReadK8sRow) || (n in k8s && f(DropK8sRow)) then k8s
    else if f(EncodeConfig) || f(WriteK8sRow) || n == "" then k8s - {n}
    else k8s + {n}
  }

  function RowsInstalled(k8s: set<string>, n: string, f: Faults): set<string> {
    if f(K8sClient) || f(Namespace) then k8s else RowWritten(k8s, n, f)
  }

  // A record once its configuration has been processed.
  function Revised(d: Table, n: string, rd: Rd, f: Faults): Table
    requires n in d
  {
    if RevWritten(f) then d[n := d[n].(rev := rd.rev)] else d
  }

  // What an operation on the environment n leaves as its status, if it could mark it.
  ghost predicate MarkedAs(s: Status, ok: bool, f: Faults) {
    && (ok && !f(MarkInstalled) ==> s == Success)
    && (!ok && !f(MarkFailure) ==> s == Failure)
  }

  // Updating.

  // An update ends without an error if and only if nothing that it calls fails, and there was a row.
  predicate UpdateWorks(n: string, inPlace: bool, k8s: set<string>, f: Faults) {
    && ConfigDone(f) && !f(ReadK8s) && n in k8s && !f(Cancelled) && !f(FetchCharts)
    && if inPlace then !f(ReadReleases) && !f(K8sClient) && !f(Deploy) else Installs(n, k8s, f)
  }

  // From the table d and the rows k8s an update of n leads to b and rows: nothing changes but the
  // revision and the status of its record, and, unless it is upgraded in place, its row.
  ghost predicate UpdateDone(d: Table, k8s: set<string>, n: string, rd: Rd, inPlace: bool, f: Faults, ok: bool,
                             b: Table, rows: set<string>)
    requires n in d
  {
    && n in b
    && b == d[n := d[n].(rev := if RevWritten(f) then rd.rev else d[n].rev, status := b[n].status)]
    && (ok <==> UpdateWorks(n, inPlace, k8s, f))
    && MarkedAs(b[n].status, ok, f)
    && (ok && f(MarkInstalled) ==> b[n].status == if inPlace && !f(MarkUpdating) then Updating else d[n].status)
    && (!ok && f(MarkFailure) ==> b[n].status in {d[n].status, Updating, Failure})
    && (inPlace ==> rows == k8s)
    && (ok && !inPlace ==> rows == RowsInstalled(k8s, n, f) == k8s + {n})
    && (!ok ==> rows == k8s || rows == RowsInstalled(k8s, n, f))
  }

  // Creating.

  // A record for the event can be had.
  ghost predicate CanGenerate(d: Table, rd: Rd, f: Faults) {
    && !f(ListRecords)
    && if RecordsFor(d, rd.repo, rd.pr) == {} then !f(GenerateName) && !f(WriteRecord)
       else !f(MarkSpawned) && !f(WriteRepoData) && !f(WriteCreated) && !f(Reread)
  }

  // Enforcing the limit leads from d to b, and succeeds or not.
  ghost predicate LimitLeads(d: Table, k8s: set<string>, all: seq<Env>, limit: nat, vs: seq<Env>, f: Faults,
                             vf: string -> Faults, b: Table, ok: bool) {
    && Oldest(d, all, limit, vs)
    && FirstCancelled(f, |vs|) <= |vs| && b == DestroyAll(d, k8s, vs[..FirstCancelled(f, |vs|)], vf)
    && (ok <==> forall i :: 0 < i <= |vs| ==> !f(LimitCancelled(i)))
  }

  ghost predicate LimitDone(d: Table, k8s: set<string>, limit: nat, f: Faults, vf: string -> Faults, b: Table,
                            ok: bool) {
    if limit == 0 then b == d && ok
    else if f(ReadRunning) then b == d && !ok
    else exists all, vs :: LimitLeads(d, k8s, all, limit, vs, f, vf, b, ok)
  }

  // Everything before the installation: the configuration, the charts and the limit.
  ghost predicate Prepared(d: Table, k8s: set<string>, limit: nat, f: Faults, vf: string -> Faults, b: Table,
                           ok: bool) {
    if !ConfigDone(f) || f(Cancelled) || f(FetchCharts) then b == d && !ok else LimitDone(d, k8s, limit, f, vf, b, ok)
  }

  // From the table d with the new record, and the rows k8s, creating n leads to b and rows: of the
  // others only those that the limit makes victims of are touched; t is the table with them deleted.
  ghost predicate CreateLeads(d: Table, k8s: set<string>, n: string, limit: nat, f: Faults, vf: string -> Faults,
                              ok: bool, b: Table, rows: set<string>, t: Table, prepared: bool) {
    && Prepared(d, k8s, limit, f, vf, t, prepared)
    && n in t && n in b && b == t[n := t[n].(status := b[n].status)]
    && (ok <==> prepared && Installs(n, k8s, f))
    && MarkedAs(b[n].status, ok, f)
    && (ok && f(MarkInstalled) ==> b[n].status == t[n].status)
    && (!ok && f(MarkFailure) ==> b[n].status in {t[n].status, Failure})
    && rows == if prepared then RowsInstalled(k8s, n, f) else k8s
  }

  ghost predicate CreateEnds(d: Table, k8s: set<string>, n: string, limit: nat, f: Faults, vf: string -> Faults,
                             ok: bool, b: Table, rows: set<string>) {
    exists t, prepared :: CreateLeads(d, k8s, n, limit, f, vf, ok, b, rows, t, prepared)
  }

  lemma CreateEnded(d: Table, k8s: set<string>, n: string, limit: nat, f: Faults, vf: string -> Faults, ok: bool,
                    t: Table, prepared: bool)
    requires Prepared(d, k8s, limit, f, vf, t, prepared) && n in t && (ok <==> prepared && Installs(n, k8s, f))
    ensures var c := if prepared then InstalledIn(t, n, f, ok) else t;
            var b := if ok then c else MarkUnless(f(MarkFailure), c, n, Failure);
            CreateEnds(d, k8s, n, limit, f, vf, ok, b, if prepared then RowsInstalled(k8s, n, f) else k8s)
  {
    var c := if prepared then InstalledIn(t, n, f, ok) else t;
    var b := if ok then c else MarkUnless(f(MarkFailure), c, n, Failure);
    var rows := if prepared then RowsInstalled(k8s, n, f) else k8s;
    assert CreateLeads(d, k8s, n, limit, f, vf, ok, b, rows, t, prepared);
  }

  // From d, creating an environment for an event leads to b: either no record could be had, or one
  // with the data of the event and the time, under the name it has already or the generated one.
  ghost predicate CreateDone(d: Table, k8s: set<string>, limit: nat, rd: Rd, name: string, now: int, f: Faults,
                             vf: string -> Faults, r: Option<string>, ok: bool, b: Table, rows: set<string>) {
    && (r.Some? <==> CanGenerate(d, rd, f))
    && (r.None? ==> !ok && rows == k8s && Touches(d, b, rd.repo, rd.pr) && b.Keys == d.Keys)
    && (r.Some? ==>
          && RecordsFor(d, rd.repo, rd.pr) == (if r.value == name then {} else {r.value})
          && var made := d[r.value := Env(r.value, rd.repo, rd.pr, Spawned, now, rd.rev)];
             CreateEnds(made, k8s, r.value, limit, f, vf, ok, b, rows))
  }

  // What enforcing the limit changes: the status of environments which ran, to destroyed, if more ran
  // than it allows.
  ghost predicate OnlyDestroyed(d: Table, limit: nat, t: Table, m: string)
    requires m in d
  {
    && m in t && t[m] == d[m].(status := t[m].status)
    && (t[m] != d[m] ==> t[m].status == Destroyed && Running(d[m].status) && 0 < limit < |RunningNames(d)|)
  }

  lemma LimitTouches(d: Table, k8s: set<string>, all: seq<Env>, limit: nat, vs: seq<Env>, f: Faults,
                     vf: string -> Faults, t: Table, ok: bool, m: string)
    requires Well(d) && m in d && limit > 0 && LimitLeads(d, k8s, all, limit, vs, f, vf, t, ok)
    ensures OnlyDestroyed(d, limit, t, m) && t.Keys == d.Keys
  {
    var k := FirstCancelled(f, |vs|);
    assert vs[..k] == all[..k];
    ListingCount(all, d, RunningNames(d));
    OldestAreVictims(d, all, k);
    DestroyAllIs(d, k8s, all[..k], vf);
    assert DestroyAll(d, k8s, all[..k], vf) == DeleteEach(d, k8s, NamesOf(all[..k]), vf);
    assert m in NamesOf(all[..k]) ==> m in RunningNames(d) && |all| > limit;
  }

  lemma PreparingTouches(d: Table, k8s: set<string>, limit: nat, f: Faults, vf: string -> Faults, t: Table, ok: bool,
                         m: string)
    requires Well(d) && m in d && Prepared(d, k8s, limit, f, vf, t, ok)
    ensures OnlyDestroyed(d, limit, t, m) && t.Keys == d.Keys
  {
    if t != d {
      var all, vs :| LimitLeads(d, k8s, all, limit, vs, f, vf, t, ok);
      LimitTouches(d, k8s, all, limit, vs, f, vf, t, ok, m);
    }
  }

  // What creating n changes, beside that: the status of its own record.
  lemma CreateTouches(d: Table, k8s: set<string>, n: string, limit: nat, f: Faults, vf: string -> Faults, ok: bool,
                      b: Table, rows: set<string>, m: string)
    requires Well(d) && n in d && m in d && CreateEnds(d, k8s, n, limit, f, vf, ok, b, rows)
    ensures b.Keys == d.Keys && b[m] == d[m].(status := b[m].status)
    ensures m != n ==> OnlyDestroyed(d, limit, b, m)
  {
    var t, prepared :| CreateLeads(d, k8s, n, limit, f, vf, ok, b, rows, t, prepared);
    PreparingTouches(d, k8s, limit, f, vf, t, prepared, m);
  }
}
