/**
  The data layer that keeps environment records by name, and what is meant by a
  well-kept store: one record for each repository and pull request.
  */
module EnvStore {

  datatype Status = UnknownStatus | Spawned | Success | Failure | Destroyed | Updating

  // `rev` stands for the SHAs, branches and user of a revision.
  datatype Env = Env(name: string, repo: string, pr: nat, status: Status, created: int, rev: string)

  // Repository, pull request and revision data of an event.
  datatype Rd = Rd(repo: string, pr: nat, rev: string)

  type Table = map<string, Env>

  predicate Extant(s: Status) {
    s != Destroyed && s != Failure
  }

  predicate Running(s: Status) {
    s == Success || s == Spawned || s == Updating
  }

  predicate For(e: Env, repo: string, pr: nat) {
    e.repo == repo && e.pr == pr
  }

  predicate SameKey(e: Env, f: Env) {
    For(e, f.repo, f.pr)
  }

  // Records are stored under their names, at most one for each (repository, pull request).
  ghost predicate Keyed(d: Table) {
    forall n :: n in d ==> d[n].name == n
  }

  ghost predicate OneEach(d: Table) {
    forall n, m :: n in d && m in d && SameKey(d[n], d[m]) ==> n == m
  }

  ghost predicate Well(d: Table) {
    Keyed(d) && OneEach(d)
  }

  // Listings of records.

  predicate Named(out: seq<Env>, n: string) {
    exists i :: 0 <= i < |out| && out[i].name == n
  }

  ghost predicate ListedAt(out: seq<Env>, d: Table, ns: set<string>, i: nat) {
    i < |out| && out[i].name in ns && out[i].name in d && out[i] == d[out[i].name]
  }

  ghost predicate DistinctNames(out: seq<Env>) {
    forall i, j :: 0 <= i < j < |out| ==> out[i].name != out[j].name
  }

  // The records of the names ns, each once.
  ghost predicate Listing(out: seq<Env>, d: Table, ns: set<string>) {
    && (forall i :: 0 <= i < |out| ==> ListedAt(out, d, ns, i))
    && DistinctNames(out)
    && forall n :: n in ns ==> Named(out, n)
  }

  function NamesOf(out: seq<Env>): set<string> {
    set e | e in out :: e.name
  }

  lemma LastDiffers(out: seq<Env>)
    requires DistinctNames(out) && out != []
    ensures forall e :: e in out[..|out| - 1] ==> e.name != out[|out| - 1].name
  {
    forall e | e in out[..|out| - 1]
      ensures e.name != out[|out| - 1].name
    {
      var i :| 0 <= i < |out| - 1 && out[..|out| - 1][i] == e;
      assert out[i].name != out[|out| - 1].name;
    }
  }

  lemma {:induction false} DistinctCount(out: seq<Env>)
    requires DistinctNames(out)
    ensures |NamesOf(out)| == |out|
  {
    if out != [] {
      var k := |out| - 1;
      var before := out[..k];
      DistinctCount(before);
      assert out == before + [out[k]];
      assert NamesOf(out) == NamesOf(before) + {out[k].name};
      LastDiffers(out);
    }
  }

  lemma ListingCount(out: seq<Env>, d: Table, ns: set<string>)
    requires Listing(out, d, ns)
    ensures NamesOf(out) == ns && |out| == |ns|
  {
    forall n | n in NamesOf(out)
      ensures n in ns
    {
      var i :| 0 <= i < |out| && out[i].name == n;
      assert ListedAt(out, d, ns, i);
    }
    forall n | n in ns
      ensures n in NamesOf(out)
    {
      assert Named(out, n);
    }
    DistinctCount(out);
  }

  lemma ListMore(out: seq<Env>, d: Table, ns: set<string>, n: string)
    requires Listing(out, d, ns) && Keyed(d) && n in d && n !in ns
    ensures Listing(out + [d[n]], d, ns + {n})
  {
    var more := out + [d[n]];
    forall i | 0 <= i < |more|
      ensures ListedAt(more, d, ns + {n}, i)
    {
      assert i < |out| ==> ListedAt(out, d, ns, i);
    }
    forall i, j | 0 <= i < j < |more|
      ensures more[i].name != more[j].name
    {
      assert ListedAt(out, d, ns, i);
    }
    forall m | m in ns + {n}
      ensures Named(more, m)
    {
      if m in ns {
        assert Named(out, m);
        var i :| 0 <= i < |out| && out[i].name == m;
        assert more[i].name == m;
      } else {
        assert more[|out|].name == m;
      }
    }
  }

  lemma ListJoin(a: seq<Env>, ns: set<string>, b: seq<Env>, ms: set<string>, d: Table)
    requires Listing(a, d, ns) && Listing(b, d, ms) && ns !! ms
    ensures Listing(a + b, d, ns + ms)
  {
    forall i | 0 <= i < |a + b|
      ensures ListedAt(a + b, d, ns + ms, i)
    {
      assert if i < |a| then ListedAt(a, d, ns, i) else ListedAt(b, d, ms, i - |a|);
    }
    forall i, j | 0 <= i < j < |a + b|
      ensures (a + b)[i].name != (a + b)[j].name
    {
      if i < |a| <= j {
        assert ListedAt(a, d, ns, i) && ListedAt(b, d, ms, j - |a|);
      }
    }
    forall n | n in ns + ms
      ensures Named(a + b, n)
    {
      if n in ns {
        assert Named(a, n);
        var i :| 0 <= i < |a| && a[i].name == n;
        assert (a + b)[i].name == n;
      } else {
        assert Named(b, n);
        var i :| 0 <= i < |b| && b[i].name == n;
        assert (a + b)[|a| + i].name == n;
      }
    }
  }

  // Sorting by creation time; records of the same time come in any order.

  ghost predicate Sorted(out: seq<Env>) {
    forall i, j :: 0 <= i < j < |out| ==> out[i].created <= out[j].created
  }

  function Insert(e: Env, out: seq<Env>): seq<Env> {
    if out == [] then [e]
    else if out[0].created < e.created then [out[0]] + Insert(e, out[1..])
    else [e] + out
  }

  function SortByCreated(out: seq<Env>): seq<Env> {
    if out == [] then [] else Insert(out[0], SortByCreated(out[1..]))
  }

  lemma SortedFrom(x: Env, out: seq<Env>)
    ensures Sorted(out) && (forall y :: y in out ==> x.created <= y.created) ==> Sorted([x] + out)
  {
  }

  lemma {:induction false} InsertMembers(e: Env, out: seq<Env>)
    ensures multiset(Insert(e, out)) == multiset(out) + multiset{e}
    ensures forall x :: x in Insert(e, out) ==> x == e || x in out
  {
    if out != [] && out[0].created < e.created {
      InsertMembers(e, out[1..]);
      assert out == [out[0]] + out[1..];
    }
  }

  lemma {:induction false} InsertSorts(e: Env, out: seq<Env>)
    requires Sorted(out)
    ensures Sorted(Insert(e, out))
  {
    if out != [] {
      assert forall y :: y in out ==> out[0].created <= y.created;
      if out[0].created < e.created {
        InsertSorts(e, out[1..]);
        InsertMembers(e, out[1..]);
        SortedFrom(out[0], Insert(e, out[1..]));
      } else {
        SortedFrom(e, out);
      }
    }
  }

  lemma {:induction false} SortSorts(out: seq<Env>)
    ensures Sorted(SortByCreated(out)) && multiset(SortByCreated(out)) == multiset(out)
  {
    if out != [] {
      SortSorts(out[1..]);
      InsertSorts(out[0], SortByCreated(out[1..]));
      InsertMembers(out[0], SortByCreated(out[1..]));
      assert out == [out[0]] + out[1..];
    }
  }

  lemma {:induction false} CountOne(out: seq<Env>, i: nat, j: nat)
    requires i < j < |out| && out[i] == out[j]
    ensures multiset(out)[out[i]] >= 2
  {
    assert out == out[..j] + [out[j]] + out[j + 1..];
    assert out[i] in out[..j];
  }

  lemma SortedListing(a: seq<Env>, b: seq<Env>, d: Table, ns: set<string>)
    requires Listing(a, d, ns) && multiset(a) == multiset(b)
    ensures Listing(b, d, ns)
  {
    assert forall e :: e in a <==> e in multiset(a);
    assert forall e :: e in b <==> e in multiset(b);
    forall i | 0 <= i < |b|
      ensures ListedAt(b, d, ns, i)
    {
      assert b[i] in a;
      var k :| 0 <= k < |a| && a[k] == b[i];
      assert ListedAt(a, d, ns, k);
    }
    forall n | n in ns
      ensures Named(b, n)
    {
      assert Named(a, n);
      var i :| 0 <= i < |a| && a[i].name == n;
      assert a[i] in b;
      var k :| 0 <= k < |b| && b[k] == a[i];
    }
    forall i, j | 0 <= i < j < |b|
      ensures b[i].name != b[j].name
    {
      if b[i].name == b[j].name {
        assert ListedAt(b, d, ns, i) && ListedAt(b, d, ns, j);
        CountOne(b, i, j);
        Once(a, b[i]);
      }
    }
  }

  lemma {:induction false} Once(a: seq<Env>, e: Env)
    requires DistinctNames(a)
    ensures multiset(a)[e] <= 1
  {
    if a != [] {
      var k := |a| - 1;
      Once(a[..k], e);
      assert a == a[..k] + [a[k]];
      LastDiffers(a);
    }
  }

  // The names among ns whose records pass the filter.
  function Kept(d: Table, ns: set<string>, keep: Env -> bool): set<string> {
    set n | n in ns && n in d && keep(d[n])
  }

  lemma KeptMore(d: Table, ns: set<string>, keep: Env -> bool, n: string)
    ensures n in d && n !in ns ==>
              Kept(d, ns + {n}, keep) == if keep(d[n]) then Kept(d, ns, keep) + {n} else Kept(d, ns, keep)
  {
  }

  // The store.

  class DataLayer {
    var d: Table
    var k8s: set<string>  // names with a Kubernetes row

    constructor ()
      ensures d == map[] && k8s == {}
    {
      d, k8s := map[], {};
    }

    // The filter loops over the records.
    method Select(keep: Env -> bool) returns (out: seq<Env>)
      requires Keyed(d)
      ensures Listing(out, d, Kept(d, d.Keys, keep))
    {
      out := [];
      var rest := d.Keys;
      ghost var seen: set<string> := {};
      while rest != {}
        invariant seen + rest == d.Keys && seen !! rest
        invariant Listing(out, d, Kept(d, seen, keep))
        decreases rest
      {
        var n :| n in rest;
        KeptMore(d, seen, keep, n);
        if keep(d[n]) {
          ListMore(out, d, Kept(d, seen, keep), n);
          out := out + [d[n]];
        }
        rest, seen := rest - {n}, seen + {n};
      }
      assert seen == d.Keys;
    }

    method GetQAEnvironments() returns (out: seq<Env>)
      requires Keyed(d)
      ensures Listing(out, d, d.Keys)
    {
      var keep := (e: Env) => true;
      out := Select(keep);
      assert Kept(d, d.Keys, keep) == d.Keys;
    }

    method GetQAEnvironmentsByRepoAndPR(repo: string, pr: nat) returns (out: seq<Env>)
      requires Keyed(d)
      ensures Listing(out, d, RecordsFor(d, repo, pr))
    {
      var keep := (e: Env) => For(e, repo, pr);
      out := Select(keep);
      assert Kept(d, d.Keys, keep) == RecordsFor(d, repo, pr);
    }

    method GetExtantQAEnvironments(repo: string, pr: nat) returns (out: seq<Env>)
      requires Keyed(d)
      ensures Listing(out, d, ExtantFor(d, repo, pr))
      ensures NamesOf(out)
              == set n | n in d && d[n].repo == repo && d[n].pr == pr && d[n].status !in {Destroyed, Failure}
    {
      var keep := (e: Env) => For(e, repo, pr) && Extant(e.status);
      out := Select(keep);
      assert Kept(d, d.Keys, keep) == ExtantFor(d, repo, pr);
      ListingCount(out, d, ExtantFor(d, repo, pr));
    }

    method GetQAEnvironmentsByStatus(s: Status) returns (out: seq<Env>)
      requires Keyed(d)
      ensures Listing(out, d, WithStatus(d, s))
    {
      var keep := (e: Env) => e.status == s;
      out := Select(keep);
      assert Kept(d, d.Keys, keep) == WithStatus(d, s);
    }

    method GetRunningQAEnvironments() returns (out: seq<Env>)
      requires Keyed(d)
      ensures Listing(out, d, RunningNames(d)) && Sorted(out)
      ensures NamesOf(out) == set n | n in d && d[n].status in {Success, Spawned, Updating}
    {
      var all := ListRunning();
      SortSorts(all);
      out := SortByCreated(all);
      SortedListing(all, out, d, RunningNames(d));
      ListingCount(out, d, RunningNames(d));
    }

    // The records of each of the three states.
    method ListRunning() returns (all: seq<Env>)
      requires Keyed(d)
      ensures Listing(all, d, RunningNames(d))
    {
      var out1 := GetQAEnvironmentsByStatus(Success);
      var out2 := GetQAEnvironmentsByStatus(Spawned);
      var out3 := GetQAEnvironmentsByStatus(Updating);
      ListJoin(out2, WithStatus(d, Spawned), out3, WithStatus(d, Updating), d);
      ListJoin(out1, WithStatus(d, Success), out2 + out3, WithStatus(d, Spawned) + WithStatus(d, Updating), d);
      assert WithStatus(d, Success) + (WithStatus(d, Spawned) + WithStatus(d, Updating)) == RunningNames(d);
      all := out1 + (out2 + out3);
    }

    method CreateQAEnvironment(e: Env)
      modifies `d
      ensures d == old(d)[e.name := e]
    {
      d := d[e.name := e];
    }

    method SetQAEnvironmentStatus(name: string, s: Status) returns (ok: bool)
      modifies `d
      ensures ok <==> name in old(d)
      ensures d == SetStatus(old(d), name, s)
    {
      if name !in d {
        return false;
      }
      d := d[name := d[name].(status := s)];
      ok := true;
    }

    method SetQAEnvironmentRepoData(name: string, rd: Rd) returns (ok: bool)
      modifies `d
      ensures ok <==> name in old(d)
      ensures d == if name in old(d) then old(d)[name := old(d)[name].(repo := rd.repo, pr := rd.pr, rev := rd.rev)]
                   else old(d)
    {
      if name !in d {
        return false;
      }
      d := d[name := d[name].(repo := rd.repo, pr := rd.pr, rev := rd.rev)];
      ok := true;
    }

    method SetQAEnvironmentCreated(name: string, ts: int) returns (ok: bool)
      modifies `d
      ensures ok <==> name in old(d)
      ensures d == if name in old(d) then old(d)[name := old(d)[name].(created := ts)] else old(d)
    {
      if name !in d {
        return false;
      }
      d := d[name := d[name].(created := ts)];
      ok := true;
    }

    // Only a destroyed environment's record is deleted, with its rows.
    method DeleteQAEnvironment(name: string) returns (ok: bool)
      modifies this
      ensures ok <==> name in old(d) && old(d)[name].status == Destroyed
      ensures d == if ok then old(d) - {name} else old(d)
      ensures k8s == if ok then old(k8s) - {name} else old(k8s)
    {
      if name !in d || d[name].status != Destroyed {
        return false;
      }
      d := d - {name};
      k8s := k8s - {name};
      ok := true;
    }

    method CreateK8sEnv(name: string) returns (ok: bool)
      modifies `k8s
      ensures ok <==> name != "" && name in d
      ensures k8s == if ok then old(k8s) + {name} else old(k8s)
    {
      if name == "" || name !in d {
        return false;
      }
      k8s := k8s + {name};
      ok := true;
    }

    method DeleteK8sEnv(name: string)
      modifies `k8s
      ensures k8s == old(k8s) - {name}
    {
      k8s := k8s - {name};
    }
  }

  function RecordsFor(d: Table, repo: string, pr: nat): set<string> {
    set n | n in d && For(d[n], repo, pr)
  }

  function ExtantFor(d: Table, repo: string, pr: nat): set<string> {
    set n | n in d && For(d[n], repo, pr) && Extant(d[n].status)
  }

  function WithStatus(d: Table, s: Status): set<string> {
    set n | n in d && d[n].status == s
  }

  function RunningNames(d: Table): set<string> {
    set n | n in d && Running(d[n].status)
  }

  function SetStatus(d: Table, name: string, s: Status): Table {
    if name in d then d[name := d[name].(status := s)] else d
  }
}
