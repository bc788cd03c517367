/** The lock data: for each repository of the settings, under its apps key,
    the records its declarations resolve to. */
module LockManifest {

  import opened Wrappers
  import opened Sequences
  import opened RepositoryIndex
  import opened LockResolver
  import opened Dictionary

  /** One repository of the settings. */
  datatype Repository = Repository(name: string, baseUrl: string, appsKey: string)

  /** The parts of the definition settings the lock step reads: the
      repositories, and the app list stored under each apps key. */
  datatype Settings = Settings(repositories: seq<Repository>, apps: map<string, seq<Declaration>>)

  /** The lock data: under each apps key, the records of that repository. */
  type LockData = Dict<seq<Record>>

  /** The records of one repository, or `None` when the run stops with an
      error. The cached index is kept per apps key; when there is none, only
      an empty app list gets through, since the loop never reads the index. */
  function ResolveRepository(repo: Repository, ds: seq<Declaration>, indexes: map<string, Index>,
                             forceLatest: bool): Option<seq<Record>>
  {
    if repo.appsKey in indexes then
      Some(ResolveAll(Resolver(Context(indexes[repo.appsKey], repo.baseUrl, forceLatest, FirstPackagePosition)), ds))
    else if ds == [] then Some([])
    else None
  }

  /** What one step of the loop over the repositories yields: `None` when
      the repository's app list is missing from the settings (a key error)
      or its resolution fails. */
  function Outcome(repo: Repository, settings: Settings, indexes: map<string, Index>,
                   forceLatest: bool): Option<seq<Record>>
  {
    if repo.appsKey in settings.apps then
      ResolveRepository(repo, settings.apps[repo.appsKey], indexes, forceLatest)
    else None
  }

  function RepositoryKeys(repos: seq<Repository>): seq<string> {
    seq(|repos|, i requires 0 <= i < |repos| => repos[i].appsKey)
  }

  function Outcomes(settings: Settings, indexes: map<string, Index>, forceLatest: bool)
    : seq<Option<seq<Record>>>
  {
    seq(|settings.repositories|, i requires 0 <= i < |settings.repositories| =>
      Outcome(settings.repositories[i], settings, indexes, forceLatest))
  }

  /** The lock data the loop builds from `lock` on, given each step's key
      and outcome: it stops at the first failed step. */
  function FoldLock(keys: seq<string>, outs: seq<Option<seq<Record>>>, lock: LockData): Option<LockData>
    requires |keys| == |outs|
    decreases |keys|
  {
    if keys == [] then Some(lock)
    else match outs[0]
      case None => None
      case Some(records) => FoldLock(keys[1..], outs[1..], Put(lock, keys[0], records))
  }

  /** The lock data of the definition, built from scratch. */
  function AssembleLock(settings: Settings, indexes: map<string, Index>, forceLatest: bool): Option<LockData> {
    FoldLock(RepositoryKeys(settings.repositories), Outcomes(settings, indexes, forceLatest), [])
  }

  /** The fold fails iff some step fails. */
  lemma {:induction false} FoldLockFails(keys: seq<string>, outs: seq<Option<seq<Record>>>, lock: LockData)
    requires |keys| == |outs|
    ensures FoldLock(keys, outs, lock).None? <==> exists i :: 0 <= i < |outs| && outs[i].None?
    decreases |keys|
  {
    if keys != [] && outs[0].Some? {
      FoldLockFails(keys[1..], outs[1..], Put(lock, keys[0], outs[0].value));
      assert forall i :: 1 <= i < |outs| ==> outs[i] == outs[1..][i - 1];
    }
  }

  /** When the fold succeeds, the lock data holds the keys it started with
      and the step keys; a key no step writes keeps its records, and a step
      key maps to the records of the last step that writes it. */
  lemma {:induction false} FoldLockGroups(keys: seq<string>, outs: seq<Option<seq<Record>>>, lock: LockData)
    requires |keys| == |outs|
    requires FoldLock(keys, outs, lock).Some?
    ensures var result := FoldLock(keys, outs, lock).value;
      && (DistinctKeys(lock) ==> DistinctKeys(result))
      && (forall k :: k in Keys(result) <==> k in Keys(lock) || k in keys)
      && (forall k :: k !in keys ==> Get(result, k) == Get(lock, k))
      && (forall i :: 0 <= i < |keys| && keys[i] !in keys[i + 1..] ==> Get(result, keys[i]) == outs[i])
    decreases |keys|
  {
    if keys != [] {
      var lock' := Put(lock, keys[0], outs[0].value);
      forall k ensures Get(lock', k) == if k == keys[0] then outs[0] else Get(lock, k) {
        PutGet(lock, keys[0], outs[0].value, k);
      }
      FoldLockGroups(keys[1..], outs[1..], lock');
      if DistinctKeys(lock) {
        PutKeepsKeysDistinct(lock, keys[0], outs[0].value);
      }
      var result := FoldLock(keys, outs, lock).value;
      assert result == FoldLock(keys[1..], outs[1..], lock').value;
      assert forall k :: k in keys <==> k == keys[0] || k in keys[1..];
      forall i | 0 <= i < |keys| && keys[i] !in keys[i + 1..] ensures Get(result, keys[i]) == outs[i] {
        if i > 0 {
          assert keys[1..][i - 1] == keys[i] && outs[1..][i - 1] == outs[i];
          assert keys[1..][i - 1 + 1..] == keys[i + 1..];
        } else {
          FoldLockFails(keys[1..], outs[1..], lock');
          assert keys[1..] == keys[i + 1..];
        }
      }
    }
  }

  lemma AppendFirst(a: seq<string>, s: seq<string>)
    requires s != []
    ensures (a + [s[0]]) + s[1..] == a + s
  {
    assert s == [s[0]] + s[1..];
  }

  /** Adding the first of distinct new keys puts it last and leaves the
      others new. */
  lemma PutNewKey(lock: LockData, keys: seq<string>, value: seq<Record>)
    requires keys != [] && Distinct(keys)
    requires forall i :: 0 <= i < |keys| ==> keys[i] !in Keys(lock)
    ensures Keys(Put(lock, keys[0], value)) == Keys(lock) + [keys[0]]
    ensures forall i :: 0 <= i < |keys[1..]| ==> keys[1..][i] !in Keys(Put(lock, keys[0], value))
  {
    var ks := Keys(lock);
    forall i | 0 <= i < |keys[1..]| ensures keys[1..][i] !in ks + [keys[0]] {
      assert keys[1..][i] == keys[i + 1];
    }
  }

  /** With distinct step keys that are not already present, the keys are
      added after the existing ones, in step order. */
  lemma {:induction false} FoldLockKeyOrder(keys: seq<string>, outs: seq<Option<seq<Record>>>, lock: LockData)
    requires |keys| == |outs|
    requires Distinct(keys)
    requires forall i :: 0 <= i < |keys| ==> keys[i] !in Keys(lock)
    requires FoldLock(keys, outs, lock).Some?
    ensures Keys(FoldLock(keys, outs, lock).value) == Keys(lock) + keys
    decreases |keys|
  {
    if keys == [] {
      assert Keys(lock) + keys == Keys(lock);
    } else {
      var lock' := Put(lock, keys[0], outs[0].value);
      PutNewKey(lock, keys, outs[0].value);
      assert FoldLock(keys, outs, lock) == FoldLock(keys[1..], outs[1..], lock');
      DistinctTail(keys);
      FoldLockKeyOrder(keys[1..], outs[1..], lock');
      AppendFirst(Keys(lock), keys);
    }
  }

  /** The assembly of the lock data fails iff some repository's app list is
      missing from the settings or does not resolve. */
  lemma AssembleLockFails(settings: Settings, indexes: map<string, Index>, forceLatest: bool)
    ensures AssembleLock(settings, indexes, forceLatest).None? <==>
      exists i :: 0 <= i < |settings.repositories| &&
        Outcome(settings.repositories[i], settings, indexes, forceLatest).None?
  {
    var outs := Outcomes(settings, indexes, forceLatest);
    FoldLockFails(RepositoryKeys(settings.repositories), outs, []);
    assert |outs| == |settings.repositories|;
    assert forall i :: 0 <= i < |outs| ==> outs[i] == Outcome(settings.repositories[i], settings, indexes, forceLatest);
  }

  /** With distinct apps keys, a successful assembly has exactly the
      repositories' keys, in the repositories' order, each mapped to its
      repository's records. */
  lemma LockHasOneGroupPerRepository(settings: Settings, indexes: map<string, Index>, forceLatest: bool)
    requires forall i, j :: 0 <= i < j < |settings.repositories| ==>
      settings.repositories[i].appsKey != settings.repositories[j].appsKey
    requires AssembleLock(settings, indexes, forceLatest).Some?
    ensures var lock := AssembleLock(settings, indexes, forceLatest).value;
      && Keys(lock) == RepositoryKeys(settings.repositories)
      && forall i :: 0 <= i < |settings.repositories| ==>
           var repo := settings.repositories[i];
           repo.appsKey in settings.apps &&
           Get(lock, repo.appsKey) == ResolveRepository(repo, settings.apps[repo.appsKey], indexes, forceLatest)
  {
    var keys := RepositoryKeys(settings.repositories);
    var outs := Outcomes(settings, indexes, forceLatest);
    var lock := AssembleLock(settings, indexes, forceLatest).value;
    assert Distinct(keys);
    FoldLockFails(keys, outs, []);
    FoldLockKeyOrder(keys, outs, []);
    FoldLockGroups(keys, outs, []);
    forall i | 0 <= i < |settings.repositories|
      ensures settings.repositories[i].appsKey in settings.apps
      ensures Get(lock, keys[i]) == ResolveRepository(settings.repositories[i],
                settings.apps[settings.repositories[i].appsKey], indexes, forceLatest)
    {
      assert keys[i] !in keys[i + 1..];
      assert outs[i].Some?;
    }
  }

  /** When two repositories share an apps key, the later one's records
      replace the earlier one's, as dictionary assignment does. */
  lemma SharedKeyLastWins(settings: Settings, indexes: map<string, Index>, forceLatest: bool, i: nat)
    requires i < |settings.repositories|
    requires forall j :: i < j < |settings.repositories| ==>
      settings.repositories[j].appsKey != settings.repositories[i].appsKey
    requires AssembleLock(settings, indexes, forceLatest).Some?
    ensures Get(AssembleLock(settings, indexes, forceLatest).value, settings.repositories[i].appsKey) ==
      Outcome(settings.repositories[i], settings, indexes, forceLatest)
  {
    var keys := RepositoryKeys(settings.repositories);
    var outs := Outcomes(settings, indexes, forceLatest);
    FoldLockGroups(keys, outs, []);
    assert keys[i] !in keys[i + 1..];
  }

  /** The loop of one repository: the records of its app list, or the error
      that stops the run. */
  method GetAppsLockInfo(repo: Repository, ds: seq<Declaration>, indexes: map<string, Index>,
                         forceLatest: bool) returns (result: Option<seq<Record>>)
    ensures result == ResolveRepository(repo, ds, indexes, forceLatest)
  {
    if repo.appsKey in indexes {
      var records := ResolveApps(Context(indexes[repo.appsKey], repo.baseUrl, forceLatest, FirstPackagePosition), ds);
      result := Some(records);
    } else if ds == [] {
      result := Some([]);
    } else {
      result := None;
    }
  }

  /** The lock data of the whole definition, built afresh: one entry per
      repository, filled in the settings' order. */
  method BuildLockData(settings: Settings, indexes: map<string, Index>, forceLatest: bool)
    returns (result: Option<LockData>)
    ensures result == AssembleLock(settings, indexes, forceLatest)
  {
    var repos := settings.repositories;
    ghost var keys := RepositoryKeys(repos);
    ghost var outs := Outcomes(settings, indexes, forceLatest);
    var lock: LockData := [];
    var i := 0;
    while i < |repos|
      invariant 0 <= i <= |repos|
      invariant FoldLock(keys[i..], outs[i..], lock) == AssembleLock(settings, indexes, forceLatest)
    {
      assert keys[i..][1..] == keys[i + 1..] && outs[i..][1..] == outs[i + 1..];
      var key := repos[i].appsKey;
      if key !in settings.apps {
        return None;
      }
      var records := GetAppsLockInfo(repos[i], settings.apps[key], indexes, forceLatest);
      if records.None? {
        return None;
      }
      lock := Put(lock, key, records.value);
      i := i + 1;
    }
    result := Some(lock);
  }

}
