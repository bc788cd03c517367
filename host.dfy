/** The program's effects on the machine it runs on: the index cache file
    it downloads once per apps key, the folder it creates, and the
    downloads it performs, each recorded as a request rather than carried out. */
module Host {

  import opened Sequences
  import opened Paths
  import opened Dictionary
  import opened LockResolver
  import opened LockManifest

  /** One download: a URL and the file it is saved to. */
  datatype Fetch = Fetch(url: string, destination: string)

  /** The URL of a repository's index document. */
  function IndexUrl(baseUrl: string): string {
    baseUrl + "/" + "index.xml"
  }

  /** Where the index of the repositories with this apps key is cached. */
  function IndexCachePath(rootPath: string, appsKey: string): string {
    PathJoin(PathJoin(rootPath, "resources"), appsKey + ".index.xml")
  }

  /** The folder the packages are downloaded into. */
  function UserAppsFolder(definitionPath: string): string {
    PathJoin(definitionPath, "user-apps")
  }

  /** The download of one record: its package URL into the folder, under its package name. */
  function RecordFetch(r: Record, folder: string): Fetch {
    Fetch(r.packageUrl, PathJoin(folder, r.packageName))
  }

  function RecordFetches(records: seq<Record>, folder: string): seq<Fetch> {
    seq(|records|, i requires 0 <= i < |records| => RecordFetch(records[i], folder))
  }

  /** The downloads of the whole lock data: group by group, record by record. */
  function DownloadPlan(lock: LockData, folder: string): seq<Fetch>
    decreases |lock|
  {
    if lock == [] then [] else RecordFetches(lock[0].value, folder) + DownloadPlan(lock[1..], folder)
  }

  /** The number of records in the lock data. */
  function RecordCount(lock: LockData): nat
    decreases |lock|
  {
    if lock == [] then 0 else |lock[0].value| + RecordCount(lock[1..])
  }

  /** The files a sequence of downloads writes. */
  function Destinations(plan: seq<Fetch>): set<string>
    decreases |plan|
  {
    if plan == [] then {} else {plan[0].destination} + Destinations(plan[1..])
  }

  /** With a root written without a trailing separator and a relative apps
      key, the index is cached at `<root>/resources/<apps_key>.index.xml`;
      its URL is the base URL followed by `/index.xml`. */
  lemma IndexLocations(rootPath: string, repo: Repository)
    requires rootPath != [] && rootPath[|rootPath| - 1] != '/'
    requires !IsAbsolute(repo.appsKey)
    ensures IndexCachePath(rootPath, repo.appsKey) == rootPath + "/resources/" + repo.appsKey + ".index.xml"
    ensures IndexUrl(repo.baseUrl) == repo.baseUrl + "/index.xml"
  {
    JoinInsertsSeparator(rootPath, "resources");
    var dir := rootPath + "/" + "resources";
    var name := repo.appsKey + ".index.xml";
    JoinInsertsSeparator(dir, name);
    assert dir + "/" == rootPath + "/resources/";
    assert "/" + "index.xml" == "/index.xml";
  }

  /** Repositories share a cache file exactly when they share a relative apps key. */
  lemma IndexCachePathInjective(rootPath: string, key1: string, key2: string)
    requires !IsAbsolute(key1) && !IsAbsolute(key2)
    ensures IndexCachePath(rootPath, key1) == IndexCachePath(rootPath, key2) <==> key1 == key2
  {
    var n1 := key1 + ".index.xml";
    var n2 := key2 + ".index.xml";
    assert !IsAbsolute(n1) && !IsAbsolute(n2) by {
      assert key1 == [] ==> n1 == ".index.xml";
      assert key2 == [] ==> n2 == ".index.xml";
    }
    JoinRelativeInjective(PathJoin(rootPath, "resources"), n1, n2);
    if n1 == n2 {
      assert key1 == n1[..|key1|] && key2 == n2[..|key2|];
    }
  }

  /** With a definition path written without a trailing separator and a
      relative package name, a package is saved as
      `<definition>/user-apps/<package_name>`. */
  lemma PackageDestination(definitionPath: string, r: Record)
    requires definitionPath != [] && definitionPath[|definitionPath| - 1] != '/'
    requires !IsAbsolute(r.packageName)
    ensures RecordFetch(r, UserAppsFolder(definitionPath)) ==
      Fetch(r.packageUrl, definitionPath + "/user-apps/" + r.packageName)
  {
    JoinInsertsSeparator(definitionPath, "user-apps");
    JoinInsertsSeparator(definitionPath + "/" + "user-apps", r.packageName);
  }

  /** The plan of two parts of the lock data is the plan of the first
      followed by the plan of the second. */
  lemma {:induction false} DownloadPlanAppend(a: LockData, b: LockData, folder: string)
    ensures DownloadPlan(a + b, folder) == DownloadPlan(a, folder) + DownloadPlan(b, folder)
    decreases |a|
  {
    if a == [] {
      assert a + b == b;
    } else {
      assert (a + b)[1..] == a[1..] + b;
      DownloadPlanAppend(a[1..], b, folder);
    }
  }

  /** One download per record. */
  lemma {:induction false} DownloadPlanLength(lock: LockData, folder: string)
    ensures |DownloadPlan(lock, folder)| == RecordCount(lock)
    decreases |lock|
  {
    if lock != [] {
      DownloadPlanLength(lock[1..], folder);
    }
  }

  /** Every record of every group is downloaded, and every download is that
      of some record. */
  lemma {:induction false} DownloadPlanCoversRecords(lock: LockData, folder: string)
    ensures forall g, i :: 0 <= g < |lock| && 0 <= i < |lock[g].value| ==>
      RecordFetch(lock[g].value[i], folder) in DownloadPlan(lock, folder)
    ensures forall f :: f in DownloadPlan(lock, folder) ==>
      exists g, i :: 0 <= g < |lock| && 0 <= i < |lock[g].value| && f == RecordFetch(lock[g].value[i], folder)
    decreases |lock|
  {
    if lock != [] {
      DownloadPlanCoversRecords(lock[1..], folder);
      var head := RecordFetches(lock[0].value, folder);
      var rest := DownloadPlan(lock[1..], folder);
      forall g, i | 0 <= g < |lock| && 0 <= i < |lock[g].value|
        ensures RecordFetch(lock[g].value[i], folder) in DownloadPlan(lock, folder)
      {
        if g == 0 {
          assert head[i] == RecordFetch(lock[g].value[i], folder);
        } else {
          assert lock[1..][g - 1] == lock[g];
        }
      }
      forall f | f in DownloadPlan(lock, folder)
        ensures exists g, i :: 0 <= g < |lock| && 0 <= i < |lock[g].value| && f == RecordFetch(lock[g].value[i], folder)
      {
        if f in head {
          var i :| 0 <= i < |head| && head[i] == f;
          assert f == RecordFetch(lock[0].value[i], folder);
        } else {
          assert f in rest;
          var g, i :| 0 <= g < |lock[1..]| && 0 <= i < |lock[1..][g].value| && f == RecordFetch(lock[1..][g].value[i], folder);
          assert lock[1..][g] == lock[g + 1];
        }
      }
    }
  }

  /** Two records in two groups: exactly two downloads, in group order. */
  lemma TwoGroupsTwoDownloads(k1: string, r1: Record, k2: string, r2: Record, folder: string)
    ensures DownloadPlan([Item(k1, [r1]), Item(k2, [r2])], folder) ==
      [RecordFetch(r1, folder), RecordFetch(r2, folder)]
  {
    var lock := [Item(k1, [r1]), Item(k2, [r2])];
    assert lock[1..] == [Item(k2, [r2])];
    assert lock[1..][1..] == [];
    assert RecordFetches([r1], folder) == [RecordFetch(r1, folder)];
    assert RecordFetches([r2], folder) == [RecordFetch(r2, folder)];
    assert DownloadPlan(lock[1..], folder) == [RecordFetch(r2, folder)] + DownloadPlan([], folder);
  }

  lemma DownloadPlanExtend(lock: LockData, g: nat, folder: string)
    requires g < |lock|
    ensures DownloadPlan(lock[..g + 1], folder) ==
            DownloadPlan(lock[..g], folder) + RecordFetches(lock[g].value, folder)
  {
    assert lock[..g + 1] == lock[..g] + [lock[g]];
    DownloadPlanAppend(lock[..g], [lock[g]], folder);
    assert [lock[g]][1..] == [];
    assert DownloadPlan([lock[g]], folder) == RecordFetches(lock[g].value, folder) + DownloadPlan([], folder);
  }

  /** One more group of downloads, issued after the requests and files of
      the groups before it, gives the requests and files of one more group
      of the plan. */
  lemma DownloadPlanStep(requests: seq<Fetch>, files: set<string>, lock: LockData, g: nat, folder: string)
    requires g < |lock|
    ensures (requests + DownloadPlan(lock[..g], folder)) + RecordFetches(lock[g].value, folder) ==
            requests + DownloadPlan(lock[..g + 1], folder)
    ensures (files + Destinations(DownloadPlan(lock[..g], folder))) + Destinations(RecordFetches(lock[g].value, folder)) ==
            files + Destinations(DownloadPlan(lock[..g + 1], folder))
  {
    var plan := DownloadPlan(lock[..g], folder);
    var group := RecordFetches(lock[g].value, folder);
    DownloadPlanExtend(lock, g, folder);
    DestinationsAppend(plan, group);
    ConcatAssociative(requests, plan, group);
  }

  /** One more download, issued after those of the records before it, gives
      the requests and files of one more record of the group. */
  lemma RecordFetchStep(requests: seq<Fetch>, files: set<string>, records: seq<Record>, j: nat, folder: string)
    requires j < |records|
    ensures (requests + RecordFetches(records[..j], folder)) + [RecordFetch(records[j], folder)] ==
            requests + RecordFetches(records[..j + 1], folder)
    ensures (files + Destinations(RecordFetches(records[..j], folder))) + {RecordFetch(records[j], folder).destination} ==
            files + Destinations(RecordFetches(records[..j + 1], folder))
  {
    var done := RecordFetches(records[..j], folder);
    var f := RecordFetch(records[j], folder);
    RecordFetchesExtend(records, j, folder);
    DestinationsAppend(done, [f]);
    DestinationOfOne(f);
    ConcatAssociative(requests, done, [f]);
  }

  lemma RecordFetchesExtend(records: seq<Record>, j: nat, folder: string)
    requires j < |records|
    ensures RecordFetches(records[..j + 1], folder) ==
            RecordFetches(records[..j], folder) + [RecordFetch(records[j], folder)]
  {
    assert records[..j + 1] == records[..j] + [records[j]];
  }

  lemma {:induction false} DestinationsAppend(a: seq<Fetch>, b: seq<Fetch>)
    ensures Destinations(a + b) == Destinations(a) + Destinations(b)
    decreases |a|
  {
    if a == [] {
      assert a + b == b;
    } else {
      assert (a + b)[1..] == a[1..] + b;
      DestinationsAppend(a[1..], b);
    }
  }

  lemma DestinationOfOne(f: Fetch)
    ensures Destinations([f]) == {f.destination}
  {
    assert [f][1..] == [];
  }

  /** The file system and the network as the program sees them: the
      directories and files that exist, and the downloads issued so far. */
  class Host {
    var dirs: set<string>
    var files: set<string>
    var requests: seq<Fetch>

    constructor (dirs: set<string>, files: set<string>)
      ensures this.dirs == dirs && this.files == files && requests == []
    {
      this.dirs := dirs;
      this.files := files;
      requests := [];
    }

    /** A download: one request, after which the destination file exists. */
    method Retrieve(url: string, destination: string)
      modifies this
      ensures requests == old(requests) + [Fetch(url, destination)]
      ensures files == old(files) + {destination} && dirs == old(dirs)
    {
      requests := requests + [Fetch(url, destination)];
      files := files + {destination};
    }

    /** Creates a directory; this fails when the directory already exists. */
    method MakeDirectory(path: string) returns (ok: bool)
      modifies this
      ensures ok == (path !in old(dirs))
      ensures dirs == old(dirs) + {path}
      ensures files == old(files) && requests == old(requests)
    {
      ok := path !in dirs;
      dirs := dirs + {path};
    }

    /** Makes sure the index of the repository is cached, downloading it only
        when the cache file does not exist yet. */
    method EnsureIndex(rootPath: string, repo: Repository) returns (path: string)
      modifies this
      ensures path == IndexCachePath(rootPath, repo.appsKey)
      ensures files == old(files) + {path} && dirs == old(dirs)
      ensures requests == old(requests) + (if path in old(files) then [] else [Fetch(IndexUrl(repo.baseUrl), path)])
    {
      path := IndexCachePath(rootPath, repo.appsKey);
      if path !in files {
        Retrieve(IndexUrl(repo.baseUrl), path);
      }
    }

    /** Downloads the records of one group into the folder, in order. */
    method DownloadGroup(records: seq<Record>, folder: string)
      modifies this
      ensures dirs == old(dirs)
      ensures requests == old(requests) + RecordFetches(records, folder)
      ensures files == old(files) + Destinations(RecordFetches(records, folder))
    {
      var j := 0;
      while j < |records|
        invariant 0 <= j <= |records|
        invariant dirs == old(dirs)
        invariant requests == old(requests) + RecordFetches(records[..j], folder)
        invariant files == old(files) + Destinations(RecordFetches(records[..j], folder))
      {
        var f := RecordFetch(records[j], folder);
        RecordFetchStep(old(requests), old(files), records, j, folder);
        Retrieve(f.url, f.destination);
        j := j + 1;
      }
      assert records[..j] == records;
    }

    /** Downloads the groups of the lock data into the folder, group by
        group, in order. */
    method DownloadGroups(lock: LockData, folder: string)
      modifies this
      ensures dirs == old(dirs)
      ensures requests == old(requests) + DownloadPlan(lock, folder)
      ensures files == old(files) + Destinations(DownloadPlan(lock, folder))
    {
      var g := 0;
      while g < |lock|
        invariant 0 <= g <= |lock|
        invariant dirs == old(dirs)
        invariant requests == old(requests) + DownloadPlan(lock[..g], folder)
        invariant files == old(files) + Destinations(DownloadPlan(lock[..g], folder))
      {
        DownloadPlanStep(old(requests), old(files), lock, g, folder);
        DownloadGroup(lock[g].value, folder);
        g := g + 1;
      }
      assert lock[..g] == lock;
    }

    /** Downloads every record of the lock data into the definition's
        `user-apps` folder, creating the folder only when it is missing, so
        that a second run against the same definition does not fail. */
    method DownloadApps(lock: LockData, definitionPath: string) returns (ok: bool)
      modifies this
      ensures ok
      ensures dirs == old(dirs) + {UserAppsFolder(definitionPath)}
      ensures requests == old(requests) + DownloadPlan(lock, UserAppsFolder(definitionPath))
      ensures files == old(files) + Destinations(DownloadPlan(lock, UserAppsFolder(definitionPath)))
    {
      var folder := UserAppsFolder(definitionPath);
      ok := true;
      if folder !in dirs {
        ok := MakeDirectory(folder);
      }
      DownloadGroups(lock, folder);
    }
  }

}
