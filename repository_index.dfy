/** The repository index document, after parsing, and the three queries the
    resolver puts to it. Each query is an XPath location path; its result is
    the node-set in document order, modelled as a sequence. */
module RepositoryIndex {

  import opened Wrappers

  /** A package node of an application: its `apkname` text and its
      `versioncode` value. */
  datatype Package = Package(apkName: string, versionCode: int)

  /** An application record: its `id` attribute, its `marketvercode` (if
      any) and its package nodes in document order. */
  datatype Application = Application(id: string, marketVerCode: Option<int>, packages: seq<Package>)

  datatype Index = Index(applications: seq<Application>)

  /** The XPath position the latest-path query reads, as the program writes
      it (`package[0]`): XPath positions start at 1, so this selects nothing. */
  const WrittenPackagePosition: nat := 0

  /** The position of the first package node, which the latest path evidently means. */
  const FirstPackagePosition: nat := 1

  /** Evaluates one step of a location path over a sequence of nodes: the
      results for each node, concatenated in document order. */
  function ConcatMap<A, B>(s: seq<A>, f: A -> seq<B>): seq<B>
    decreases |s|
  {
    if s == [] then [] else f(s[0]) + ConcatMap(s[1..], f)
  }

  /** The result is non-empty iff some node contributes, and its first item
      is the first item of the first contributing node. */
  lemma {:induction false} ConcatMapFirst<A, B>(s: seq<A>, f: A -> seq<B>)
    ensures ConcatMap(s, f) != [] <==> exists i :: 0 <= i < |s| && f(s[i]) != []
    ensures ConcatMap(s, f) != [] ==>
      exists i :: 0 <= i < |s| && f(s[i]) != [] && ConcatMap(s, f)[0] == f(s[i])[0] &&
        forall j :: 0 <= j < i ==> f(s[j]) == []
  {
    if s != [] {
      ConcatMapFirst(s[1..], f);
      if f(s[0]) != [] {
        assert ConcatMap(s, f)[0] == f(s[0])[0];
      } else {
        assert ConcatMap(s, f) == ConcatMap(s[1..], f);
        if ConcatMap(s, f) != [] {
          var i :| 0 <= i < |s[1..]| && f(s[1..][i]) != [] && ConcatMap(s[1..], f)[0] == f(s[1..][i])[0] &&
            forall j :: 0 <= j < i ==> f(s[1..][j]) == [];
          assert f(s[i + 1]) != [];
          forall j | 0 <= j < i + 1 ensures f(s[j]) == [] {
            if j > 0 { assert s[j] == s[1..][j - 1]; }
          }
        } else {
          forall i | 0 <= i < |s| ensures f(s[i]) == [] {
            if i > 0 { assert s[i] == s[1..][i - 1]; }
          }
        }
      }
    }
  }

  /** `package[position]/apkname/text()` under one application. */
  function NthPackageName(packages: seq<Package>, position: nat): seq<string> {
    if 1 <= position <= |packages| then [packages[position - 1].apkName] else []
  }

  function LatestStep(id: string, position: nat): Application -> seq<string> {
    (a: Application) => if a.id == id then NthPackageName(a.packages, position) else []
  }

  /** `//application[@id=id]/package[position]/apkname/text()`. */
  function LatestNames(apps: seq<Application>, id: string, position: nat): seq<string> {
    ConcatMap(apps, LatestStep(id, position))
  }

  function MarketStep(id: string): Application -> seq<int> {
    (a: Application) => if a.id == id && a.marketVerCode.Some? then [a.marketVerCode.value] else []
  }

  /** `//application[@id=id]/marketvercode/text()`. */
  function MarketVerCodes(apps: seq<Application>, id: string): seq<int> {
    ConcatMap(apps, MarketStep(id))
  }

  function VersionStep(code: int): Package -> seq<string> {
    (p: Package) => if p.versionCode == code then [p.apkName] else []
  }

  function ExactStep(id: string, code: int): Application -> seq<string> {
    (a: Application) => if a.id == id then ConcatMap(a.packages, VersionStep(code)) else []
  }

  /** `//application[@id=id]/package/apkname/text()[../../versioncode/text() = code]`. */
  function ExactNames(apps: seq<Application>, id: string, code: int): seq<string> {
    ConcatMap(apps, ExactStep(id, code))
  }

  /** The application has the id and a package node with the version code. */
  predicate Offers(a: Application, id: string, code: int) {
    a.id == id && exists j :: 0 <= j < |a.packages| && a.packages[j].versionCode == code
  }

  /** Position 0 never selects a package node, so the latest-path query as
      written finds nothing, whatever the index holds. */
  lemma {:induction false} WrittenPositionSelectsNothing(apps: seq<Application>, id: string)
    ensures LatestNames(apps, id, WrittenPackagePosition) == []
    decreases |apps|
  {
    if apps != [] {
      WrittenPositionSelectsNothing(apps[1..], id);
    }
  }

  /** The first-package query finds a name iff some application with the id
      has a package node, and the name is that of the first package node of
      the first such application. */
  lemma LatestLookup(apps: seq<Application>, id: string)
    ensures LatestNames(apps, id, FirstPackagePosition) != [] <==>
      exists i :: 0 <= i < |apps| && apps[i].id == id && apps[i].packages != []
    ensures LatestNames(apps, id, FirstPackagePosition) != [] ==>
      exists i :: 0 <= i < |apps| && apps[i].id == id && apps[i].packages != [] &&
        LatestNames(apps, id, FirstPackagePosition)[0] == apps[i].packages[0].apkName &&
        forall j :: 0 <= j < i && apps[j].id == id ==> apps[j].packages == []
  {
    var f := LatestStep(id, FirstPackagePosition);
    ConcatMapFirst(apps, f);
    forall i | 0 <= i < |apps|
      ensures f(apps[i]) != [] <==> apps[i].id == id && apps[i].packages != []
      ensures f(apps[i]) != [] ==> f(apps[i])[0] == apps[i].packages[0].apkName
    {
    }
  }

  /** The market-version query finds a code iff some application with the id
      has one, and the code is that of the first such application. */
  lemma MarketVerCodeLookup(apps: seq<Application>, id: string)
    ensures MarketVerCodes(apps, id) != [] <==>
      exists i :: 0 <= i < |apps| && apps[i].id == id && apps[i].marketVerCode.Some?
    ensures MarketVerCodes(apps, id) != [] ==>
      exists i :: 0 <= i < |apps| && apps[i].id == id && apps[i].marketVerCode.Some? &&
        MarketVerCodes(apps, id)[0] == apps[i].marketVerCode.value &&
        forall j :: 0 <= j < i && apps[j].id == id ==> apps[j].marketVerCode.None?
  {
    var f := MarketStep(id);
    ConcatMapFirst(apps, f);
    forall i | 0 <= i < |apps|
      ensures f(apps[i]) != [] <==> apps[i].id == id && apps[i].marketVerCode.Some?
    {
    }
  }

  /** Within one application, the version query finds a name iff a package
      node has the code, and the name is that of the first such node. */
  lemma PackageVersionLookup(packages: seq<Package>, code: int)
    ensures ConcatMap(packages, VersionStep(code)) != [] <==>
      exists j :: 0 <= j < |packages| && packages[j].versionCode == code
    ensures ConcatMap(packages, VersionStep(code)) != [] ==>
      exists j :: 0 <= j < |packages| && packages[j].versionCode == code &&
        ConcatMap(packages, VersionStep(code))[0] == packages[j].apkName &&
        forall k :: 0 <= k < j ==> packages[k].versionCode != code
  {
    var f := VersionStep(code);
    ConcatMapFirst(packages, f);
    forall j | 0 <= j < |packages|
      ensures f(packages[j]) != [] <==> packages[j].versionCode == code
    {
    }
  }

  /** One application contributes to the exact-version query iff it offers
      the code. */
  lemma ExactStepOffers(a: Application, id: string, code: int)
    ensures ExactStep(id, code)(a) != [] <==> Offers(a, id, code)
  {
    PackageVersionLookup(a.packages, code);
  }

  /** The exact-version query finds a name iff some application with the id
      has a package node with the code. */
  lemma ExactLookup(apps: seq<Application>, id: string, code: int)
    ensures ExactNames(apps, id, code) != [] <==>
      exists i :: 0 <= i < |apps| && Offers(apps[i], id, code)
  {
    var f := ExactStep(id, code);
    ConcatMapFirst(apps, f);
    forall i | 0 <= i < |apps|
      ensures f(apps[i]) != [] <==> Offers(apps[i], id, code)
    {
      ExactStepOffers(apps[i], id, code);
    }
  }

  /** The name the exact-version query finds first is that of the first
      package node with the code, in the first application with the id that
      has one. */
  lemma ExactFirstMatch(apps: seq<Application>, id: string, code: int)
    requires ExactNames(apps, id, code) != []
    ensures exists i, j :: 0 <= i < |apps| && 0 <= j < |apps[i].packages| &&
              apps[i].id == id && apps[i].packages[j].versionCode == code &&
              ExactNames(apps, id, code)[0] == apps[i].packages[j].apkName &&
              (forall k :: 0 <= k < i ==> !Offers(apps[k], id, code)) &&
              (forall k :: 0 <= k < j ==> apps[i].packages[k].versionCode != code)
  {
    var f := ExactStep(id, code);
    ConcatMapFirst(apps, f);
    var i :| 0 <= i < |apps| && f(apps[i]) != [] && ExactNames(apps, id, code)[0] == f(apps[i])[0] &&
      forall j :: 0 <= j < i ==> f(apps[j]) == [];
    assert apps[i].id == id;
    var g := VersionStep(code);
    var ps := apps[i].packages;
    PackageVersionLookup(ps, code);
    var j :| 0 <= j < |ps| && ps[j].versionCode == code &&
      ConcatMap(ps, g)[0] == ps[j].apkName &&
      forall k :: 0 <= k < j ==> ps[k].versionCode != code;
    forall k | 0 <= k < i ensures !Offers(apps[k], id, code) {
      ExactStepOffers(apps[k], id, code);
    }
  }

}
