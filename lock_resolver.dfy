/** Resolution of one repository's app declarations against its index:
    the version-selection policy, the record each match produces, and the
    loop that collects the records. */
module LockResolver {

  import opened Wrappers
  import opened Sequences
  import opened RepositoryIndex

  /** A declared or resolved version code: the sentinel `latest` or a number. */
  datatype Code = Latest | Version(number: int)

  /** One entry of a repository's app list in the settings. */
  datatype Declaration = Declaration(name: string, code: Code)

  /** One entry of the lock data: the declaration with its resolved package. */
  datatype Record = Record(name: string, code: Code, packageName: string, packageUrl: string)

  /** What resolution of one repository works with: its parsed index, its
      base URL, the force-latest flag and the XPath position the latest
      path reads (see `WrittenPackagePosition`). */
  datatype Context = Context(index: Index, baseUrl: string, forceLatest: bool, latestPosition: nat)

  /** The download URL of a package: the base URL and the name joined by `/`. */
  function PackageUrl(baseUrl: string, packageName: string): string {
    baseUrl + "/" + packageName
  }

  /** The latest path is taken when the flag forces it or the declaration asks for `latest`. */
  predicate UsesLatestPath(forceLatest: bool, code: Code) {
    forceLatest || code == Latest
  }

  /** Resolves one declaration: `None` when the index has no match (the
      declaration is dropped), otherwise its record. */
  function ResolveOne(ctx: Context, d: Declaration): (r: Option<Record>)
    ensures r.Some? ==> r.value.name == d.name
    ensures r.Some? ==> r.value.packageUrl == PackageUrl(ctx.baseUrl, r.value.packageName)
    ensures r.Some? && !UsesLatestPath(ctx.forceLatest, d.code) ==> r.value.code == d.code
  {
    var apps := ctx.index.applications;
    if UsesLatestPath(ctx.forceLatest, d.code) then
      var names := LatestNames(apps, d.name, ctx.latestPosition);
      if names == [] then None
      else
        var codes := MarketVerCodes(apps, d.name);
        var code := if codes == [] then d.code else Version(codes[0]);
        Some(Record(d.name, code, names[0], PackageUrl(ctx.baseUrl, names[0])))
    else
      var names := ExactNames(apps, d.name, d.code.number);
      if names == [] then None
      else Some(Record(d.name, d.code, names[0], PackageUrl(ctx.baseUrl, names[0])))
  }

  /** A `latest` declaration resolves the same whether or not the flag is set;
      with the flag, a pinned declaration resolves exactly as its `latest`
      form would; without the latest path, the position queried on that
      path plays no part. */
  lemma StrategyChoice(ctx: Context, d: Declaration, p: nat)
    ensures d.code == Latest ==>
      ResolveOne(ctx.(forceLatest := true), d) == ResolveOne(ctx.(forceLatest := false), d)
    ensures ctx.forceLatest ==>
      (ResolveOne(ctx, d).Some? <==> ResolveOne(ctx, d.(code := Latest)).Some?) &&
      (ResolveOne(ctx, d).Some? ==>
         ResolveOne(ctx, d).value.packageName == ResolveOne(ctx, d.(code := Latest)).value.packageName)
    ensures !UsesLatestPath(ctx.forceLatest, d.code) ==>
      ResolveOne(ctx, d) == ResolveOne(ctx.(latestPosition := p), d)
  {
  }

  /** On the exact path a declaration resolves iff an application with its
      name has a package node with its code; the record then keeps the
      declared code and names the first such package node. */
  lemma ExactPathResolution(ctx: Context, d: Declaration)
    requires !UsesLatestPath(ctx.forceLatest, d.code)
    ensures ResolveOne(ctx, d).Some? <==>
      exists i :: 0 <= i < |ctx.index.applications| && Offers(ctx.index.applications[i], d.name, d.code.number)
    ensures ResolveOne(ctx, d).Some? ==>
      var apps := ctx.index.applications;
      exists i, j :: 0 <= i < |apps| && 0 <= j < |apps[i].packages| &&
        apps[i].id == d.name && apps[i].packages[j].versionCode == d.code.number &&
        (forall k :: 0 <= k < i ==> !Offers(apps[k], d.name, d.code.number)) &&
        (forall k :: 0 <= k < j ==> apps[i].packages[k].versionCode != d.code.number) &&
        ResolveOne(ctx, d).value ==
          Record(d.name, d.code, apps[i].packages[j].apkName, PackageUrl(ctx.baseUrl, apps[i].packages[j].apkName))
  {
    ExactLookup(ctx.index.applications, d.name, d.code.number);
    if ResolveOne(ctx, d).Some? {
      ExactFirstMatch(ctx.index.applications, d.name, d.code.number);
    }
  }

  /** On the latest path, reading the first package node: a declaration
      resolves iff an application with its name has a package node; the
      record names the first package node of the first such application,
      and its code is the first market version code of the name if there is
      one and the declared code otherwise. */
  lemma LatestPathResolution(ctx: Context, d: Declaration)
    requires UsesLatestPath(ctx.forceLatest, d.code)
    requires ctx.latestPosition == FirstPackagePosition
    ensures ResolveOne(ctx, d).Some? <==>
      exists i :: 0 <= i < |ctx.index.applications| &&
        ctx.index.applications[i].id == d.name && ctx.index.applications[i].packages != []
    ensures ResolveOne(ctx, d).Some? ==>
      var apps := ctx.index.applications;
      exists i :: 0 <= i < |apps| && apps[i].id == d.name && apps[i].packages != [] &&
        (forall k :: 0 <= k < i && apps[k].id == d.name ==> apps[k].packages == []) &&
        ResolveOne(ctx, d).value.packageName == apps[i].packages[0].apkName
    ensures ResolveOne(ctx, d).Some? ==>
      var apps := ctx.index.applications;
      if exists i :: 0 <= i < |apps| && apps[i].id == d.name && apps[i].marketVerCode.Some? then
        exists i :: 0 <= i < |apps| && apps[i].id == d.name && apps[i].marketVerCode.Some? &&
          (forall k :: 0 <= k < i && apps[k].id == d.name ==> apps[k].marketVerCode.None?) &&
          ResolveOne(ctx, d).value.code == Version(apps[i].marketVerCode.value)
      else
        ResolveOne(ctx, d).value.code == d.code
  {
    LatestLookup(ctx.index.applications, d.name);
    MarketVerCodeLookup(ctx.index.applications, d.name);
  }

  /** As written, the latest path reads position 0 and so drops every
      declaration that takes it. */
  lemma LatestPathAsWrittenNeverResolves(ctx: Context, d: Declaration)
    requires UsesLatestPath(ctx.forceLatest, d.code)
    requires ctx.latestPosition == WrittenPackagePosition
    ensures ResolveOne(ctx, d) == None
  {
    WrittenPositionSelectsNothing(ctx.index.applications, d.name);
  }

  /** How each declaration resolves, as a function value: the list-level
      definitions and lemmas below hold for any such function, and the
      program's is `Resolver(ctx)`. */
  type Resolution = Declaration -> Option<Record>

  function Resolver(ctx: Context): Resolution {
    (d: Declaration) => ResolveOne(ctx, d)
  }

  /** Resolution of a list of declarations: drop those with no match, map
      the others to their records, keeping their order. */
  function ResolveAll(resolve: Resolution, ds: seq<Declaration>): (rs: seq<Record>)
    ensures |rs| <= |ds|
    ensures forall r :: r in rs ==> exists i :: 0 <= i < |ds| && resolve(ds[i]) == Some(r)
    ensures forall i :: 0 <= i < |ds| && resolve(ds[i]).Some? ==> resolve(ds[i]).value in rs
    decreases |ds|
  {
    if ds == [] then []
    else
      var rest := ResolveAll(resolve, ds[1..]);
      assert forall i :: 1 <= i < |ds| ==> ds[i] == ds[1..][i - 1];
      match resolve(ds[0])
      case None => rest
      case Some(r) => [r] + rest
  }

  /** Resolving a concatenation resolves each part: a dropped declaration
      does not disturb the records of the ones after it. */
  lemma {:induction false} ResolveAllAppend(resolve: Resolution, a: seq<Declaration>, b: seq<Declaration>)
    ensures ResolveAll(resolve, a + b) == ResolveAll(resolve, a) + ResolveAll(resolve, b)
    decreases |a|
  {
    if a != [] {
      var head := if resolve(a[0]).Some? then [resolve(a[0]).value] else [];
      assert (a + b)[0] == a[0] && (a + b)[1..] == a[1..] + b;
      assert ResolveAll(resolve, a + b) == head + ResolveAll(resolve, a[1..] + b);
      assert ResolveAll(resolve, a) == head + ResolveAll(resolve, a[1..]);
      ResolveAllAppend(resolve, a[1..], b);
      ConcatAssociative(head, ResolveAll(resolve, a[1..]), ResolveAll(resolve, b));
    } else {
      assert a + b == b;
    }
  }

  /** Resolving one more declaration appends its record, if it has one. */
  lemma ResolveAllExtend(resolve: Resolution, ds: seq<Declaration>, i: nat)
    requires i < |ds|
    ensures ResolveAll(resolve, ds[..i + 1]) ==
      ResolveAll(resolve, ds[..i]) + (if resolve(ds[i]).Some? then [resolve(ds[i]).value] else [])
  {
    assert ds[..i + 1] == ds[..i] + [ds[i]];
    ResolveAllAppend(resolve, ds[..i], [ds[i]]);
    assert [ds[i]][1..] == [];
  }

  /** For declarations [A, B, C] where B has no match, the records are those
      of A and C, in that order. */
  lemma OrderPreservedAroundMiss(resolve: Resolution, a: Declaration, b: Declaration, c: Declaration)
    requires resolve(a).Some? && resolve(b).None? && resolve(c).Some?
    ensures ResolveAll(resolve, [a, b, c]) == [resolve(a).value, resolve(c).value]
  {
    assert [a, b, c][1..] == [b, c];
    assert [b, c][1..] == [c];
    assert [c][1..] == [];
    assert ResolveAll(resolve, [c]) == [resolve(c).value];
    assert ResolveAll(resolve, [b, c]) == ResolveAll(resolve, [c]);
  }

  /** Every record of the program's resolution comes from a declaration
      with the same name that resolves to it, and its URL is the base URL
      followed by `/` and its package name. */
  lemma ResolvedRecords(ctx: Context, ds: seq<Declaration>)
    ensures forall r :: r in ResolveAll(Resolver(ctx), ds) ==>
      r.packageUrl == PackageUrl(ctx.baseUrl, r.packageName) &&
      exists i :: 0 <= i < |ds| && ds[i].name == r.name && ResolveOne(ctx, ds[i]) == Some(r)
  {
    forall r | r in ResolveAll(Resolver(ctx), ds)
      ensures r.packageUrl == PackageUrl(ctx.baseUrl, r.packageName)
      ensures exists i :: 0 <= i < |ds| && ds[i].name == r.name && ResolveOne(ctx, ds[i]) == Some(r)
    {
      var i :| 0 <= i < |ds| && Resolver(ctx)(ds[i]) == Some(r);
      assert ResolveOne(ctx, ds[i]) == Some(r);
    }
  }

  /** The resolution loop: walks the declarations once and appends a record
      for each one that resolves, building a fresh list. */
  method ResolveApps(ctx: Context, ds: seq<Declaration>) returns (rs: seq<Record>)
    ensures rs == ResolveAll(Resolver(ctx), ds)
  {
    rs := [];
    var i := 0;
    while i < |ds|
      invariant 0 <= i <= |ds|
      invariant rs == ResolveAll(Resolver(ctx), ds[..i])
    {
      var found := ResolveOne(ctx, ds[i]);
      ResolveAllExtend(Resolver(ctx), ds, i);
      if found.Some? {
        rs := rs + [found.value];
      }
      i := i + 1;
    }
    assert ds[..i] == ds;
  }

  // The loop as the program writes it: the list of declarations is updated
  // in place, each resolved entry is overwritten with its record, and an
  // entry that does not resolve is deleted from the list while the list is
  // being iterated, so the iteration then skips the entry after it.

  /** An entry of the list the program mutates: still a declaration, or
      already extended with its package. */
  datatype Entry = Declared(decl: Declaration) | Located(record: Record)

  function DeclarationOf(e: Entry): Declaration {
    match e
    case Declared(d) => d
    case Located(r) => Declaration(r.name, r.code)
  }

  /** The iteration from position `key` on: the list iterator yields the
      entry at `key`, the body deletes it or overwrites it, and the next
      step looks at `key + 1` of the list as it now is. */
  function InPlacePass(resolve: Resolution, entries: seq<Entry>, key: nat): seq<Entry>
    decreases |entries| + 1 - key
  {
    if key >= |entries| then entries
    else match resolve(DeclarationOf(entries[key]))
      case None => InPlacePass(resolve, entries[..key] + entries[key + 1..], key + 1)
      case Some(r) => InPlacePass(resolve, entries[key := Located(r)], key + 1)
  }

  /** The list as it starts: every entry still a declaration. */
  function DeclaredEntries(ds: seq<Declaration>): seq<Entry> {
    seq(|ds|, i requires 0 <= i < |ds| => Declared(ds[i]))
  }

  /** A list of records, as entries of the list the program mutates. */
  function LocatedEntries(rs: seq<Record>): seq<Entry> {
    seq(|rs|, i requires 0 <= i < |rs| => Located(rs[i]))
  }

  /** The loop as written, over the list of declarations. */
  method ResolveAppsInPlace(ctx: Context, ds: seq<Declaration>) returns (entries: seq<Entry>)
    ensures entries == InPlacePass(Resolver(ctx), DeclaredEntries(ds), 0)
  {
    entries := DeclaredEntries(ds);
    var key := 0;
    while key < |entries|
      invariant key <= |entries| + 1
      invariant InPlacePass(Resolver(ctx), entries, key) == InPlacePass(Resolver(ctx), DeclaredEntries(ds), 0)
      decreases |entries| + 1 - key
    {
      var found := ResolveOne(ctx, DeclarationOf(entries[key]));
      if found.None? {
        entries := entries[..key] + entries[key + 1..];
      } else {
        entries := entries[key := Located(found.value)];
      }
      key := key + 1;
    }
  }

  lemma LocatedPrepend(r: Record, rs: seq<Record>)
    ensures LocatedEntries([r] + rs) == [Located(r)] + LocatedEntries(rs)
  {
  }

  /** One step of the loop as written on an entry that resolves. */
  lemma InPlaceStepResolved(resolve: Resolution, es: seq<Entry>, key: nat, r: Record)
    requires key < |es| && resolve(DeclarationOf(es[key])) == Some(r)
    ensures InPlacePass(resolve, es, key) == InPlacePass(resolve, es[key := Located(r)], key + 1)
  {
  }

  /** The loop as written, on a list whose next entry is a declaration that
      resolves, overwrites it and moves on. */
  lemma InPlaceFirstStep(resolve: Resolution, done: seq<Entry>, ds: seq<Declaration>, r: Record)
    requires ds != [] && resolve(ds[0]) == Some(r)
    ensures InPlacePass(resolve, done + DeclaredEntries(ds), |done|) ==
            InPlacePass(resolve, (done + [Located(r)]) + DeclaredEntries(ds[1..]), |done| + 1)
  {
    OverwriteNext(done, ds, Located(r));
    InPlaceStepResolved(resolve, done + DeclaredEntries(ds), |done|, r);
  }

  /** Overwriting the first declaration after `done` moves the boundary by one. */
  lemma OverwriteNext(done: seq<Entry>, ds: seq<Declaration>, e: Entry)
    requires ds != []
    ensures (done + DeclaredEntries(ds))[|done|] == Declared(ds[0])
    ensures (done + DeclaredEntries(ds))[|done| := e] == (done + [e]) + DeclaredEntries(ds[1..])
  {
  }

  /** The fresh list of declarations that all resolve starts with the
      record of the first one. */
  lemma ResolvedPrefix(resolve: Resolution, done: seq<Entry>, ds: seq<Declaration>, r: Record)
    requires ds != [] && resolve(ds[0]) == Some(r)
    ensures done + LocatedEntries(ResolveAll(resolve, ds)) == (done + [Located(r)]) + LocatedEntries(ResolveAll(resolve, ds[1..]))
  {
    var rest := ResolveAll(resolve, ds[1..]);
    assert ResolveAll(resolve, ds) == [r] + rest;
    LocatedPrepend(r, rest);
    ConcatAssociative(done, [Located(r)], LocatedEntries(rest));
  }

  /** One step of the agreement: if the lists agree after the first
      declaration, they agree from it on. */
  lemma InPlaceAgreesStep(resolve: Resolution, done: seq<Entry>, ds: seq<Declaration>, r: Record)
    requires ds != [] && resolve(ds[0]) == Some(r)
    requires InPlacePass(resolve, (done + [Located(r)]) + DeclaredEntries(ds[1..]), |done| + 1) ==
             (done + [Located(r)]) + LocatedEntries(ResolveAll(resolve, ds[1..]))
    ensures InPlacePass(resolve, done + DeclaredEntries(ds), |done|) == done + LocatedEntries(ResolveAll(resolve, ds))
  {
    InPlaceFirstStep(resolve, done, ds, r);
    ResolvedPrefix(resolve, done, ds, r);
  }

  /** Every declaration of the list has a match. */
  predicate AllResolve(resolve: Resolution, ds: seq<Declaration>) {
    forall i :: 0 <= i < |ds| ==> resolve(ds[i]).Some?
  }

  lemma AllResolveTail(resolve: Resolution, ds: seq<Declaration>)
    requires ds != [] && AllResolve(resolve, ds)
    ensures resolve(ds[0]).Some? && AllResolve(resolve, ds[1..])
  {
    forall i | 0 <= i < |ds[1..]| ensures resolve(ds[1..][i]).Some? {
      assert ds[1..][i] == ds[i + 1];
    }
  }

  /** With no declarations left, the loop as written stops and the fresh
      list adds nothing. */
  lemma NothingLeft(resolve: Resolution, done: seq<Entry>)
    ensures InPlacePass(resolve, done + DeclaredEntries([]), |done|) == done + LocatedEntries(ResolveAll(resolve, []))
  {
    assert done + DeclaredEntries([]) == done;
    assert done + LocatedEntries(ResolveAll(resolve, [])) == done;
  }

  /** When every declaration resolves, the loop as written and the fresh
      list agree, from any position on. */
  lemma {:induction false} InPlaceAgreesWithoutMisses(resolve: Resolution, done: seq<Entry>, ds: seq<Declaration>)
    requires AllResolve(resolve, ds)
    ensures InPlacePass(resolve, done + DeclaredEntries(ds), |done|) == done + LocatedEntries(ResolveAll(resolve, ds))
    decreases |ds|
  {
    if ds == [] {
      NothingLeft(resolve, done);
    } else {
      AllResolveTail(resolve, ds);
      var r := resolve(ds[0]).value;
      InPlaceAgreesWithoutMisses(resolve, done + [Located(r)], ds[1..]);
      InPlaceAgreesStep(resolve, done, ds, r);
    }
  }

  /** When every declaration resolves, the loop as written returns the
      records of the fresh list. */
  lemma InPlaceAgreesWhenAllResolve(resolve: Resolution, ds: seq<Declaration>)
    requires AllResolve(resolve, ds)
    ensures InPlacePass(resolve, DeclaredEntries(ds), 0) == LocatedEntries(ResolveAll(resolve, ds))
  {
    InPlaceAgreesWithoutMisses(resolve, [], ds);
    assert [] + DeclaredEntries(ds) == DeclaredEntries(ds);
    assert [] + LocatedEntries(ResolveAll(resolve, ds)) == LocatedEntries(ResolveAll(resolve, ds));
  }

  /** For declarations [A, B, C] where only B has no match, the loop as
      written deletes B and then skips C: C stays in the list unresolved,
      without a package, whereas the fresh list holds the records of A and C. */
  lemma InPlaceDeletionSkipsNext(resolve: Resolution, a: Declaration, b: Declaration, c: Declaration)
    requires resolve(a).Some? && resolve(b).None? && resolve(c).Some?
    ensures InPlacePass(resolve, DeclaredEntries([a, b, c]), 0) == [Located(resolve(a).value), Declared(c)]
    ensures ResolveAll(resolve, [a, b, c]) == [resolve(a).value, resolve(c).value]
  {
    var ra := resolve(a).value;
    var es := DeclaredEntries([a, b, c]);
    assert es == [Declared(a), Declared(b), Declared(c)];
    var es1 := es[0 := Located(ra)];
    assert InPlacePass(resolve, es, 0) == InPlacePass(resolve, es1, 1);
    var es2 := es1[..1] + es1[2..];
    assert es2 == [Located(ra), Declared(c)];
    assert InPlacePass(resolve, es1, 1) == InPlacePass(resolve, es2, 2);
    OrderPreservedAroundMiss(resolve, a, b, c);
  }

  /** Two consecutive declarations with no match: the loop as written
      deletes the first and keeps the second, which has no package. */
  lemma InPlaceDeletionKeepsMiss(resolve: Resolution, a: Declaration, b: Declaration)
    requires resolve(a).None? && resolve(b).None?
    ensures InPlacePass(resolve, DeclaredEntries([a, b]), 0) == [Declared(b)]
    ensures ResolveAll(resolve, [a, b]) == []
  {
    var es := DeclaredEntries([a, b]);
    assert es == [Declared(a), Declared(b)];
    assert es[..0] + es[1..] == [Declared(b)];
    assert [a, b][1..] == [b];
  }

}
