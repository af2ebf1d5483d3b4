/** Closed linking: artifacts pinned to each other by digest, the closure check on a set of them, the symbols each
    one exports and requires, and the proof that an accepted set always links. */
module Linking {
  import opened Wrappers
  import opened CanonicalIdentity
  import opened Topological

  type Digest = seq<Byte>

  datatype Dependency = Dependency(alias: Text, package: Package, digest: Digest)

  datatype Role = Definition | Requirement

  datatype SymbolKind = DescriptorSymbol | StaticFieldSymbol | CallableSymbol | InitializerSymbol | RuntimeSymbol

  datatype Symbol = Symbol(linkName: string, identity: Option<Identity>, role: Role, kind: SymbolKind,
                           signature: string)

  /** A package artifact. Its symbols stand under their link names; `rest` is everything else it holds. */
  datatype Artifact = Artifact(package: Package, dependencies: seq<Dependency>, symbols: map<string, Symbol>,
                               rest: seq<Byte>)

  type DigestOf = Artifact -> Digest

  /** No two of the artifacts at hand have the same digest. */
  ghost predicate CollisionFree(digest: DigestOf, artifacts: set<Artifact>) {
    forall a, b :: a in artifacts && b in artifacts && digest(a) == digest(b) ==> a == b
  }

  // ----- the closure -----

  predicate UniqueNames(loaded: seq<Artifact>) {
    forall i, j :: 0 <= i < j < |loaded| ==> loaded[i].package.name != loaded[j].package.name
  }

  function DependencyNames(dependencies: seq<Dependency>): (names: seq<Text>)
    ensures |names| == |dependencies|
    ensures forall i :: 0 <= i < |names| ==> names[i] == dependencies[i].package.name
  {
    seq(|dependencies|, i requires 0 <= i < |dependencies| => dependencies[i].package.name)
  }

  function AddName(packages: map<Text, Artifact>, a: Artifact): map<Text, Artifact> {
    if a.package.name in packages then packages else packages[a.package.name := a]
  }

  /** The packages by name; the first of a name counts. */
  function ByName(loaded: seq<Artifact>): map<Text, Artifact> {
    if loaded == [] then map[] else AddName(ByName(loaded[..|loaded| - 1]), loaded[|loaded| - 1])
  }

  lemma {:induction false} ByNameHolds(loaded: seq<Artifact>)
    ensures forall n :: n in ByName(loaded) ==> ByName(loaded)[n] in loaded && ByName(loaded)[n].package.name == n
    ensures forall a :: a in loaded ==> a.package.name in ByName(loaded)
  {
    if loaded != [] {
      var front, last := loaded[..|loaded| - 1], loaded[|loaded| - 1];
      ByNameHolds(front);
      assert forall a :: a in loaded <==> a in front || a == last;
    }
  }

  lemma ByNameUnique(loaded: seq<Artifact>, a: Artifact)
    requires UniqueNames(loaded) && a in loaded
    ensures a.package.name in ByName(loaded) && ByName(loaded)[a.package.name] == a
  {
    ByNameHolds(loaded);
    var b := ByName(loaded)[a.package.name];
    assert b in loaded && b.package.name == a.package.name;
  }

  /** There are as many names as artifacts exactly when no name is used twice. */
  lemma {:induction false} ByNameCount(loaded: seq<Artifact>)
    ensures |ByName(loaded).Keys| <= |loaded|
    ensures |ByName(loaded).Keys| == |loaded| <==> UniqueNames(loaded)
  {
    if loaded != [] {
      var front, last := loaded[..|loaded| - 1], loaded[|loaded| - 1];
      ByNameCount(front);
      NameAdds(ByName(front), last);
      UniqueSnoc(front, last);
      assert loaded == front + [last];
    }
  }

  lemma NameAdds(packages: map<Text, Artifact>, a: Artifact)
    ensures |AddName(packages, a).Keys| == |packages.Keys| + if a.package.name in packages then 0 else 1
  {
    if a.package.name !in packages {
      assert AddName(packages, a).Keys == packages.Keys + {a.package.name};
    }
  }

  lemma UniqueSnoc(front: seq<Artifact>, last: Artifact)
    ensures UniqueNames(front + [last]) <==> UniqueNames(front) && last.package.name !in ByName(front)
  {
    ByNameHolds(front);
    var all := front + [last];
    if UniqueNames(all) {
      forall i, j | 0 <= i < j < |front| ensures front[i].package.name != front[j].package.name {
        assert all[i].package.name != all[j].package.name;
      }
      forall k | 0 <= k < |front| ensures front[k].package.name != last.package.name {
        assert all[k].package.name != all[|front|].package.name;
      }
    }
  }

  function Needs(packages: map<Text, Artifact>): map<Text, seq<Text>> {
    map n | n in packages :: DependencyNames(packages[n].dependencies)
  }

  /** The edge leads to exactly the artifact it names. */
  predicate Resolved(digest: DigestOf, packages: map<Text, Artifact>, d: Dependency) {
    d.package.name in packages && packages[d.package.name].package == d.package
        && digest(packages[d.package.name]) == d.digest
  }

  predicate AllResolved(digest: DigestOf, packages: map<Text, Artifact>, a: Artifact) {
    forall d :: d in a.dependencies ==> Resolved(digest, packages, d)
  }

  /** Some chain of dependencies leads from a root to the package. */
  ghost predicate Reached(needs: map<Text, seq<Text>>, roots: seq<Text>, n: Text) {
    exists path :: path != [] && Walk(needs, path) && path[0] == n && path[|path| - 1] in roots
  }

  ghost function ReachedSet(needs: map<Text, seq<Text>>, roots: seq<Text>): set<Text> {
    set n | n in needs && Reached(needs, roots, n)
  }

  ghost function ResolvedSet(digest: DigestOf, packages: map<Text, Artifact>): set<Text> {
    set n | n in packages && AllResolved(digest, packages, packages[n])
  }

  /** What an accepted closure is: one artifact a name, every edge satisfied by name, version and digest, nothing
      but what the roots reach, and no cycle. */
  ghost predicate Accepted(digest: DigestOf, loaded: seq<Artifact>, roots: seq<Text>) {
    UniqueNames(loaded) && Sealed(digest, ByName(loaded), roots) && !Cyclic(Needs(ByName(loaded)))
  }

  ghost predicate Sealed(digest: DigestOf, packages: map<Text, Artifact>, roots: seq<Text>) {
    && (forall r :: r in roots ==> r in packages)
    && ResolvedSet(digest, packages) == packages.Keys && ReachedSet(Needs(packages), roots) == packages.Keys
  }

  // ----- link symbols -----

  /** What verification of one artifact says of its symbols: names that are the link names of the identities,
      definitions owned by the package, runtime symbols only required. */
  ghost predicate Verified(a: Artifact) {
    forall n :: n in a.symbols ==> VerifiedSymbol(a.package, n, a.symbols[n])
  }

  ghost predicate VerifiedSymbol(package: Package, n: string, s: Symbol) {
    && s.linkName == n && (s.kind.RuntimeSymbol? <==> s.identity.None?)
    && (s.identity.Some? ==> IdentityFits(s.identity.value) && n == Mangle(Spell(s.identity.value)))
    && (s.kind.RuntimeSymbol? ==> s.role.Requirement?)
    && (s.role.Definition? ==>
        s.identity.Some? && s.identity.value.MemberOf? && s.identity.value.owner.package == package)
  }

  predicate Defines(a: Artifact, n: string) {
    n in a.symbols && a.symbols[n].role.Definition?
  }

  predicate Matches(definition: Symbol, requirement: Symbol) {
    definition.identity == requirement.identity && definition.kind == requirement.kind
        && definition.signature == requirement.signature
  }

  /** A definition matches a requirement of its name exactly when they differ in nothing but their roles. */
  lemma MatchesIsSame(definition: Symbol, requirement: Symbol)
    requires definition.linkName == requirement.linkName && requirement.role.Requirement?
    ensures Matches(definition, requirement) <==> definition.(role := Requirement) == requirement
  {
  }

  /** The requirement has a matching definition among the artifacts. */
  ghost predicate Satisfied(artifacts: seq<Artifact>, requirement: Symbol) {
    exists b :: b in artifacts && Defines(b, requirement.linkName)
        && Matches(b.symbols[requirement.linkName], requirement)
  }

  predicate Required(s: Symbol) {
    s.role.Requirement? && !s.kind.RuntimeSymbol?
  }

  /** No name has two owners, and every required Cloth symbol has a definition that fits it. */
  ghost predicate LinksCleanly(artifacts: seq<Artifact>) {
    && (forall i, j, n :: 0 <= i < j < |artifacts| && Defines(artifacts[i], n) ==> !Defines(artifacts[j], n))
    && (forall a, n :: a in artifacts && n in a.symbols && Required(a.symbols[n]) ==>
        Satisfied(artifacts, a.symbols[n]))
  }

  /** How an artifact's symbols are made: its own definitions, then a requirement for every definition of its
      dependencies, then the runtime's symbols. */
  ghost predicate SymbolsBuilt(owned: map<string, Symbol>, closure: seq<Artifact>, symbols: map<string, Symbol>) {
    && (forall n :: n in owned ==> n in symbols && symbols[n] == owned[n])
    && (forall a, n :: a in closure && Defines(a, n) ==> n in symbols)
    && (forall n :: n in symbols && n !in owned && !symbols[n].kind.RuntimeSymbol? ==>
        Inherited(closure, n, symbols[n]))
  }

  /** The symbol is a requirement for a definition of one of the artifacts. */
  ghost predicate Inherited(closure: seq<Artifact>, n: string, s: Symbol) {
    exists a :: a in closure && Defines(a, n) && s == a.symbols[n].(role := Requirement)
  }

  /** An artifact as compilation made it: from the closure it was compiled against. */
  datatype Build = Build(artifact: Artifact, owned: map<string, Symbol>, closure: seq<Artifact>)

  ghost predicate Proper(digest: DigestOf, b: Build) {
    && Verified(b.artifact)
    && Accepted(digest, b.closure, DependencyNames(b.artifact.dependencies))
    && AllResolved(digest, ByName(b.closure), b.artifact)
    && (forall n :: n in b.owned ==> b.owned[n].role.Definition?)
    && SymbolsBuilt(b.owned, b.closure, b.artifact.symbols)
  }

  function Artifacts(builds: seq<Build>): (artifacts: seq<Artifact>)
    ensures |artifacts| == |builds|
    ensures forall i :: 0 <= i < |builds| ==> artifacts[i] == builds[i].artifact
  {
    seq(|builds|, i requires 0 <= i < |builds| => builds[i].artifact)
  }

  /** The linked artifacts and all that they were compiled against. */
  ghost function InPlay(builds: seq<Build>): (all: set<Artifact>)
    ensures forall a :: a in Artifacts(builds) ==> a in all
    ensures forall i, c :: 0 <= i < |builds| && c in builds[i].closure ==> c in all
  {
    (set a | a in Artifacts(builds)) + set i, c | 0 <= i < |builds| && c in builds[i].closure :: c
  }

  // ----- closed linking -----

  /** An edge that two accepted sets both satisfy leads to the same artifact in both. */
  lemma SameTarget(digest: DigestOf, all: set<Artifact>, here: map<Text, Artifact>, there: map<Text, Artifact>,
                   d: Dependency)
    requires CollisionFree(digest, all) && Within(here, all) && Within(there, all)
    requires Resolved(digest, here, d) && Resolved(digest, there, d)
    ensures here[d.package.name] == there[d.package.name]
  {
  }

  ghost predicate Within(packages: map<Text, Artifact>, all: set<Artifact>) {
    forall n :: n in packages ==> packages[n] in all
  }

  /** Along a chain of dependencies the compile-time closure and the link set hold the same artifacts. */
  lemma {:induction false} ChainIsLinked(digest: DigestOf, all: set<Artifact>, a: Artifact,
                                         closure: map<Text, Artifact>, linked: map<Text, Artifact>, path: seq<Text>)
    requires CollisionFree(digest, all) && Within(closure, all) && Within(linked, all)
    requires path != [] && Walk(Needs(closure), path) && path[|path| - 1] in DependencyNames(a.dependencies)
    requires AllResolved(digest, closure, a) && AllResolved(digest, linked, a)
    requires forall n :: n in closure ==> AllResolved(digest, closure, closure[n])
    requires forall n :: n in linked ==> AllResolved(digest, linked, linked[n])
    ensures path[0] in closure && path[0] in linked && closure[path[0]] == linked[path[0]]
    decreases |path|
  {
    if |path| == 1 {
      var i :| 0 <= i < |a.dependencies| && DependencyNames(a.dependencies)[i] == path[0];
      SameTarget(digest, all, closure, linked, a.dependencies[i]);
    } else {
      assert path[1] in Needs(closure) && path[0] in Needs(closure)[path[1]];
      WalkSlice(Needs(closure), path, 1, |path|);
      ChainIsLinked(digest, all, a, closure, linked, path[1..]);
      var b := closure[path[1]];
      var i :| 0 <= i < |b.dependencies| && DependencyNames(b.dependencies)[i] == path[0];
      SameTarget(digest, all, closure, linked, b.dependencies[i]);
    }
  }

  /** What the chain argument needs of an accepted set. */
  lemma SealedResolves(digest: DigestOf, packages: map<Text, Artifact>, roots: seq<Text>)
    requires Sealed(digest, packages, roots)
    ensures forall n :: n in packages ==> AllResolved(digest, packages, packages[n])
  {
    forall n | n in packages ensures AllResolved(digest, packages, packages[n]) {
      assert n in ResolvedSet(digest, packages);
    }
  }

  lemma SealedReaches(digest: DigestOf, packages: map<Text, Artifact>, roots: seq<Text>, n: Text)
    returns (path: seq<Text>)
    requires Sealed(digest, packages, roots) && n in packages
    ensures path != [] && Walk(Needs(packages), path) && path[0] == n && path[|path| - 1] in roots
  {
    assert n in ReachedSet(Needs(packages), roots);
    path :| path != [] && Walk(Needs(packages), path) && path[0] == n && path[|path| - 1] in roots;
  }

  /** Everything an artifact was compiled against is in every accepted set that it is in. */
  lemma ClosureIsLinked(digest: DigestOf, b: Build, linked: seq<Artifact>, roots: seq<Text>, all: set<Artifact>,
                        c: Artifact)
    requires CollisionFree(digest, all) && Proper(digest, b) && Accepted(digest, linked, roots)
    requires (forall a :: a in linked ==> a in all) && forall a :: a in b.closure ==> a in all
    requires b.artifact in linked && c in b.closure
    ensures c in linked
  {
    IndexIsWithin(b.closure, all);
    IndexIsWithin(linked, all);
    ByNameUnique(b.closure, c);
    ByNameUnique(linked, b.artifact);
    SealedResolves(digest, ByName(linked), roots);
    SealedIsLinked(digest, all, b.artifact, ByName(b.closure), ByName(linked), roots, c.package.name);
    ByNameHolds(linked);
  }

  /** What a sealed closure of an artifact holds, a sealed set with the artifact holds too. */
  lemma SealedIsLinked(digest: DigestOf, all: set<Artifact>, a: Artifact, closure: map<Text, Artifact>,
                       packages: map<Text, Artifact>, roots: seq<Text>, n: Text)
    requires CollisionFree(digest, all) && Within(closure, all) && Within(packages, all)
    requires Sealed(digest, closure, DependencyNames(a.dependencies)) && Sealed(digest, packages, roots)
    requires AllResolved(digest, closure, a) && AllResolved(digest, packages, a) && n in closure
    ensures n in packages && packages[n] == closure[n]
  {
    SealedResolves(digest, closure, DependencyNames(a.dependencies));
    SealedResolves(digest, packages, roots);
    var path := SealedReaches(digest, closure, DependencyNames(a.dependencies), n);
    ChainIsLinked(digest, all, a, closure, packages, path);
  }

  lemma IndexIsWithin(loaded: seq<Artifact>, all: set<Artifact>)
    requires forall a :: a in loaded ==> a in all
    ensures Within(ByName(loaded), all)
  {
    ByNameHolds(loaded);
  }

  /** Two artifacts that define one name are artifacts of one package. */
  lemma OneOwner(a: Artifact, b: Artifact, n: string)
    requires Verified(a) && Verified(b) && Defines(a, n) && Defines(b, n)
    ensures a.package == b.package
  {
    assert VerifiedSymbol(a.package, n, a.symbols[n]) && VerifiedSymbol(b.package, n, b.symbols[n]);
    LinkNamesAreUnique(a.symbols[n].identity.value, b.symbols[n].identity.value);
  }

  lemma RequirementIsSatisfied(digest: DigestOf, b: Build, linked: seq<Artifact>, roots: seq<Text>,
                               all: set<Artifact>, n: string)
    requires CollisionFree(digest, all) && Proper(digest, b) && Accepted(digest, linked, roots) && b.artifact in linked
    requires (forall a :: a in linked ==> a in all) && forall a :: a in b.closure ==> a in all
    requires n in b.artifact.symbols && Required(b.artifact.symbols[n])
    ensures Satisfied(linked, b.artifact.symbols[n])
  {
    var s := b.artifact.symbols[n];
    assert VerifiedSymbol(b.artifact.package, n, s);
    assert Inherited(b.closure, n, s);
    var c :| c in b.closure && Defines(c, n) && s == c.symbols[n].(role := Requirement);
    ClosureIsLinked(digest, b, linked, roots, all, c);
  }

  lemma OneDefinition(artifacts: seq<Artifact>, i: nat, j: nat, n: string)
    requires UniqueNames(artifacts) && i < j < |artifacts| && Verified(artifacts[i]) && Verified(artifacts[j])
    requires Defines(artifacts[i], n)
    ensures !Defines(artifacts[j], n)
  {
    if Defines(artifacts[j], n) {
      OneOwner(artifacts[i], artifacts[j], n);
    }
  }

  /** Any set of compiled artifacts that the closure check accepts links without a duplicate, unresolved or
      mismatched Cloth symbol, as long as no two of the artifacts in play share a digest. */
  lemma ClosedLinking(digest: DigestOf, builds: seq<Build>, roots: seq<Text>)
    requires CollisionFree(digest, InPlay(builds)) && Accepted(digest, Artifacts(builds), roots)
    requires forall i :: 0 <= i < |builds| ==> Proper(digest, builds[i])
    ensures LinksCleanly(Artifacts(builds))
  {
    var artifacts := Artifacts(builds);
    forall i, j, n | 0 <= i < j < |artifacts| && Defines(artifacts[i], n) ensures !Defines(artifacts[j], n) {
      assert Proper(digest, builds[i]) && Proper(digest, builds[j]);
      OneDefinition(artifacts, i, j, n);
    }
    forall a, n | a in artifacts && n in a.symbols && Required(a.symbols[n])
      ensures Satisfied(artifacts, a.symbols[n])
    {
      var i :| 0 <= i < |artifacts| && artifacts[i] == a;
      RequirementIsSatisfied(digest, builds[i], artifacts, roots, InPlay(builds), n);
    }
  }

  // ----- the closure check as it runs -----

  lemma {:induction false} ClosedHoldsReached(needs: map<Text, seq<Text>>, roots: seq<Text>, seen: set<Text>,
                                              path: seq<Text>)
    requires path != [] && Walk(needs, path) && path[|path| - 1] in roots
    requires (forall r :: r in roots ==> r in seen)
    requires forall n, m :: n in seen && n in needs && m in needs[n] ==> m in seen
    ensures path[0] in seen
    decreases |path|
  {
    if |path| > 1 {
      WalkSlice(needs, path, 1, |path|);
      ClosedHoldsReached(needs, roots, seen, path[1..]);
      assert path[0] in needs[path[1]];
    }
  }

  lemma RootIsReached(needs: map<Text, seq<Text>>, roots: seq<Text>, n: Text)
    requires n in roots && n in needs
    ensures Reached(needs, roots, n)
  {
    var path := [n];
    assert Walk(needs, path) && path[0] == n && path[|path| - 1] in roots;
  }

  lemma NeedIsReached(needs: map<Text, seq<Text>>, roots: seq<Text>, n: Text, m: Text)
    requires Reached(needs, roots, n) && n in needs && m in needs[n] && m in needs
    ensures Reached(needs, roots, m)
  {
    var path :| path != [] && Walk(needs, path) && path[0] == n && path[|path| - 1] in roots;
    var longer := [m] + path;
    forall i, j | 0 <= i && i + 1 == j < |longer| ensures longer[i] in needs[longer[j]] {
      assert longer[j] == path[i];
      if i > 0 {
        assert longer[i] == path[i - 1];
      }
    }
    assert Walk(needs, longer) && longer[0] == m && longer[|longer| - 1] in roots;
  }

  lemma ReachedSetGrows(needs: map<Text, seq<Text>>, roots: seq<Text>)
    ensures forall n :: n in roots && n in needs ==> n in ReachedSet(needs, roots)
    ensures forall n, m :: n in ReachedSet(needs, roots) && m in needs[n] && m in needs ==>
              m in ReachedSet(needs, roots)
  {
    forall n | n in roots && n in needs ensures n in ReachedSet(needs, roots) {
      RootIsReached(needs, roots, n);
    }
    forall n, m | n in ReachedSet(needs, roots) && m in needs[n] && m in needs ensures m in ReachedSet(needs, roots) {
      NeedIsReached(needs, roots, n, m);
    }
  }

  /** How far the search has come: what is seen is among `good`, and what it needs is seen or pending. */
  ghost predicate Searching(needs: map<Text, seq<Text>>, roots: seq<Text>, good: set<Text>, seen: set<Text>,
                            pending: seq<Text>) {
    && seen <= good <= needs.Keys
    && (forall r :: r in roots ==> r in seen || r in pending)
    && (forall n, m :: n in seen && m in needs[n] ==> m in seen || m in pending)
  }

  /** The targets of the edges of one artifact, when every edge is satisfied. */
  method FollowEdges(digest: DigestOf, packages: map<Text, Artifact>, a: Artifact)
    returns (ok: bool, targets: seq<Text>)
    ensures ok <==> AllResolved(digest, packages, a)
    ensures ok ==> targets == DependencyNames(a.dependencies)
  {
    targets := [];
    for i := 0 to |a.dependencies|
      invariant targets == DependencyNames(a.dependencies)[..i]
      invariant forall k :: 0 <= k < i ==> Resolved(digest, packages, a.dependencies[k])
    {
      var d := a.dependencies[i];
      if !(d.package.name in packages && packages[d.package.name].package == d.package
           && digest(packages[d.package.name]) == d.digest) {
        assert !Resolved(digest, packages, d) && d in a.dependencies;
        return false, [];
      }
      targets := targets + [d.package.name];
    }
    ok := true;
  }

  lemma SeenOnce(needs: map<Text, seq<Text>>, roots: seq<Text>, good: set<Text>, seen: set<Text>, pending: seq<Text>,
                 n: Text)
    requires Searching(needs, roots, good, seen, pending + [n]) && n in good
    ensures Searching(needs, roots, good, seen + {n}, pending + needs[n])
  {
  }

  lemma SeenAgain(needs: map<Text, seq<Text>>, roots: seq<Text>, good: set<Text>, seen: set<Text>, pending: seq<Text>,
                  n: Text)
    requires Searching(needs, roots, good, seen, pending + [n]) && n in seen
    ensures Searching(needs, roots, good, seen, pending)
  {
  }

  /** How far the search has come; a name still to be looked up is a reached package or a root. */
  ghost predicate Underway(needs: map<Text, seq<Text>>, roots: seq<Text>, reached: set<Text>, good: set<Text>,
                           seen: set<Text>, pending: seq<Text>) {
    && Searching(needs, roots, good, seen, pending)
    && forall n :: n in pending ==> if n in needs then n in reached else n in roots
  }

  lemma SearchSkips(needs: map<Text, seq<Text>>, roots: seq<Text>, reached: set<Text>, good: set<Text>,
                    seen: set<Text>, rest: seq<Text>, n: Text)
    requires Underway(needs, roots, reached, good, seen, rest + [n]) && n in seen
    ensures Underway(needs, roots, reached, good, seen, rest)
  {
    SeenAgain(needs, roots, good, seen, rest, n);
    assert forall k :: k in rest ==> k in rest + [n];
  }

  lemma SearchAdvances(needs: map<Text, seq<Text>>, roots: seq<Text>, reached: set<Text>, good: set<Text>,
                       seen: set<Text>, rest: seq<Text>, n: Text)
    requires Underway(needs, roots, reached, good, seen, rest + [n]) && n in good && n in reached
    requires forall m :: m in needs[n] ==> m in needs && m in reached
    ensures Underway(needs, roots, reached, good, seen + {n}, rest + needs[n])
  {
    SeenOnce(needs, roots, good, seen, rest, n);
    forall k | k in rest + needs[n] ensures if k in needs then k in reached else k in roots {
      if k in rest {
        assert k in rest + [n];
      }
    }
  }

  /** A reached package with satisfied edges: what following them leads to. */
  lemma EdgesAreReached(digest: DigestOf, packages: map<Text, Artifact>, roots: seq<Text>, n: Text)
    requires n in packages && n in ReachedSet(Needs(packages), roots) && AllResolved(digest, packages, packages[n])
    ensures n in ResolvedSet(digest, packages) && Needs(packages)[n] == DependencyNames(packages[n].dependencies)
    ensures forall m :: m in Needs(packages)[n] ==> m in packages && m in ReachedSet(Needs(packages), roots)
  {
    TargetsAreKnown(digest, packages, packages[n]);
    ReachedSetGrows(Needs(packages), roots);
  }

  lemma SearchStarts(needs: map<Text, seq<Text>>, roots: seq<Text>, resolved: set<Text>)
    requires resolved <= needs.Keys
    ensures Underway(needs, roots, ReachedSet(needs, roots), ReachedSet(needs, roots) * resolved, {}, roots)
  {
    ReachedSetGrows(needs, roots);
  }

  /** What the roots reach; fails exactly at a missing root or an unsatisfied edge that they reach. */
  method Search(digest: DigestOf, packages: map<Text, Artifact>, roots: seq<Text>) returns (ok: bool, seen: set<Text>)
    ensures ok ==> Searching(Needs(packages), roots,
                             ReachedSet(Needs(packages), roots) * ResolvedSet(digest, packages), seen, [])
    ensures !ok ==>
              || (exists r :: r in roots && r !in packages)
              || exists n :: n in packages && !AllResolved(digest, packages, packages[n])
  {
    var pending := roots;
    seen := {};
    ghost var needs, reached := Needs(packages), ReachedSet(Needs(packages), roots);
    ghost var good := reached * ResolvedSet(digest, packages);
    SearchStarts(needs, roots, ResolvedSet(digest, packages));
    while pending != []
      invariant Underway(needs, roots, reached, good, seen, pending)
      decreases packages.Keys - seen, |pending|
    {
      var n, rest := pending[|pending| - 1], pending[..|pending| - 1];
      assert pending == rest + [n] && n in pending;
      if n in seen {
        SearchSkips(needs, roots, reached, good, seen, rest, n);
        pending := rest;
      } else {
        if n !in packages { return false, {}; }
        var resolved, targets := FollowEdges(digest, packages, packages[n]);
        if !resolved { return false, {}; }
        EdgesAreReached(digest, packages, roots, n);
        SearchAdvances(needs, roots, reached, good, seen, rest, n);
        pending, seen := rest + targets, seen + {n};
      }
    }
    ok := true;
  }

  lemma TargetsAreKnown(digest: DigestOf, packages: map<Text, Artifact>, a: Artifact)
    requires AllResolved(digest, packages, a)
    ensures forall n :: n in DependencyNames(a.dependencies) ==> n in packages
  {
    forall n | n in DependencyNames(a.dependencies) ensures n in packages {
      var i :| 0 <= i < |a.dependencies| && DependencyNames(a.dependencies)[i] == n;
      assert Resolved(digest, packages, a.dependencies[i]);
    }
  }

  method Index(loaded: seq<Artifact>) returns (packages: map<Text, Artifact>)
    ensures packages == ByName(loaded)
  {
    packages := map[];
    for i := 0 to |loaded|
      invariant packages == ByName(loaded[..i])
    {
      assert loaded[..i + 1][..i] == loaded[..i];
      if loaded[i].package.name !in packages {
        packages := packages[loaded[i].package.name := loaded[i]];
      }
    }
    assert loaded[..|loaded|] == loaded;
  }

  /** Whether the roots reach every package and every edge is satisfied. */
  method ReachesAll(digest: DigestOf, loaded: seq<Artifact>, packages: map<Text, Artifact>, roots: seq<Text>)
    returns (ok: bool)
    requires packages == ByName(loaded)
    ensures ok <==> UniqueNames(loaded) && Sealed(digest, packages, roots)
  {
    var found, seen := Search(digest, packages, roots);
    if !found {
      FailedSearch(digest, packages, roots);
      return false;
    }
    SeenIsReached(Needs(packages), roots, ResolvedSet(digest, packages), seen);
    CountDecides(digest, loaded, packages, roots, seen);
    ok := |seen| == |loaded|;
  }

  /** The verification of all imported views together, which looks at nothing that is modelled here. */
  type ViewCheck = seq<Artifact> -> bool

  /** Accepts exactly the closures described above whose imported views pass. */
  method ValidateClosure(digest: DigestOf, views: ViewCheck, loaded: seq<Artifact>, roots: seq<Text>) returns (ok: bool)
    ensures ok <==> Accepted(digest, loaded, roots) && views(loaded)
  {
    var packages := Index(loaded);
    ok := ReachesAll(digest, loaded, packages, roots);
    if ok {
      var names := seq(|loaded|, i requires 0 <= i < |loaded| => loaded[i].package.name);
      NamesAreNodes(loaded, packages, names);
      NeedsAreClosed(digest, packages, roots);
      var order := Sort(names, Needs(packages));
      ok := |order| == |loaded| && views(loaded);
    }
  }

  lemma FailedSearch(digest: DigestOf, packages: map<Text, Artifact>, roots: seq<Text>)
    requires || (exists r :: r in roots && r !in packages)
             || exists n :: n in packages && !AllResolved(digest, packages, packages[n])
    ensures !Sealed(digest, packages, roots)
  {
    if Sealed(digest, packages, roots) {
      SealedResolves(digest, packages, roots);
    }
  }

  lemma SetsDecide(keys: set<Text>, reached: set<Text>, resolved: set<Text>, count: nat, unique: bool)
    requires reached <= resolved <= keys && |keys| <= count && (|keys| == count <==> unique)
    ensures |reached| == count <==> unique && resolved == keys && reached == keys
  {
    SubsetCount(reached, keys);
  }

  /** Once the search is done, the counts decide everything but cycles. */
  lemma CountDecides(digest: DigestOf, loaded: seq<Artifact>, packages: map<Text, Artifact>, roots: seq<Text>,
                     seen: set<Text>)
    requires packages == ByName(loaded) && seen == ReachedSet(Needs(packages), roots)
    requires seen <= ResolvedSet(digest, packages)
    requires forall r :: r in roots ==> r in seen
    ensures |seen| == |loaded| <==> UniqueNames(loaded) && Sealed(digest, packages, roots)
  {
    ByNameCount(loaded);
    SetsDecide(packages.Keys, seen, ResolvedSet(digest, packages), |loaded|, UniqueNames(loaded));
  }

  lemma NamesAreNodes(loaded: seq<Artifact>, packages: map<Text, Artifact>, names: seq<Text>)
    requires packages == ByName(loaded) && UniqueNames(loaded)
    requires |names| == |loaded| && forall i :: 0 <= i < |loaded| ==> names[i] == loaded[i].package.name
    ensures Distinct(names) && Elements(names) == packages.Keys && |packages.Keys| == |loaded|
  {
    ByNameCount(loaded);
    ByNameHolds(loaded);
    forall n | n in names ensures n in packages {
      var i :| 0 <= i < |names| && names[i] == n;
      assert loaded[i] in loaded;
    }
    forall n | n in packages ensures n in names {
      var i :| 0 <= i < |loaded| && loaded[i] == packages[n];
      assert names[i] == n;
    }
  }

  lemma NeedsAreClosed(digest: DigestOf, packages: map<Text, Artifact>, roots: seq<Text>)
    requires Sealed(digest, packages, roots)
    ensures Closed(packages.Keys, Needs(packages))
  {
    SealedResolves(digest, packages, roots);
    forall x, y | x in packages && y in Needs(packages)[x] ensures y in packages {
      TargetsAreKnown(digest, packages, packages[x]);
    }
  }

  lemma SeenIsReached(needs: map<Text, seq<Text>>, roots: seq<Text>, resolved: set<Text>, seen: set<Text>)
    requires Searching(needs, roots, ReachedSet(needs, roots) * resolved, seen, [])
    ensures seen == ReachedSet(needs, roots) && seen <= resolved && forall r :: r in roots ==> r in seen
  {
    forall n | n in ReachedSet(needs, roots) ensures n in seen {
      ReachedIsSeen(needs, roots, ReachedSet(needs, roots) * resolved, seen, n);
    }
  }

  lemma ReachedIsSeen(needs: map<Text, seq<Text>>, roots: seq<Text>, good: set<Text>, seen: set<Text>, n: Text)
    requires Searching(needs, roots, good, seen, []) && Reached(needs, roots, n)
    ensures n in seen
  {
    var path :| path != [] && Walk(needs, path) && path[0] == n && path[|path| - 1] in roots;
    ClosedHoldsReached(needs, roots, seen, path);
  }

  lemma SubsetCount(a: set<Text>, b: set<Text>)
    requires a <= b
    ensures |a| <= |b| && (|a| == |b| ==> a == b)
  {
    assert |b - a| == |b| - |a|;
    assert b == a + (b - a);
  }

  // ----- symbols as they are gathered and checked -----

  function RuntimeRequirement(name: string, signature: string): Symbol {
    Symbol(name, None, Requirement, RuntimeSymbol, signature)
  }

  /** What an object artifact requires of the runtime. */
  const RUNTIME: seq<Symbol> := [
    RuntimeRequirement("cloth_rt_alloc", "c:ptr(ptr)"),
    RuntimeRequirement("cloth_rt_array_alloc", "c:ptr(i32,ptr)"),
    RuntimeRequirement("cloth_rt_box_value", "c:ptr(ptr,ptr,ptr)"),
    RuntimeRequirement("cloth_rt_console_read_line", "c:ptr(ptr)"),
    RuntimeRequirement("cloth_rt_console_write_error", "c:void(ptr)"),
    RuntimeRequirement("cloth_rt_file_read_bytes", "c:ptr(ptr,ptr)"),
    RuntimeRequirement("cloth_rt_parse_primitive", "c:i8(i8,ptr,ptr)"),
    RuntimeRequirement("cloth_rt_require_nullable_value", "c:void(i8)"),
    RuntimeRequirement("cloth_rt_try_unbox", "c:i8(ptr,ptr,ptr)"),
    RuntimeRequirement("cloth_rt_value_box_equals", "c:i1(ptr,ptr)"),
    RuntimeRequirement("cloth_rt_value_box_hash_code", "c:i64(ptr)"),
    RuntimeRequirement("cloth_rt_value_box_to_string", "c:ptr(ptr)"),
    RuntimeRequirement("cloth_rt_string_slice", "c:ptr(ptr,i32,i32)")
  ]

  /** The symbols after one more artifact: those there were, and requirements for its definitions of new names. */
  ghost predicate Extended(before: map<string, Symbol>, after: map<string, Symbol>, a: Artifact) {
    && (forall n :: n in before ==> n in after && after[n] == before[n])
    && (forall n :: Defines(a, n) ==> n in after)
    && (forall n :: n in after && n !in before ==> Defines(a, n) && after[n] == a.symbols[n].(role := Requirement))
  }

  method AddRequirements(symbols: map<string, Symbol>, a: Artifact) returns (r: map<string, Symbol>)
    ensures Extended(symbols, r, a)
  {
    r := symbols;
    var left := a.symbols.Keys;
    while left != {}
      invariant left <= a.symbols.Keys
      invariant forall n :: n in symbols ==> n in r && r[n] == symbols[n]
      invariant forall n :: Defines(a, n) ==> n in r || n in left
      invariant forall n :: n in r && n !in symbols ==> Defines(a, n) && r[n] == a.symbols[n].(role := Requirement)
      decreases |left|
    {
      var n :| n in left;
      left := left - {n};
      if a.symbols[n].role.Definition? && n !in r {
        r := r[n := a.symbols[n].(role := Requirement)];
      }
    }
  }

  /** The symbols of an artifact. */
  method ArtifactSymbols(owned: map<string, Symbol>, closure: seq<Artifact>, isObject: bool)
    returns (symbols: map<string, Symbol>)
    ensures SymbolsBuilt(owned, closure, symbols)
    ensures isObject ==> forall s :: s in RUNTIME ==> s.linkName in symbols
    ensures !isObject ==> forall n :: n in symbols && n !in owned ==> Inherited(closure, n, symbols[n])
  {
    symbols := owned;
    for i := 0 to |closure|
      invariant SymbolsBuilt(owned, closure[..i], symbols)
      invariant forall n :: n in symbols && n !in owned ==> Inherited(closure[..i], n, symbols[n])
    {
      ghost var before := symbols;
      symbols := AddRequirements(symbols, closure[i]);
      BuiltOneMore(owned, closure[..i], closure[i], before, symbols);
      assert closure[..i + 1] == closure[..i] + [closure[i]];
    }
    assert closure[..|closure|] == closure;
    if isObject {
      symbols := AddRuntime(owned, closure, symbols);
    }
  }

  method AddRuntime(ghost owned: map<string, Symbol>, ghost closure: seq<Artifact>, symbols: map<string, Symbol>)
    returns (r: map<string, Symbol>)
    requires SymbolsBuilt(owned, closure, symbols)
    ensures SymbolsBuilt(owned, closure, r) && forall s :: s in RUNTIME ==> s.linkName in r
  {
    r := symbols;
    var runtime := RUNTIME;
    for k := 0 to |runtime|
      invariant SymbolsBuilt(owned, closure, r)
      invariant forall j :: 0 <= j < k ==> runtime[j].linkName in r
    {
      if runtime[k].linkName !in r {
        BuiltWithRuntime(owned, closure, r, runtime[k]);
        r := r[runtime[k].linkName := runtime[k]];
      }
    }
  }

  lemma BuiltOneMore(owned: map<string, Symbol>, closure: seq<Artifact>, a: Artifact, before: map<string, Symbol>,
                     after: map<string, Symbol>)
    requires SymbolsBuilt(owned, closure, before) && Extended(before, after, a)
    requires forall n :: n in before && n !in owned ==> Inherited(closure, n, before[n])
    ensures SymbolsBuilt(owned, closure + [a], after)
    ensures forall n :: n in after && n !in owned ==> Inherited(closure + [a], n, after[n])
  {
    forall n | n in after && n !in owned ensures Inherited(closure + [a], n, after[n]) {
      if n in before {
        assert Inherited(closure, n, before[n]);
        var b :| b in closure && Defines(b, n) && before[n] == b.symbols[n].(role := Requirement);
        assert b in closure + [a];
      } else {
        assert a in closure + [a];
      }
    }
  }

  lemma BuiltWithRuntime(owned: map<string, Symbol>, closure: seq<Artifact>, symbols: map<string, Symbol>, s: Symbol)
    requires SymbolsBuilt(owned, closure, symbols) && s.kind.RuntimeSymbol? && s.linkName !in symbols
    ensures SymbolsBuilt(owned, closure, symbols[s.linkName := s])
  {
  }

  /** The definitions of some artifacts, no name of which has two owners. */
  ghost predicate Gathered(artifacts: seq<Artifact>, definitions: map<string, Symbol>) {
    && (forall i, j, n :: 0 <= i < j < |artifacts| && Defines(artifacts[i], n) ==> !Defines(artifacts[j], n))
    && (forall n :: n in definitions ==> exists a :: a in artifacts && Defines(a, n) && definitions[n] == a.symbols[n])
    && (forall a, n :: a in artifacts && Defines(a, n) ==> n in definitions && definitions[n] == a.symbols[n])
  }

  /** The definitions after one more artifact. */
  ghost predicate Joined(before: map<string, Symbol>, after: map<string, Symbol>, a: Artifact) {
    && (forall n :: n in before ==> n in after && after[n] == before[n])
    && (forall n :: Defines(a, n) ==> n in after && after[n] == a.symbols[n])
    && (forall n :: n in after ==> n in before || Defines(a, n))
  }

  method AddDefinitions(definitions: map<string, Symbol>, a: Artifact) returns (ok: bool, r: map<string, Symbol>)
    ensures ok <==> forall n :: Defines(a, n) ==> n !in definitions
    ensures ok ==> Joined(definitions, r, a)
  {
    r := definitions;
    var left := a.symbols.Keys;
    while left != {}
      invariant left <= a.symbols.Keys
      invariant forall n :: n in definitions ==> n in r && r[n] == definitions[n]
      invariant forall n :: Defines(a, n) && n !in left ==> n !in definitions && n in r && r[n] == a.symbols[n]
      invariant forall n :: n in r ==> n in definitions || (Defines(a, n) && n !in left)
      decreases |left|
    {
      var n :| n in left;
      left := left - {n};
      if a.symbols[n].role.Definition? {
        if n in r {
          assert Defines(a, n) && n in definitions;
          return false, r;
        }
        r := r[n := a.symbols[n]];
      }
    }
    ok := true;
  }

  ghost predicate Resolves(definitions: map<string, Symbol>, a: Artifact) {
    forall n :: n in a.symbols && Required(a.symbols[n]) ==> n in definitions && Matches(definitions[n], a.symbols[n])
  }

  method CheckRequirements(definitions: map<string, Symbol>, a: Artifact) returns (ok: bool)
    ensures ok <==> Resolves(definitions, a)
  {
    var left := a.symbols.Keys;
    while left != {}
      invariant left <= a.symbols.Keys
      invariant forall n :: n in a.symbols && n !in left && Required(a.symbols[n]) ==>
                n in definitions && Matches(definitions[n], a.symbols[n])
      decreases |left|
    {
      var n :| n in left;
      left := left - {n};
      var s := a.symbols[n];
      if !s.role.Requirement? || s.kind.RuntimeSymbol? { continue; }
      if !(n in definitions && Matches(definitions[n], s)) { return false; }
    }
    ok := true;
  }

  lemma GatheredOneMore(artifacts: seq<Artifact>, a: Artifact, before: map<string, Symbol>, after: map<string, Symbol>)
    requires Gathered(artifacts, before) && Joined(before, after, a) && forall n :: Defines(a, n) ==> n !in before
    ensures Gathered(artifacts + [a], after)
  {
    var all := artifacts + [a];
    forall i, j, n | 0 <= i < j < |all| && Defines(all[i], n) ensures !Defines(all[j], n) {
      assert all[i] == artifacts[i] && artifacts[i] in artifacts;
    }
    forall n | n in after ensures exists b :: b in all && Defines(b, n) && after[n] == b.symbols[n] {
      if n in before {
        var b :| b in artifacts && Defines(b, n) && before[n] == b.symbols[n];
        assert b in all;
      } else {
        assert a in all;
      }
    }
  }

  /** A name that is already defined is defined by an earlier artifact. */
  lemma DuplicateFound(artifacts: seq<Artifact>, k: nat, definitions: map<string, Symbol>, n: string)
    requires k < |artifacts| && Gathered(artifacts[..k], definitions) && n in definitions && Defines(artifacts[k], n)
    ensures !LinksCleanly(artifacts)
  {
    var a :| a in artifacts[..k] && Defines(a, n) && definitions[n] == a.symbols[n];
    var i :| 0 <= i < k && artifacts[i] == a;
    assert Defines(artifacts[i], n) && Defines(artifacts[k], n);
  }

  /** With the definitions gathered, the requirements decide. */
  lemma GatheredDecides(artifacts: seq<Artifact>, definitions: map<string, Symbol>)
    requires Gathered(artifacts, definitions)
    requires forall a, n :: a in artifacts && n in a.symbols ==> a.symbols[n].linkName == n
    ensures LinksCleanly(artifacts) <==> forall a :: a in artifacts ==> Resolves(definitions, a)
  {
    forall a, n | a in artifacts && n in a.symbols && Required(a.symbols[n])
      ensures Satisfied(artifacts, a.symbols[n]) <==> n in definitions && Matches(definitions[n], a.symbols[n])
    {
      if n in definitions {
        var b :| b in artifacts && Defines(b, n) && definitions[n] == b.symbols[n];
      }
    }
  }

  /** Accepts exactly the sets that link cleanly. */
  method ValidateLinkSymbols(artifacts: seq<Artifact>) returns (ok: bool)
    requires forall a, n :: a in artifacts && n in a.symbols ==> a.symbols[n].linkName == n
    ensures ok <==> LinksCleanly(artifacts)
  {
    var definitions := map[];
    for i := 0 to |artifacts|
      invariant Gathered(artifacts[..i], definitions)
    {
      ghost var before := definitions;
      var unused;
      unused, definitions := AddDefinitions(definitions, artifacts[i]);
      if !unused {
        ghost var n :| Defines(artifacts[i], n) && n in before;
        DuplicateFound(artifacts, i, before, n);
        return false;
      }
      GatheredOneMore(artifacts[..i], artifacts[i], before, definitions);
      assert artifacts[..i + 1] == artifacts[..i] + [artifacts[i]];
    }
    assert artifacts[..|artifacts|] == artifacts;
    GatheredDecides(artifacts, definitions);
    for i := 0 to |artifacts|
      invariant forall k :: 0 <= k < i ==> Resolves(definitions, artifacts[k])
    {
      var resolved := CheckRequirements(definitions, artifacts[i]);
      if !resolved {
        assert artifacts[i] in artifacts;
        return false;
      }
    }
    ok := true;
  }

  /** Linking compiled artifacts: the symbol check says whether they link cleanly. Once the closure is accepted it
      fails only if two artifacts in play share a digest. */
  method Link(digest: DigestOf, views: ViewCheck, builds: seq<Build>, roots: seq<Text>)
    returns (accepted: bool, linked: bool)
    requires forall i :: 0 <= i < |builds| ==> Proper(digest, builds[i])
    ensures accepted <==> Accepted(digest, Artifacts(builds), roots) && views(Artifacts(builds))
    ensures linked <==> LinksCleanly(Artifacts(builds))
    ensures accepted && CollisionFree(digest, InPlay(builds)) ==> linked
  {
    var artifacts := Artifacts(builds);
    NamesAreKeys(digest, builds);
    accepted := ValidateClosure(digest, views, artifacts, roots);
    linked := ValidateLinkSymbols(artifacts);
    if accepted && CollisionFree(digest, InPlay(builds)) {
      ClosedLinking(digest, builds, roots);
    }
  }

  lemma NamesAreKeys(digest: DigestOf, builds: seq<Build>)
    requires forall i :: 0 <= i < |builds| ==> Proper(digest, builds[i])
    ensures forall a, n :: a in Artifacts(builds) && n in a.symbols ==> a.symbols[n].linkName == n
  {
    forall a, n | a in Artifacts(builds) && n in a.symbols ensures a.symbols[n].linkName == n {
      var i :| 0 <= i < |builds| && builds[i].artifact == a;
      assert Proper(digest, builds[i]);
      assert VerifiedSymbol(a.package, n, a.symbols[n]);
    }
  }
}
