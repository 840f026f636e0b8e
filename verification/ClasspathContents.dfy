/**
  What ends up on the classpath (`launch/classpath.rs`): which libraries contribute a jar, in which
  order, and which of two versions of one artifact.
  */
module ClasspathContents {
  import opened Wrappers
  import opened MavenVersions
  import opened Sequences
  import opened ClasspathAssembly
  import opened VersionOrder

  // ---------- which libraries contribute ----------

  /** A library has a jar to load unless it is ruled out, replaced, or consists of natives or a classifier. */
  lemma {:induction false} CandidatesExactly(libs: seq<Library>, n: nat, lib: Library)
    requires n <= |libs|
    ensures lib in Candidates(libs, n) <==>
      && lib in libs[..n] && lib.allowed && !lib.substituted
      && (lib.declaresArtifact || (lib.nativeJar == None && !lib.hasClassifier))
  {
    if n > 0 {
      CandidatesExactly(libs, n - 1, lib);
      assert libs[..n] == libs[..n - 1] + [libs[n - 1]];
    }
  }

  /** The native jars to unpack are those of the libraries that are neither ruled out nor replaced. */
  lemma {:induction false} NativeJarsExactly(libs: seq<Library>, n: nat, jar: Path)
    requires n <= |libs|
    ensures jar in NativeJars(libs, n) <==>
      exists lib | lib in libs[..n] :: lib.allowed && !lib.substituted && lib.nativeJar == Some(jar)
  {
    if n > 0 {
      NativeJarsExactly(libs, n - 1, jar);
      assert libs[..n] == libs[..n - 1] + [libs[n - 1]];
    }
  }

  /** The names reported as substituted are those of the allowed libraries the bundle replaces. */
  lemma {:induction false} SubstitutedExactly(libs: seq<Library>, n: nat, name: string)
    requires n <= |libs|
    ensures name in SubstitutedNames(libs, n) <==>
      exists lib | lib in libs[..n] :: lib.allowed && lib.substituted && lib.name == name
  {
    if n > 0 {
      SubstitutedExactly(libs, n - 1, name);
      assert libs[..n] == libs[..n - 1] + [libs[n - 1]];
    }
  }

  /** Both lists follow the declarations: what comes later is behind what came before. */
  lemma {:induction false} ContributionsInOrder(a: seq<Library>, b: seq<Library>, n: nat)
    requires n <= |b|
    ensures Candidates(a + b, |a| + n) == Candidates(a, |a|) + Candidates(b, n)
    ensures SubstitutedNames(a + b, |a| + n) == SubstitutedNames(a, |a|) + SubstitutedNames(b, n)
  {
    if n == 0 {
      UpToLength(a, b, |a|);
    } else {
      ContributionsInOrder(a, b, n - 1);
      assert (a + b)[|a| + n - 1] == b[n - 1];
    }
  }

  lemma {:induction false} UpToLength(a: seq<Library>, b: seq<Library>, n: nat)
    requires n <= |a|
    ensures Candidates(a + b, n) == Candidates(a, n)
    ensures SubstitutedNames(a + b, n) == SubstitutedNames(a, n)
  {
    if n > 0 { UpToLength(a, b, n - 1); }
  }

  // ---------- which version of an artifact ----------

  /** Every other candidate of its artifact is lower. */
  ghost predicate Highest(cands: seq<Library>, lib: Library, newer: Replaces) {
    forall other | other in cands && other.ga == lib.ga && other != lib :: newer(lib, other) && !newer(other, lib)
  }

  lemma HighestStep(front: seq<Library>, kept: Kept, lib: Library, top: Library, newer: Replaces)
    requires Highest(front + [lib], top, newer) && !newer(top, top)
    requires Gas(kept.libs) == FirstOccurrences(Gas(front)) && forall other | other in kept.libs :: other in front
    requires if top in front then top in kept.libs else top == lib
    ensures top in Add(kept, lib, newer).libs
  {
    var slot := SlotOfGa(kept.libs, lib.ga);
    if top in front {
      var k :| 0 <= k < |kept.libs| && kept.libs[k] == top;
      OnlySlot(kept.libs, k, top.ga, Gas(front));
      assert lib in front + [lib];
      assert Add(kept, lib, newer).libs[k] == top;
    } else if slot.Some? {
      assert kept.libs[slot.value] in front + [lib];
      assert Add(kept, lib, newer).libs[slot.value] == top;
    }
  }

  /** The highest version of an artifact is kept, wherever it is declared. */
  lemma {:induction false} HighestIsKept(cands: seq<Library>, top: Library, newer: Replaces)
    requires top in cands && Highest(cands, top, newer) && !newer(top, top)
    ensures top in Collapse(cands, newer).libs
  {
    var front, lib := cands[..|cands| - 1], cands[|cands| - 1];
    assert cands == front + [lib];
    if top in front { HighestIsKept(front, top, newer); }
    OneEntryPerArtifact(front, newer);
    var dropped, winners := EveryOtherHasANote(front, newer);
    KeptAreCandidates(front, newer, dropped);
    HighestStep(front, Collapse(front, newer), lib, top, newer);
  }

  lemma OnlyOneKept(cands: seq<Library>, newer: Replaces, x: Library, y: Library)
    requires x in Collapse(cands, newer).libs && y in Collapse(cands, newer).libs && x.ga == y.ga
    ensures x == y
  {
    var libs := Collapse(cands, newer).libs;
    OneEntryPerArtifact(cands, newer);
    var j :| 0 <= j < |libs| && libs[j] == x;
    var k :| 0 <= k < |libs| && libs[k] == y;
    OnlySlot(libs, j, x.ga, Gas(cands));
    OnlySlot(libs, k, x.ga, Gas(cands));
  }

  /** The version differs from that of `top` first in a number, which is smaller. */
  ghost predicate LowerInANumber(lib: Library, top: Library) {
    exists front, m: nat, n: nat, s, t ::
      && m < n <= 0xFFFF_FFFF_FFFF_FFFF
      && Segments(lib.version) == front + [Digits(m)] + s
      && Segments(top.version) == front + [Digits(n)] + t
  }

  lemma LowerInANumberIsOlder(lib: Library, top: Library)
    requires LowerInANumber(lib, top)
    ensures Newer(top, lib) && !Newer(lib, top)
  {
    var front, m: nat, n: nat, s, t :|
      && m < n <= 0xFFFF_FFFF_FFFF_FFFF
      && Segments(lib.version) == front + [Digits(m)] + s
      && Segments(top.version) == front + [Digits(n)] + t;
    NumberDecides(front, m, n, s, t);
  }

  /**
    Of an artifact declared several times, in any order, the library whose version has the larger number
    where the others first differ from it is on the classpath, and none of the others is kept.
    */
  lemma LargerNumberIsLoaded(libs: seq<Library>, policy: Policy, runtime: seq<Path>, clientJar: Path, top: Library)
    requires policy.collapseDuplicates && top in Candidates(libs, |libs|)
    requires forall lib | lib in Candidates(libs, |libs|) && lib.ga == top.ga && lib != top :: LowerInANumber(lib, top)
    ensures var kept := Chosen(Candidates(libs, |libs|), policy).libs;
      && top.path in Arrange(Paths(kept), runtime, clientJar, policy)
      && (forall lib | lib in kept && lib.ga == top.ga :: lib == top)
  {
    var cands := Candidates(libs, |libs|);
    var kept := Chosen(cands, policy).libs;
    forall lib | lib in cands && lib.ga == top.ga && lib != top ensures Newer(top, lib) && !Newer(lib, top) {
      LowerInANumberIsOlder(lib, top);
    }
    NewerIsAsymmetric(top, top);
    HighestIsKept(cands, top, Newer);
    var k :| 0 <= k < |kept| && kept[k] == top;
    assert Paths(kept)[k] == top.path;
    ClientJarPlace(Paths(kept), runtime, clientJar, policy);
    forall lib | lib in kept && lib.ga == top.ga ensures lib == top { OnlyOneKept(cands, Newer, lib, top); }
  }

  /** Two versions of one artifact, `1.9` and `1.10` say, in either order of declaration. */
  lemma LargerOfTwoIsLoaded(x: Library, y: Library, between: seq<Library>, policy: Policy, runtime: seq<Path>,
      clientJar: Path, swapped: bool)
    requires policy.collapseDuplicates && x.ga == y.ga && LowerInANumber(x, y)
    requires x in Candidates([x], 1) && y in Candidates([y], 1)
    requires forall lib | lib in between :: lib.ga != y.ga
    ensures var libs := if swapped then [y] + between + [x] else [x] + between + [y];
      var kept := Chosen(Candidates(libs, |libs|), policy).libs;
      && y.path in Arrange(Paths(kept), runtime, clientJar, policy) && x !in kept
  {
    var libs := if swapped then [y] + between + [x] else [x] + between + [y];
    assert libs[..|libs|] == libs && [x][..1] == [x] && [y][..1] == [y];
    CandidatesExactly([x], 1, x);
    CandidatesExactly([y], 1, y);
    forall lib ensures lib in Candidates(libs, |libs|) ==> lib in libs { CandidatesExactly(libs, |libs|, lib); }
    CandidatesExactly(libs, |libs|, y);
    LowerInANumberIsOlder(x, y);
    NewerIsAsymmetric(y, y);
    LargerNumberIsLoaded(libs, policy, runtime, clientJar, y);
  }

  // ---------- which paths, and in which order ----------

  lemma PathsOf(libs: seq<Library>, path: Path)
    ensures path in Paths(libs) <==> exists lib | lib in libs :: lib.path == path
  {
    if path in Paths(libs) {
      var k :| 0 <= k < |libs| && Paths(libs)[k] == path;
      assert libs[k] in libs;
    }
    if lib :| lib in libs && lib.path == path {
      var k :| 0 <= k < |libs| && libs[k] == lib;
      assert Paths(libs)[k] == path;
    }
  }

  /** Without collapsing: the jars of the contributing libraries, the runtime's and the client's, and no other. */
  lemma PathsWithoutCollapsing(libs: seq<Library>, policy: Policy, runtime: seq<Path>, clientJar: Path, path: Path)
    requires !policy.collapseDuplicates
    ensures path in Arrange(Paths(Chosen(Candidates(libs, |libs|), policy).libs), runtime, clientJar, policy) <==>
      || path == clientJar || path in runtime
      || exists lib | lib in libs && lib.path == path ::
        && lib.allowed && !lib.substituted
        && (lib.declaresArtifact || (lib.nativeJar == None && !lib.hasClassifier))
  {
    var cands := Candidates(libs, |libs|);
    assert libs[..|libs|] == libs;
    ClientJarPlace(Paths(cands), runtime, clientJar, policy);
    PathsOf(cands, path);
    forall lib ensures lib in cands <==>
      && lib in libs && lib.allowed && !lib.substituted
      && (lib.declaresArtifact || (lib.nativeJar == None && !lib.hasClassifier))
    {
      CandidatesExactly(libs, |libs|, lib);
    }
  }

  lemma {:induction false} PrefixFirst<T>(a: seq<T>, b: seq<T>)
    ensures FirstOccurrences(a) <= FirstOccurrences(a + b)
  {
    if b == [] {
      assert a + b == a;
    } else {
      PrefixFirst(a, b[..|b| - 1]);
      assert a + b == (a + b[..|b| - 1]) + [b[|b| - 1]];
      FirstOccurrencesStep(a + b[..|b| - 1], b[|b| - 1]);
    }
  }

  /** The libraries in their order, then what the runtime adds; the client jar in front of both or behind them. */
  lemma LibrariesBeforeRuntime(libraries: seq<Path>, runtime: seq<Path>, clientJar: Path, policy: Policy)
    ensures var entries := Arrange(libraries, runtime, clientJar, policy);
      var front := if policy.clientJarLast then libraries else [clientJar] + libraries;
      FirstOccurrences(front) <= FirstOccurrences(front + runtime) <= entries
  {
    var front := if policy.clientJarLast then libraries else [clientJar] + libraries;
    var behind := if policy.clientJarLast then [clientJar] else [];
    PrefixFirst(front, runtime);
    PrefixFirst(front + runtime, behind);
    ArrangedAs(libraries, runtime, clientJar, policy, front + runtime + behind);
  }

  lemma ArrangedAs(libraries: seq<Path>, runtime: seq<Path>, clientJar: Path, policy: Policy, all: seq<Path>)
    requires policy.clientJarLast ==> all == libraries + runtime + [clientJar]
    requires !policy.clientJarLast ==> all == [clientJar] + libraries + runtime + []
    ensures Arrange(libraries, runtime, clientJar, policy) == FirstOccurrences(all)
  {
    if !policy.clientJarLast { assert all == [clientJar] + (libraries + runtime); }
  }
}
