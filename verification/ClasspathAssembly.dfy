/**
  Classpath assembly (`launch/classpath.rs`): the one-pass "keep the highest version" over an index
  map, and the order of the final entries.
  */
module ClasspathAssembly {
  import opened Wrappers
  import opened MavenVersions
  import opened Sequences

  type Path = string

  /** A library with everything `build` asks of it already answered for the platform and policy. */
  datatype Library = Library(
    name: string,
    allowed: bool,
    substituted: bool,
    nativeJar: Option<Path>,
    declaresArtifact: bool,
    hasClassifier: bool,
    ga: string,
    version: string,
    path: Path)

  datatype Policy = Policy(collapseDuplicates: bool, clientJarLast: bool)

  datatype Classpath = Classpath(
    entries: seq<Path>,
    nativeJars: set<Path>,
    substituted: seq<string>,
    collapsed: seq<string>)

  // ---------- which libraries have a main jar on the classpath ----------

  predicate Considered(lib: Library) {
    lib.allowed && !lib.substituted
  }

  predicate HasMainJar(lib: Library) {
    Considered(lib) && (lib.declaresArtifact || (lib.nativeJar.None? && !lib.hasClassifier))
  }

  function Candidates(libs: seq<Library>, n: nat): seq<Library>
    requires n <= |libs|
  {
    if n == 0 then []
    else if HasMainJar(libs[n - 1]) then Candidates(libs, n - 1) + [libs[n - 1]]
    else Candidates(libs, n - 1)
  }

  function NativeJars(libs: seq<Library>, n: nat): set<Path>
    requires n <= |libs|
  {
    if n == 0 then {}
    else
      NativeJars(libs, n - 1)
      + (if Considered(libs[n - 1]) && libs[n - 1].nativeJar.Some? then {libs[n - 1].nativeJar.value} else {})
  }

  function SubstitutedNames(libs: seq<Library>, n: nat): seq<string>
    requires n <= |libs|
  {
    if n == 0 then []
    else
      SubstitutedNames(libs, n - 1)
      + (if libs[n - 1].allowed && libs[n - 1].substituted then [libs[n - 1].name] else [])
  }

  // ---------- keeping the highest of each group:artifact ----------

  predicate Newer(a: Library, b: Library) {
    Compare(Segments(a.version), Segments(b.version)) == Greater
  }

  function GaOf(lib: Library): string { lib.ga }

  function SlotOfGa(libs: seq<Library>, ga: string): Option<nat> { LastWithKey(libs, GaOf, ga) }

  datatype Kept = Kept(libs: seq<Library>, notes: seq<string>)

  function Note(ga: string, lower: string, higher: string): string {
    ga + ":" + lower + " (superseded by " + higher + ")"
  }

  /** Which of two libraries replaces the other. */
  type Replaces = (Library, Library) -> bool

  function Add(kept: Kept, lib: Library, newer: Replaces): Kept {
    match SlotOfGa(kept.libs, lib.ga)
    case None => Kept(kept.libs + [lib], kept.notes)
    case Some(i) =>
      if newer(lib, kept.libs[i]) then
        Kept(kept.libs[i := lib], kept.notes + [Note(lib.ga, kept.libs[i].version, lib.version)])
      else Kept(kept.libs, kept.notes + [Note(lib.ga, lib.version, kept.libs[i].version)])
  }

  function Collapse(cands: seq<Library>, newer: Replaces): Kept {
    if cands == [] then Kept([], []) else Add(Collapse(cands[..|cands| - 1], newer), cands[|cands| - 1], newer)
  }

  /** The candidates after the policy: collapsed, or as they come. */
  function Chosen(cands: seq<Library>, policy: Policy): Kept {
    if policy.collapseDuplicates then Collapse(cands, Newer) else Kept(cands, [])
  }

  function Paths(libs: seq<Library>): seq<Path> {
    seq(|libs|, k requires 0 <= k < |libs| => libs[k].path)
  }

  function Gas(libs: seq<Library>): seq<string> {
    seq(|libs|, k requires 0 <= k < |libs| => libs[k].ga)
  }

  // ---------- the builder ----------

  function Arrange(libraries: seq<Path>, extra: seq<Path>, clientJar: Path, policy: Policy): seq<Path> {
    FirstOccurrences(
      if policy.clientJarLast then libraries + extra + [clientJar] else [clientJar] + (libraries + extra))
  }

  /** The index map knows exactly the kept libraries, their slots and their versions. */
  ghost predicate Coupled(seen: map<string, (nat, string)>, entries: seq<Path>, libs: seq<Library>) {
    && entries == Paths(libs)
    && (forall k | 0 <= k < |libs| :: libs[k].ga in seen && seen[libs[k].ga] == (k, libs[k].version))
    && (forall ga | ga in seen :: seen[ga].0 < |libs| && libs[seen[ga].0].ga == ga)
  }

  lemma CoupledSlot(seen: map<string, (nat, string)>, entries: seq<Path>, libs: seq<Library>, ga: string)
    requires Coupled(seen, entries, libs)
    ensures SlotOfGa(libs, ga) == if ga in seen then Some(seen[ga].0) else None
  {
  }

  /** One pass of the loop body, for a library whose main jar goes on the classpath. */
  lemma CoupledStep(seen: map<string, (nat, string)>, entries: seq<Path>, kept: Kept, lib: Library)
    requires Coupled(seen, entries, kept.libs)
    ensures lib.ga !in seen ==>
      && Coupled(seen[lib.ga := (|entries|, lib.version)], entries + [lib.path], Add(kept, lib, Newer).libs)
      && Add(kept, lib, Newer).notes == kept.notes
    ensures lib.ga in seen ==>
      var (idx, previous) := seen[lib.ga];
      && idx < |entries|
      && (Compare(Segments(lib.version), Segments(previous)) == Greater ==>
        && Coupled(seen[lib.ga := (idx, lib.version)], entries[idx := lib.path], Add(kept, lib, Newer).libs)
        && Add(kept, lib, Newer).notes == kept.notes + [Note(lib.ga, previous, lib.version)])
      && (Compare(Segments(lib.version), Segments(previous)) != Greater ==>
        && Coupled(seen, entries, Add(kept, lib, Newer).libs)
        && Add(kept, lib, Newer).notes == kept.notes + [Note(lib.ga, lib.version, previous)])
  {
    CoupledSlot(seen, entries, kept.libs, lib.ga);
    if lib.ga !in seen {
      assert Paths(kept.libs + [lib]) == Paths(kept.libs) + [lib.path];
    } else {
      var idx := seen[lib.ga].0;
      assert Paths(kept.libs[idx := lib]) == Paths(kept.libs)[idx := lib.path];
    }
  }

  lemma CollapseStep(cands: seq<Library>, lib: Library, newer: Replaces)
    ensures Collapse(cands + [lib], newer) == Add(Collapse(cands, newer), lib, newer)
  {
    assert (cands + [lib])[..|cands|] == cands;
  }

  /** What the loop holds after the first `n` libraries. */
  ghost predicate BuiltUpTo(libs: seq<Library>, n: nat, policy: Policy,
      seen: map<string, (nat, string)>, entries: seq<Path>, collapsed: seq<string>)
    requires n <= |libs|
  {
    var cands := Candidates(libs, n);
    if policy.collapseDuplicates then
      Coupled(seen, entries, Collapse(cands, Newer).libs) && collapsed == Collapse(cands, Newer).notes
    else entries == Paths(cands) && collapsed == []
  }

  lemma SkippedLibrary(libs: seq<Library>, n: nat, policy: Policy,
      seen: map<string, (nat, string)>, entries: seq<Path>, collapsed: seq<string>)
    requires n < |libs| && BuiltUpTo(libs, n, policy, seen, entries, collapsed)
    ensures !HasMainJar(libs[n]) ==> BuiltUpTo(libs, n + 1, policy, seen, entries, collapsed)
  {
  }

  method AddLibrary(policy: Policy, lib: Library, seen: map<string, (nat, string)>, entries: seq<Path>,
      collapsed: seq<string>, ghost libs: seq<Library>, ghost n: nat)
    returns (seen': map<string, (nat, string)>, entries': seq<Path>, collapsed': seq<string>)
    requires n < |libs| && lib == libs[n] && HasMainJar(lib)
    requires BuiltUpTo(libs, n, policy, seen, entries, collapsed)
    ensures BuiltUpTo(libs, n + 1, policy, seen', entries', collapsed')
  {
    seen', entries', collapsed' := seen, entries, collapsed;
    ghost var cands := Candidates(libs, n);
    if policy.collapseDuplicates {
      CoupledStep(seen, entries, Collapse(cands, Newer), lib);
      CollapseStep(cands, lib, Newer);
      if lib.ga in seen {
        var (idx, previous) := seen[lib.ga];
        var order := CompareMavenVersions(lib.version, previous);
        if order == Greater {
          collapsed' := collapsed + [Note(lib.ga, previous, lib.version)];
          entries' := entries[idx := lib.path];
          seen' := seen[lib.ga := (idx, lib.version)];
        } else {
          collapsed' := collapsed + [Note(lib.ga, lib.version, previous)];
        }
        return;
      }
      seen' := seen[lib.ga := (|entries|, lib.version)];
    }
    assert Paths(cands + [lib]) == Paths(cands) + [lib.path];
    entries' := entries + [lib.path];
  }

  /** `ClasspathBuilder::build`; `runtime` is what the bundled runtime contributes, or why it cannot. */
  method Build(policy: Policy, libs: seq<Library>, runtime: Result<seq<Path>, string>, clientJar: Path)
    returns (r: Result<Classpath, string>)
    ensures r.Success? <==> runtime.Success?
    ensures runtime.Failure? ==> r == Failure(runtime.error)
    ensures r.Success? ==>
      var kept := Chosen(Candidates(libs, |libs|), policy);
      && r.value.entries == Arrange(Paths(kept.libs), runtime.value, clientJar, policy)
      && r.value.nativeJars == NativeJars(libs, |libs|)
      && r.value.substituted == SubstitutedNames(libs, |libs|)
      && r.value.collapsed == kept.notes
  {
    var entries: seq<Path>, collapsed: seq<string>, substituted: seq<string> := [], [], [];
    var nativeJars: set<Path> := {};
    var seen: map<string, (nat, string)> := map[];
    for i := 0 to |libs|
      invariant BuiltUpTo(libs, i, policy, seen, entries, collapsed)
      invariant substituted == SubstitutedNames(libs, i)
      invariant nativeJars == NativeJars(libs, i)
    {
      var lib := libs[i];
      SkippedLibrary(libs, i, policy, seen, entries, collapsed);
      if !lib.allowed { continue; }
      if lib.substituted {
        substituted := substituted + [lib.name];
        continue;
      }
      if lib.nativeJar.Some? {
        nativeJars := nativeJars + {lib.nativeJar.value};
        if !lib.declaresArtifact { continue; }
      }
      if lib.hasClassifier && !lib.declaresArtifact { continue; }
      seen, entries, collapsed := AddLibrary(policy, lib, seen, entries, collapsed, libs, i);
    }
    if runtime.Failure? {
      return Failure(runtime.error);
    }
    entries := entries + runtime.value;
    if policy.clientJarLast {
      entries := entries + [clientJar];
    } else {
      entries := [clientJar] + entries;
    }
    var deduped := Deduplicate(entries);
    r := Success(Classpath(deduped, nativeJars, substituted, collapsed));
  }

  method Deduplicate(entries: seq<Path>) returns (deduped: seq<Path>)
    ensures deduped == FirstOccurrences(entries)
  {
    deduped := [];
    for i := 0 to |entries|
      invariant deduped == FirstOccurrences(entries[..i])
    {
      assert entries[..i + 1] == entries[..i] + [entries[i]];
      FirstOccurrencesStep(entries[..i], entries[i]);
      SameMembers(entries[..i], entries[i]);
      if entries[i] !in deduped { deduped := deduped + [entries[i]]; }
    }
    assert entries[..|entries|] == entries;
  }

  // ---------- what collapsing keeps ----------

  ghost predicate OneEntryEach(cands: seq<Library>, newer: Replaces) {
    Gas(Collapse(cands, newer).libs) == FirstOccurrences(Gas(cands))
  }

  /** One entry per group:artifact, in the slot of its first occurrence. */
  lemma {:induction false} OneEntryPerArtifact(cands: seq<Library>, newer: Replaces)
    ensures OneEntryEach(cands, newer)
  {
    if cands == [] {
      assert Gas([]) == [];
    } else {
      var front, lib := cands[..|cands| - 1], cands[|cands| - 1];
      assert cands == front + [lib];
      OneEntryPerArtifact(front, newer);
      OneEntryStep(front, lib, newer);
    }
  }

  lemma GasAppend(front: seq<Library>, lib: Library)
    ensures Gas(front + [lib]) == Gas(front) + [lib.ga]
  {
  }

  lemma OneEntryStep(front: seq<Library>, lib: Library, newer: Replaces)
    requires OneEntryEach(front, newer)
    ensures OneEntryEach(front + [lib], newer)
  {
    GasAppend(front, lib);
    CollapseStep(front, lib, newer);
    AddedGas(Collapse(front, newer), lib, newer);
    FirstOccurrencesStep(Gas(front), lib.ga);
    SameMembers(Gas(front), lib.ga);
  }

  /** Note `k` says that `dropped[k]` gave way to `winners[k]`, another candidate of its artifact. */
  ghost predicate NotesTell(cands: seq<Library>, notes: seq<string>, dropped: seq<Library>, winners: seq<Library>, newer: Replaces) {
    && |notes| == |dropped| == |winners|
    && forall k | 0 <= k < |notes| :: GaveWay(cands, notes[k], dropped[k], winners[k], newer)
  }

  ghost predicate GaveWay(cands: seq<Library>, note: string, lower: Library, higher: Library, newer: Replaces) {
    && higher in cands && lower.ga == higher.ga
    && note == lower.ga + ":" + lower.version + " (superseded by " + higher.version + ")"
    && (newer(higher, lower) || !newer(lower, higher))
  }

  /** Nothing is lost: the entries and the libraries the notes tell of are the candidates, one for one. */
  lemma {:induction false} EveryOtherHasANote(cands: seq<Library>, newer: Replaces)
    returns (dropped: seq<Library>, winners: seq<Library>)
    ensures NotesTell(cands, Collapse(cands, newer).notes, dropped, winners, newer)
    ensures multiset(Collapse(cands, newer).libs) + multiset(dropped) == multiset(cands)
  {
    if cands == [] {
      dropped, winners := [], [];
    } else {
      var front, lib := cands[..|cands| - 1], cands[|cands| - 1];
      assert cands == front + [lib];
      dropped, winners := EveryOtherHasANote(front, newer);
      KeptAreCandidates(front, newer, dropped);
      dropped, winners := EntryOrNote(front, lib, Collapse(front, newer), newer, dropped, winners);
    }
  }

  lemma EntryOrNote(front: seq<Library>, lib: Library, kept: Kept, newer: Replaces,
                    dropped: seq<Library>, winners: seq<Library>)
    returns (dropped': seq<Library>, winners': seq<Library>)
    requires NotesTell(front, kept.notes, dropped, winners, newer)
    requires forall other | other in kept.libs :: other in front
    ensures NotesTell(front + [lib], Add(kept, lib, newer).notes, dropped', winners', newer)
    ensures multiset(Add(kept, lib, newer).libs) + multiset(dropped') ==
      multiset(kept.libs) + multiset(dropped) + multiset{lib}
  {
    match SlotOfGa(kept.libs, lib.ga)
    case None => dropped', winners' := dropped, winners;
    case Some(i) =>
      var other := kept.libs[i];
      if newer(lib, other) {
        OneMoreNote(front, lib, kept.notes, dropped, winners, newer, other, lib);
        dropped', winners' := dropped + [other], winners + [lib];
      } else {
        OneMoreNote(front, lib, kept.notes, dropped, winners, newer, lib, other);
        dropped', winners' := dropped + [lib], winners + [other];
      }
  }

  lemma OneMoreNote(front: seq<Library>, lib: Library, notes: seq<string>, dropped: seq<Library>,
                    winners: seq<Library>, newer: Replaces, lower: Library, higher: Library)
    requires NotesTell(front, notes, dropped, winners, newer)
    requires (higher in front || higher == lib) && lower.ga == higher.ga && (newer(higher, lower) || !newer(lower, higher))
    ensures NotesTell(front + [lib], notes + [Note(lower.ga, lower.version, higher.version)],
      dropped + [lower], winners + [higher], newer)
  {
    var notes' := notes + [Note(lower.ga, lower.version, higher.version)];
    forall k | 0 <= k < |notes'|
      ensures GaveWay(front + [lib], notes'[k], (dropped + [lower])[k], (winners + [higher])[k], newer)
    {
      if k < |notes| { assert GaveWay(front, notes[k], dropped[k], winners[k], newer); }
    }
  }

  lemma KeptAreCandidates(cands: seq<Library>, newer: Replaces, dropped: seq<Library>)
    requires multiset(Collapse(cands, newer).libs) + multiset(dropped) == multiset(cands)
    ensures forall lib | lib in Collapse(cands, newer).libs :: lib in cands
  {
    forall lib | lib in Collapse(cands, newer).libs ensures lib in cands {
      assert lib in multiset(Collapse(cands, newer).libs) && lib in multiset(cands);
    }
  }

  lemma GaAt(libs: seq<Library>, ga: string)
    ensures ga in Gas(libs) <==> SlotOfGa(libs, ga).Some?
  {
    var slot := SlotOfGa(libs, ga);
    if slot.Some? { assert Gas(libs)[slot.value] == ga; }
  }

  lemma AddedGas(kept: Kept, lib: Library, newer: Replaces)
    ensures Gas(Add(kept, lib, newer).libs) ==
      if lib.ga in Gas(kept.libs) then Gas(kept.libs) else Gas(kept.libs) + [lib.ga]
  {
    GaAt(kept.libs, lib.ga);
  }

  /** The relation behaves as "strictly higher" in a total preorder of these libraries. */
  ghost predicate Orders(newer: Replaces, cands: seq<Library>) {
    && (forall x | x in cands :: !newer(x, x))
    && (forall x, y | x in cands && y in cands && newer(x, y) :: !newer(y, x))
    && (forall x, y, z | x in cands && y in cands && z in cands && newer(x, y) && !newer(z, y) :: newer(x, z))
  }

  /** Candidate `i` is the first of the highest versions of its group:artifact. */
  ghost predicate FirstHighest(cands: seq<Library>, i: nat, newer: Replaces) {
    && i < |cands|
    && (forall j | 0 <= j < |cands| && cands[j].ga == cands[i].ga :: !newer(cands[j], cands[i]))
    && (forall j | 0 <= j < i && cands[j].ga == cands[i].ga :: newer(cands[i], cands[j]))
  }

  ghost predicate Survives(cands: seq<Library>, lib: Library, newer: Replaces) {
    exists i: nat :: FirstHighest(cands, i, newer) && cands[i] == lib
  }

  /** How one more candidate leaves a survivor: in place, or replaced by a newer one. */
  lemma SurvivorStep(front: seq<Library>, kept: Library, lib: Library, newer: Replaces)
    requires Survives(front, kept, newer) && Orders(newer, front + [lib])
    ensures kept.ga != lib.ga || !newer(lib, kept) ==> Survives(front + [lib], kept, newer)
    ensures kept.ga == lib.ga && newer(lib, kept) ==> Survives(front + [lib], lib, newer)
  {
    var cands := front + [lib];
    var i: nat :| FirstHighest(front, i, newer) && front[i] == kept;
    if kept.ga != lib.ga || !newer(lib, kept) {
      assert FirstHighest(cands, i, newer);
    } else {
      forall j | 0 <= j < |front| && front[j].ga == lib.ga ensures newer(lib, front[j]) {
        assert front[j] in cands && lib in cands && kept in cands;
      }
      forall j | 0 <= j < |cands| && cands[j].ga == lib.ga ensures !newer(cands[j], lib) {
        assert cands[j] in cands;
        if j < |front| { assert newer(lib, front[j]); }
      }
      assert FirstHighest(cands, |front|, newer);
    }
  }

  lemma NewArtifact(front: seq<Library>, lib: Library, newer: Replaces)
    requires lib.ga !in Gas(front) && Orders(newer, front + [lib])
    ensures Survives(front + [lib], lib, newer)
  {
    forall k | 0 <= k < |front| ensures front[k].ga != lib.ga { assert Gas(front)[k] == front[k].ga; }
    assert lib in front + [lib];
    assert FirstHighest(front + [lib], |front|, newer);
  }

  ghost predicate AllSurvive(cands: seq<Library>, libs: seq<Library>, newer: Replaces) {
    forall k | 0 <= k < |libs| :: Survives(cands, libs[k], newer)
  }

  lemma AllSurviveStep(front: seq<Library>, lib: Library, kept: Kept, newer: Replaces)
    requires Orders(newer, front + [lib]) && AllSurvive(front, kept.libs, newer)
    requires Gas(kept.libs) == FirstOccurrences(Gas(front))
    ensures AllSurvive(front + [lib], Add(kept, lib, newer).libs, newer)
  {
    var next := Add(kept, lib, newer).libs;
    GaAt(kept.libs, lib.ga);
    SameMembers(Gas(front), lib.ga);
    forall k | 0 <= k < |next| ensures Survives(front + [lib], next[k], newer) {
      if k < |kept.libs| {
        assert Survives(front, kept.libs[k], newer);
        SurvivorStep(front, kept.libs[k], lib, newer);
        if kept.libs[k].ga == lib.ga { OnlySlot(kept.libs, k, lib.ga, Gas(front)); }
      } else {
        NewArtifact(front, lib, newer);
      }
    }
  }

  /** Where the relation is an order, each entry kept is the first of the highest of its group:artifact. */
  lemma {:induction false} CollapseKeepsFirstHighest(cands: seq<Library>, newer: Replaces)
    requires Orders(newer, cands)
    ensures AllSurvive(cands, Collapse(cands, newer).libs, newer)
  {
    if cands != [] {
      var front, lib := cands[..|cands| - 1], cands[|cands| - 1];
      assert cands == front + [lib];
      CollapseKeepsFirstHighest(front, newer);
      OneEntryPerArtifact(front, newer);
      AllSurviveStep(front, lib, Collapse(front, newer), newer);
    }
  }

  lemma OnlySlot(libs: seq<Library>, k: nat, ga: string, gas: seq<string>)
    requires k < |libs| && libs[k].ga == ga && Gas(libs) == FirstOccurrences(gas)
    ensures SlotOfGa(libs, ga) == Some(k)
  {
    var slot := SlotOfGa(libs, ga);
    assert slot.Some?;
    var i := slot.value;
    assert Gas(libs)[i] == Gas(libs)[k] == ga;
    if i < k { var a, b := FirstOccurrencesInOrder(gas, i, k); }
    if k < i { var a, b := FirstOccurrencesInOrder(gas, k, i); }
  }

  // ---------- Maven versions ----------

  ghost predicate VersionsOver(cands: seq<Library>, words: iset<string>) {
    forall lib | lib in cands :: Over(Segments(lib.version), words)
  }

  lemma NewerIsAsymmetric(x: Library, y: Library)
    ensures !Newer(x, x) && (Newer(x, y) ==> !Newer(y, x))
  {
    Antisymmetric(Segments(x.version), Segments(x.version));
    Antisymmetric(Segments(x.version), Segments(y.version));
  }

  lemma NewerIsTransitive(x: Library, y: Library, z: Library, words: iset<string>)
    requires PrereleasesFirst(words) && Over(Segments(x.version), words)
    requires Over(Segments(y.version), words) && Over(Segments(z.version), words)
    requires Newer(x, y) && !Newer(z, y)
    ensures Newer(x, z)
  {
    var u, v, w := Segments(x.version), Segments(y.version), Segments(z.version);
    Antisymmetric(u, v);
    Antisymmetric(u, w);
    CompareTransitive(w, v, u, words);
  }

  lemma MavenOrders(cands: seq<Library>, words: iset<string>)
    requires PrereleasesFirst(words) && VersionsOver(cands, words)
    ensures Orders(Newer, cands)
  {
    forall x, y ensures !Newer(x, x) && (Newer(x, y) ==> !Newer(y, x)) { NewerIsAsymmetric(x, y); }
    forall x, y, z | x in cands && y in cands && z in cands && Newer(x, y) && !Newer(z, y) ensures Newer(x, z) {
      NewerIsTransitive(x, y, z, words);
    }
  }

  ghost predicate KeepsHighest(cands: seq<Library>, newer: Replaces) {
    var libs := Collapse(cands, newer).libs;
    forall k, j | 0 <= k < |libs| && 0 <= j < |cands| && cands[j].ga == libs[k].ga :: !newer(cands[j], libs[k])
  }

  /** Two declaration orders of the same libraries keep entries neither of which is newer. */
  lemma SurvivorsDoNotDependOnOrder(a: seq<Library>, b: seq<Library>, newer: Replaces, j: nat, k: nat)
    requires multiset(a) == multiset(b) && Orders(newer, a)
    requires j < |Collapse(a, newer).libs| && k < |Collapse(b, newer).libs|
    requires Collapse(a, newer).libs[j].ga == Collapse(b, newer).libs[k].ga
    ensures var x, y := Collapse(a, newer).libs[j], Collapse(b, newer).libs[k]; !newer(x, y) && !newer(y, x)
  {
    var x, y := Collapse(a, newer).libs[j], Collapse(b, newer).libs[k];
    SameSet(a, b);
    CollapseKeepsFirstHighest(a, newer);
    CollapseKeepsFirstHighest(b, newer);
    assert Survives(a, x, newer) && Survives(b, y, newer);
    assert x in a && y in b;
  }

  lemma SameSet<T>(a: seq<T>, b: seq<T>)
    requires multiset(a) == multiset(b)
    ensures forall x | x in a :: x in b
    ensures forall x | x in b :: x in a
  {
    forall x | x in a ensures x in b { assert x in multiset(a); }
    forall x | x in b ensures x in a { assert x in multiset(b); }
  }

  /** For Maven versions: whatever the order of declaration, the kept versions compare equal. */
  lemma KeptVersionsCompareEqual(a: seq<Library>, b: seq<Library>, words: iset<string>, j: nat, k: nat)
    requires multiset(a) == multiset(b) && PrereleasesFirst(words) && VersionsOver(a, words)
    requires j < |Collapse(a, Newer).libs| && k < |Collapse(b, Newer).libs|
    requires Collapse(a, Newer).libs[j].ga == Collapse(b, Newer).libs[k].ga
    ensures var x, y := Collapse(a, Newer).libs[j], Collapse(b, Newer).libs[k];
      Compare(Segments(x.version), Segments(y.version)) == Equal
  {
    var x, y := Collapse(a, Newer).libs[j], Collapse(b, Newer).libs[k];
    MavenOrders(a, words);
    SurvivorsDoNotDependOnOrder(a, b, Newer, j, k);
    assert !Newer(x, y) && !Newer(y, x);
    Antisymmetric(Segments(x.version), Segments(y.version));
  }

  // ---------- where collapsing does not keep a maximum ----------

  function Plain(version: string): Library {
    Library("g:a", true, false, None, true, false, "g:a", version, version)
  }

  /** `y` replaces `x`, `z` replaces `y`, and yet `x` is newer than `z`. */
  lemma CycleLosesHighest(x: Library, y: Library, z: Library, newer: Replaces)
    requires x.ga == y.ga == z.ga && newer(y, x) && newer(z, y) && newer(x, z)
    ensures !KeepsHighest([x, y, z], newer)
  {
    assert [] + [x] == [x] && [x] + [y] == [x, y] && [x, y] + [z] == [x, y, z];
    CollapseStep([], x, newer);
    CollapseStep([x], y, newer);
    CollapseStep([x, y], z, newer);
    assert Collapse([x], newer).libs == [x];
    assert Collapse([x, y], newer).libs == [y];
    assert Collapse([x, y, z], newer).libs == [z];
    assert [x, y, z][0] == x;
  }

  lemma WordsOutOfOrderLoseHighest(p: string, q: string, words: iset<string>) returns (cands: seq<Library>)
    requires Qualifiers(words) && p in words && q in words && IsPrerelease(p) && !IsPrerelease(q)
    requires Lex(p, q) != Less
    ensures VersionsOver(cands, words) && !KeepsHighest(cands, Newer)
  {
    var none, a, b := Plain(""), Plain(JoinSegments([q])), Plain(JoinSegments([p]));
    SegmentsOfJoin([q]);
    SegmentsOfJoin([p]);
    LexFlips(p, q);
    assert Segments("") == [];
    assert Compare([q], []) == Greater && Compare([p], [q]) == Greater && Compare([], [p]) == Greater;
    assert Newer(a, none) && Newer(b, a) && Newer(none, b);
    CycleLosesHighest(none, a, b, Newer);
    cands := [none, a, b];
  }

  /** Collapsing keeps a highest version of every artifact exactly where the versions are ordered. */
  lemma CollapseKeepsHighestExactly(words: iset<string>)
    requires Qualifiers(words)
    ensures (forall cands | VersionsOver(cands, words) :: KeepsHighest(cands, Newer)) <==> PrereleasesFirst(words)
  {
    if PrereleasesFirst(words) {
      forall cands: seq<Library> | VersionsOver(cands, words) ensures KeepsHighest(cands, Newer) {
        MavenOrders(cands, words);
        HighestKept(cands, Newer);
      }
    } else {
      var p, q :| p in words && q in words && IsPrerelease(p) && !IsPrerelease(q) && Lex(p, q) != Less;
      var cands := WordsOutOfOrderLoseHighest(p, q, words);
    }
  }

  lemma HighestKept(cands: seq<Library>, newer: Replaces)
    requires Orders(newer, cands)
    ensures KeepsHighest(cands, newer)
  {
    CollapseKeepsFirstHighest(cands, newer);
    var libs := Collapse(cands, newer).libs;
    forall k, j | 0 <= k < |libs| && 0 <= j < |cands| && cands[j].ga == libs[k].ga
      ensures !newer(cands[j], libs[k])
    {
      assert Survives(cands, libs[k], newer);
    }
  }

  // ---------- the arranged classpath ----------

  /** The client jar is always there: first, or last unless a library already put it earlier. */
  lemma ClientJarPlace(libraries: seq<Path>, extra: seq<Path>, clientJar: Path, policy: Policy)
    ensures var entries := Arrange(libraries, extra, clientJar, policy);
      && clientJar in entries
      && (!policy.clientJarLast ==> entries[0] == clientJar)
      && (policy.clientJarLast && clientJar !in libraries + extra ==> entries[|entries| - 1] == clientJar)
      && (forall path :: path in entries <==> path == clientJar || path in libraries || path in extra)
  {
    forall path ensures path in Arrange(libraries, extra, clientJar, policy) <==>
      path == clientJar || path in libraries || path in extra
    {
      SameMembers(if policy.clientJarLast then libraries + extra + [clientJar] else [clientJar] + (libraries + extra), path);
    }
    var all := if policy.clientJarLast then libraries + extra + [clientJar] else [clientJar] + (libraries + extra);
    if policy.clientJarLast {
      assert all[..|all| - 1] == libraries + extra;
    } else {
      HeadFirst(all);
    }
  }
}
