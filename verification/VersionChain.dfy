/**
  Version inheritance (`game/version.rs`): merging a chain of version files, and walking
  `inheritsFrom` to the root.
  */
module VersionChain {
  import opened Wrappers
  import opened Sequences

  /** A value the merge copies without looking inside. */
  type Blob = string

  datatype Library = Library(name: string, body: Blob)

  datatype Downloads = Downloads(
    client: Option<Blob>, server: Option<Blob>, clientMappings: Option<Blob>, serverMappings: Option<Blob>)

  datatype Version = Version(
    id: Option<string>, inheritsFrom: Option<string>,
    kind: Option<Blob>, assetIndex: Option<Blob>, assets: Option<Blob>,
    downloads: Downloads, client: Option<Blob>, server: Option<Blob>,
    libraries: seq<Library>,
    mainClass: Option<Blob>, minecraftArguments: Option<Blob>, arguments: Option<Blob>,
    javaVersion: Option<Blob>, logging: Option<Blob>)

  datatype Resolved = Resolved(
    id: string, kind: Option<Blob>, assetIndex: Option<Blob>, assets: Option<Blob>, downloads: Downloads,
    libraries: seq<Library>,
    mainClass: Option<Blob>, minecraftArguments: Option<Blob>, arguments: Option<Blob>,
    javaVersion: Option<Blob>, logging: Option<Blob>)

  function OrElse<T>(a: Option<T>, b: Option<T>): Option<T> {
    if a.Some? then a else b
  }

  // ---------- scalar fields ----------

  /** The field as the version nearest to the leaf that defines it has it. */
  function Nearest(chain: seq<Version>, field: Version -> Option<Blob>): Option<Blob> {
    if chain == [] then None else OrElse(field(chain[|chain| - 1]), Nearest(chain[..|chain| - 1], field))
  }

  ghost predicate NearestAt(chain: seq<Version>, field: Version -> Option<Blob>, k: nat) {
    && k < |chain|
    && field(chain[k]).Some?
    && forall j | k < j < |chain| :: field(chain[j]) == None
  }

  lemma {:induction false} NearestIsNearest(chain: seq<Version>, field: Version -> Option<Blob>)
    ensures Nearest(chain, field) == None <==> forall k | 0 <= k < |chain| :: field(chain[k]) == None
    ensures forall k: nat | NearestAt(chain, field, k) :: Nearest(chain, field) == field(chain[k])
    ensures Nearest(chain, field).Some? ==> exists k: nat :: NearestAt(chain, field, k)
  {
    if chain != [] {
      var n, front := |chain| - 1, chain[..|chain| - 1];
      NearestIsNearest(front, field);
      assert forall k | 0 <= k < n :: front[k] == chain[k];
      if field(chain[n]).Some? {
        assert NearestAt(chain, field, n);
      } else {
        forall k: nat ensures NearestAt(chain, field, k) <==> NearestAt(front, field, k) {}
        if Nearest(front, field).Some? {
          var k: nat :| NearestAt(front, field, k);
          assert NearestAt(chain, field, k);
        }
      }
    }
  }

  /** An empty id counts as absent. */
  function IdOf(v: Version): Option<string> {
    if v.id == Some("") then None else v.id
  }

  function ClientOf(v: Version): Option<Blob> {
    OrElse(v.downloads.client, v.client)
  }

  function ServerOf(v: Version): Option<Blob> {
    OrElse(v.downloads.server, v.server)
  }

  function KindOf(v: Version): Option<Blob> { v.kind }

  function AssetIndexOf(v: Version): Option<Blob> { v.assetIndex }

  function AssetsOf(v: Version): Option<Blob> { v.assets }

  function ClientMappingsOf(v: Version): Option<Blob> { v.downloads.clientMappings }

  function ServerMappingsOf(v: Version): Option<Blob> { v.downloads.serverMappings }

  function MainClassOf(v: Version): Option<Blob> { v.mainClass }

  function MinecraftArgumentsOf(v: Version): Option<Blob> { v.minecraftArguments }

  function ArgumentsOf(v: Version): Option<Blob> { v.arguments }

  function JavaVersionOf(v: Version): Option<Blob> { v.javaVersion }

  function LoggingOf(v: Version): Option<Blob> { v.logging }

  // ---------- libraries ----------

  function NameOf(lib: Library): string { lib.name }

  function IndexOf(libs: seq<Library>, name: string): Option<nat> { LastWithKey(libs, NameOf, name) }

  /** A redefinition replaces in place, a new library goes to the end. */
  function Place(libs: seq<Library>, lib: Library): seq<Library> {
    match IndexOf(libs, lib.name)
    case Some(i) => libs[i := lib]
    case None => libs + [lib]
  }

  function PlaceAll(libs: seq<Library>, more: seq<Library>): seq<Library> {
    if more == [] then libs else Place(PlaceAll(libs, more[..|more| - 1]), more[|more| - 1])
  }

  function AllLibraries(chain: seq<Version>): seq<Library> {
    if chain == [] then [] else AllLibraries(chain[..|chain| - 1]) + chain[|chain| - 1].libraries
  }

  // ---------- merging ----------

  const NOTHING := Resolved("", None, None, None, Downloads(None, None, None, None), [], None, None, None, None, None)

  /** One version on its own. */
  function Alone(v: Version): Resolved {
    Resolved(
      match IdOf(v) case Some(id) => id case None => "",
      v.kind, v.assetIndex, v.assets,
      Downloads(ClientOf(v), ServerOf(v), v.downloads.clientMappings, v.downloads.serverMappings),
      PlaceAll([], v.libraries),
      v.mainClass, v.minecraftArguments, v.arguments, v.javaVersion, v.logging)
  }

  /** `child` laid over `parent`: every value it defines wins, its libraries are placed in turn. */
  function Overlay(parent: Resolved, child: Resolved): Resolved {
    Resolved(
      if child.id != "" then child.id else parent.id,
      OrElse(child.kind, parent.kind),
      OrElse(child.assetIndex, parent.assetIndex),
      OrElse(child.assets, parent.assets),
      Downloads(
        OrElse(child.downloads.client, parent.downloads.client),
        OrElse(child.downloads.server, parent.downloads.server),
        OrElse(child.downloads.clientMappings, parent.downloads.clientMappings),
        OrElse(child.downloads.serverMappings, parent.downloads.serverMappings)),
      PlaceAll(parent.libraries, child.libraries),
      OrElse(child.mainClass, parent.mainClass),
      OrElse(child.minecraftArguments, parent.minecraftArguments),
      OrElse(child.arguments, parent.arguments),
      OrElse(child.javaVersion, parent.javaVersion),
      OrElse(child.logging, parent.logging))
  }

  /** A chain, root first: each version laid over what its ancestors give. */
  function Merge(chain: seq<Version>): Resolved {
    if chain == [] then NOTHING else Overlay(Merge(chain[..|chain| - 1]), Alone(chain[|chain| - 1]))
  }

  lemma {:induction false} PlaceAllConcat(libs: seq<Library>, a: seq<Library>, b: seq<Library>)
    ensures PlaceAll(libs, a + b) == PlaceAll(PlaceAll(libs, a), b)
  {
    if b == [] {
      assert a + b == a;
    } else {
      assert (a + b)[..|a + b| - 1] == a + b[..|b| - 1];
      PlaceAllConcat(libs, a, b[..|b| - 1]);
    }
  }

  function Names(libs: seq<Library>): seq<string> {
    seq(|libs|, k requires 0 <= k < |libs| => libs[k].name)
  }

  predicate DistinctNames(libs: seq<Library>) {
    forall j, k | 0 <= j < k < |libs| :: libs[j].name != libs[k].name
  }

  /** Placing a second definition at once undoes the first. */
  lemma PlaceTwice(libs: seq<Library>, a: Library, b: Library)
    requires a.name == b.name
    ensures Place(Place(libs, a), b) == Place(libs, b)
  {
    match IndexOf(libs, a.name)
    case Some(i) => IndexUpdated(libs, i, a, b.name);
    case None => assert (libs + [a])[..|libs|] == libs;
  }

  lemma {:induction false} IndexUpdated(libs: seq<Library>, i: nat, a: Library, name: string)
    requires i < |libs| && libs[i].name == a.name
    ensures IndexOf(libs[i := a], name) == IndexOf(libs, name)
  {
    var n := |libs| - 1;
    if i == n {
      assert libs[i := a][..n] == libs[..n];
    } else {
      assert libs[i := a][..n] == libs[..n][i := a];
      IndexUpdated(libs[..n], i, a, name);
    }
  }

  /** A redefinition of a library already present and the placing of another one commute. */
  lemma PlaceCommutes(libs: seq<Library>, a: Library, b: Library)
    requires a.name != b.name && IndexOf(libs, a.name).Some?
    ensures Place(Place(libs, a), b) == Place(Place(libs, b), a)
  {
    var i := IndexOf(libs, a.name).value;
    IndexUpdated(libs, i, a, b.name);
    match IndexOf(libs, b.name) {
      case Some(j) =>
        IndexUpdated(libs, j, b, a.name);
        assert libs[i := a][j := b] == libs[j := b][i := a];
      case None =>
        assert (libs + [b])[..|libs|] == libs;
        assert libs[i := a] + [b] == (libs + [b])[i := a];
    }
  }

  lemma {:induction false} PlacedIsThere(libs: seq<Library>, more: seq<Library>, name: string)
    requires IndexOf(more, name).Some?
    ensures IndexOf(PlaceAll(libs, more), name).Some?
  {
    var front, last := more[..|more| - 1], more[|more| - 1];
    var before := PlaceAll(libs, front);
    if last.name != name { PlacedIsThere(libs, front, name); }
    match IndexOf(before, last.name)
    case Some(i) => IndexUpdated(before, i, last, name);
    case None => assert (before + [last])[..|before|] == before;
  }

  /** Placing a list with one entry redefined is placing the list and then the redefinition. */
  lemma {:induction false} PlaceRedefined(libs: seq<Library>, more: seq<Library>, i: nat, lib: Library)
    requires DistinctNames(more) && i < |more| && more[i].name == lib.name
    ensures PlaceAll(libs, more[i := lib]) == Place(PlaceAll(libs, more), lib)
  {
    var n := |more| - 1;
    var front, last := more[..n], more[n];
    if i == n {
      assert more[i := lib][..n] == front;
      PlaceTwice(PlaceAll(libs, front), last, lib);
    } else {
      assert more[i := lib][..n] == front[i := lib];
      PlaceRedefined(libs, front, i, lib);
      assert IndexOf(front, lib.name).Some?;
      PlacedIsThere(libs, front, lib.name);
      PlaceCommutes(PlaceAll(libs, front), lib, last);
    }
  }

  lemma PlaceKeepsDistinct(libs: seq<Library>, lib: Library)
    requires DistinctNames(libs)
    ensures DistinctNames(Place(libs, lib))
  {
  }

  lemma {:induction false} PlaceAllDistinct(libs: seq<Library>, more: seq<Library>)
    requires DistinctNames(libs)
    ensures DistinctNames(PlaceAll(libs, more))
  {
    if more != [] {
      PlaceAllDistinct(libs, more[..|more| - 1]);
      PlaceKeepsDistinct(PlaceAll(libs, more[..|more| - 1]), more[|more| - 1]);
    }
  }

  /** Merging a list first and placing the result is placing the list. */
  lemma {:induction false} PlaceMerged(libs: seq<Library>, more: seq<Library>)
    ensures PlaceAll(libs, PlaceAll([], more)) == PlaceAll(libs, more)
  {
    if more != [] {
      var front, last := more[..|more| - 1], more[|more| - 1];
      var merged := PlaceAll([], front);
      PlaceMerged(libs, front);
      PlaceAllDistinct([], front);
      match IndexOf(merged, last.name)
      case Some(i) => PlaceRedefined(libs, merged, i, last);
      case None => assert (merged + [last])[..|merged|] == merged;
    }
  }

  lemma {:induction false} PlaceAllAssociates(x: seq<Library>, y: seq<Library>, z: seq<Library>)
    requires DistinctNames(y)
    ensures PlaceAll(PlaceAll(x, y), z) == PlaceAll(x, PlaceAll(y, z))
  {
    if z != [] {
      var front, last := z[..|z| - 1], z[|z| - 1];
      var merged := PlaceAll(y, front);
      PlaceAllAssociates(x, y, front);
      PlaceAllDistinct(y, front);
      match IndexOf(merged, last.name)
      case Some(i) => PlaceRedefined(x, merged, i, last);
      case None => assert (merged + [last])[..|merged|] == merged;
    }
  }

  lemma OverlayAssociates(x: Resolved, y: Resolved, z: Resolved)
    requires DistinctNames(y.libraries)
    ensures Overlay(Overlay(x, y), z) == Overlay(x, Overlay(y, z))
  {
    PlaceAllAssociates(x.libraries, y.libraries, z.libraries);
  }

  lemma {:induction false} MergedNamesDistinct(chain: seq<Version>)
    ensures DistinctNames(Merge(chain).libraries)
  {
    if chain != [] {
      MergedNamesDistinct(chain[..|chain| - 1]);
      PlaceAllDistinct(Merge(chain[..|chain| - 1]).libraries, Alone(chain[|chain| - 1]).libraries);
    }
  }

  /** Merging a concatenated chain is laying the merge of its leaf part over that of its root part. */
  lemma {:induction false} MergeOfConcat(a: seq<Version>, b: seq<Version>)
    ensures Merge(a + b) == Overlay(Merge(a), Merge(b))
  {
    if b == [] {
      assert a + b == a;
    } else {
      var front, last := b[..|b| - 1], b[|b| - 1];
      assert (a + b)[..|a + b| - 1] == a + front;
      MergeOfConcat(a, front);
      MergedNamesDistinct(front);
      OverlayAssociates(Merge(a), Merge(front), Alone(last));
    }
  }

  lemma {:induction false} PlaceSelf(libs: seq<Library>)
    requires DistinctNames(libs)
    ensures PlaceAll([], libs) == libs
  {
    if libs != [] {
      var front, last := libs[..|libs| - 1], libs[|libs| - 1];
      PlaceSelf(front);
      assert IndexOf(front, last.name) == None;
      assert libs == front + [last];
    }
  }

  lemma MergeOfOne(v: Version)
    ensures Merge([v]) == Alone(v)
  {
    assert [v][..0] == [];
    PlaceAllDistinct([], v.libraries);
    PlaceSelf(PlaceAll([], v.libraries));
  }

  // ---------- the loops ----------

  /** The scalar fields the first loop holds after one more version, leaf side first. */
  function TakeOrElse(r: Resolved, v: Version): Resolved {
    Overlay(Alone(v), r).(libraries := r.libraries)
  }

  lemma TakeOneMore(r: Resolved, chain: seq<Version>, i: nat)
    requires i < |chain| && r == Merge(chain[i + 1..]).(libraries := [])
    ensures TakeOrElse(r, chain[i]) == Merge(chain[i..]).(libraries := [])
  {
    assert chain[i..] == [chain[i]] + chain[i + 1..];
    MergeOfConcat([chain[i]], chain[i + 1..]);
    MergeOfOne(chain[i]);
  }

  method TakeFields(r: Resolved, v: Version) returns (resolved: Resolved)
    ensures resolved == TakeOrElse(r, v)
  {
    resolved := r;
    if resolved.id == "" {
      resolved := resolved.(id := if v.id.Some? then v.id.value else "");
    }
    resolved := resolved.(
      kind := OrElse(resolved.kind, v.kind),
      assetIndex := OrElse(resolved.assetIndex, v.assetIndex),
      assets := OrElse(resolved.assets, v.assets),
      mainClass := OrElse(resolved.mainClass, v.mainClass),
      minecraftArguments := OrElse(resolved.minecraftArguments, v.minecraftArguments),
      arguments := OrElse(resolved.arguments, v.arguments),
      javaVersion := OrElse(resolved.javaVersion, v.javaVersion),
      logging := OrElse(resolved.logging, v.logging));
    var d := Downloads(
      OrElse(r.downloads.client, v.downloads.client),
      OrElse(r.downloads.server, v.downloads.server),
      OrElse(r.downloads.clientMappings, v.downloads.clientMappings),
      OrElse(r.downloads.serverMappings, v.downloads.serverMappings));
    if d.client.None? { d := d.(client := v.client); }
    if d.server.None? { d := d.(server := v.server); }
    resolved := resolved.(downloads := d);
  }

  method MergeScalars(chain: seq<Version>) returns (resolved: Resolved)
    ensures resolved == Merge(chain).(libraries := [])
  {
    resolved := NOTHING;
    var i := |chain|;
    while i > 0
      invariant 0 <= i <= |chain|
      invariant resolved == Merge(chain[i..]).(libraries := [])
    {
      i := i - 1;
      TakeOneMore(resolved, chain, i);
      resolved := TakeFields(resolved, chain[i]);
    }
    assert chain[0..] == chain;
  }

  ghost predicate Coupled(seen: map<string, nat>, libs: seq<Library>) {
    && (forall k | 0 <= k < |libs| :: libs[k].name in seen && seen[libs[k].name] == k)
    && (forall name | name in seen :: seen[name] < |libs| && libs[seen[name]].name == name)
  }

  lemma {:induction false} MergedLibraries(chain: seq<Version>)
    ensures Merge(chain).libraries == PlaceAll([], AllLibraries(chain))
  {
    if chain != [] {
      var front, last := chain[..|chain| - 1], chain[|chain| - 1];
      MergedLibraries(front);
      PlaceAllConcat([], AllLibraries(front), last.libraries);
      PlaceMerged(Merge(front).libraries, last.libraries);
    }
  }

  lemma CoupledPlace(seen: map<string, nat>, libs: seq<Library>, lib: Library)
    requires Coupled(seen, libs)
    ensures lib.name in seen ==>
      seen[lib.name] < |libs| && Place(libs, lib) == libs[seen[lib.name] := lib] && Coupled(seen, Place(libs, lib))
    ensures lib.name !in seen ==>
      Place(libs, lib) == libs + [lib] && Coupled(seen[lib.name := |libs|], libs + [lib])
  {
  }

  /** The libraries of one version, over what its ancestors left. */
  method PlaceLibraries(libs0: seq<Library>, seen0: map<string, nat>, more: seq<Library>)
    returns (libs: seq<Library>, seen: map<string, nat>)
    requires Coupled(seen0, libs0)
    ensures Coupled(seen, libs) && libs == PlaceAll(libs0, more)
  {
    libs, seen := libs0, seen0;
    for j := 0 to |more|
      invariant Coupled(seen, libs)
      invariant libs == PlaceAll(libs0, more[..j])
    {
      var lib := more[j];
      assert more[..j + 1][..j] == more[..j];
      CoupledPlace(seen, libs, lib);
      if lib.name in seen {
        libs := libs[seen[lib.name] := lib];
      } else {
        seen := seen[lib.name := |libs|];
        libs := libs + [lib];
      }
    }
    assert more[..|more|] == more;
  }

  method MergeLibraries(chain: seq<Version>) returns (libs: seq<Library>)
    ensures libs == PlaceAll([], AllLibraries(chain))
  {
    libs := [];
    var seen: map<string, nat> := map[];
    for i := 0 to |chain|
      invariant Coupled(seen, libs)
      invariant libs == PlaceAll([], AllLibraries(chain[..i]))
    {
      assert chain[..i + 1][..i] == chain[..i];
      PlaceAllConcat([], AllLibraries(chain[..i]), chain[i].libraries);
      libs, seen := PlaceLibraries(libs, seen, chain[i].libraries);
    }
    assert chain[..|chain|] == chain;
  }

  method MergeChain(chain: seq<Version>) returns (resolved: Resolved)
    ensures resolved == Merge(chain)
  {
    resolved := MergeScalars(chain);
    var libs := MergeLibraries(chain);
    MergedLibraries(chain);
    resolved := resolved.(libraries := libs);
  }

  // ---------- the nearest definition wins ----------

  lemma {:induction false} FieldIsNearest(chain: seq<Version>, pick: Resolved -> Option<Blob>,
      field: Version -> Option<Blob>)
    requires pick(NOTHING) == None && forall v :: pick(Alone(v)) == field(v)
    requires forall x, y :: pick(Overlay(x, y)) == OrElse(pick(y), pick(x))
    ensures pick(Merge(chain)) == Nearest(chain, field)
  {
    if chain != [] { FieldIsNearest(chain[..|chain| - 1], pick, field); }
  }

  /** Every scalar of the merge is the one of the version nearest to the leaf that defines it. */
  lemma ScalarsAreNearest(chain: seq<Version>)
    ensures var m := Merge(chain);
      && m.kind == Nearest(chain, KindOf)
      && m.assetIndex == Nearest(chain, AssetIndexOf)
      && m.assets == Nearest(chain, AssetsOf)
      && m.mainClass == Nearest(chain, MainClassOf)
      && m.minecraftArguments == Nearest(chain, MinecraftArgumentsOf)
      && m.arguments == Nearest(chain, ArgumentsOf)
      && m.javaVersion == Nearest(chain, JavaVersionOf)
      && m.logging == Nearest(chain, LoggingOf)
  {
    FieldIsNearest(chain, (r: Resolved) => r.kind, KindOf);
    FieldIsNearest(chain, (r: Resolved) => r.assetIndex, AssetIndexOf);
    FieldIsNearest(chain, (r: Resolved) => r.assets, AssetsOf);
    FieldIsNearest(chain, (r: Resolved) => r.mainClass, MainClassOf);
    FieldIsNearest(chain, (r: Resolved) => r.minecraftArguments, MinecraftArgumentsOf);
    FieldIsNearest(chain, (r: Resolved) => r.arguments, ArgumentsOf);
    FieldIsNearest(chain, (r: Resolved) => r.javaVersion, JavaVersionOf);
    FieldIsNearest(chain, (r: Resolved) => r.logging, LoggingOf);
  }

  /** A download counts under `downloads` first and at the top level second, version by version. */
  lemma DownloadsAreNearest(chain: seq<Version>)
    ensures var d := Merge(chain).downloads;
      && d.client == Nearest(chain, ClientOf)
      && d.server == Nearest(chain, ServerOf)
      && d.clientMappings == Nearest(chain, ClientMappingsOf)
      && d.serverMappings == Nearest(chain, ServerMappingsOf)
  {
    FieldIsNearest(chain, (r: Resolved) => r.downloads.client, ClientOf);
    FieldIsNearest(chain, (r: Resolved) => r.downloads.server, ServerOf);
    FieldIsNearest(chain, (r: Resolved) => r.downloads.clientMappings, ClientMappingsOf);
    FieldIsNearest(chain, (r: Resolved) => r.downloads.serverMappings, ServerMappingsOf);
  }

  lemma IdIsNearest(chain: seq<Version>)
    ensures Merge(chain).id == match Nearest(chain, IdOf) case Some(id) => id case None => ""
  {
    FieldIsNearest(chain, (r: Resolved) => if r.id == "" then None else Some(r.id), IdOf);
  }

  // ---------- what the merged libraries are ----------

  /** Names are distinct and in the order of first appearance from the root. */
  lemma {:induction false} NamesInOrder(all: seq<Library>)
    ensures Names(PlaceAll([], all)) == FirstOccurrences(Names(all))
  {
    if all != [] {
      var front, last := all[..|all| - 1], all[|all| - 1];
      NamesInOrder(front);
      NamesStep(PlaceAll([], front), front, last);
      assert all == front + [last];
    }
  }

  lemma NamesAppend(front: seq<Library>, last: Library)
    ensures Names(front + [last]) == Names(front) + [last.name]
  {
  }

  lemma NamesStep(merged: seq<Library>, front: seq<Library>, last: Library)
    requires Names(merged) == FirstOccurrences(Names(front))
    ensures Names(Place(merged, last)) == FirstOccurrences(Names(front + [last]))
  {
    NamesAppend(front, last);
    FirstOccurrencesStep(Names(front), last.name);
    SameMembers(Names(front), last.name);
    match IndexOf(merged, last.name)
    case Some(i) => assert Names(merged)[i] == last.name;
    case None => NamesAppend(merged, last);
  }

  /** `lib` is the last definition of its name in the list. */
  ghost predicate LastDefinition(all: seq<Library>, lib: Library) {
    exists i: nat :: LastAt(all, i, lib)
  }

  ghost predicate LastAt(all: seq<Library>, i: nat, lib: Library) {
    i < |all| && all[i] == lib && forall j | i < j < |all| :: all[j].name != lib.name
  }

  lemma LastAtStep(front: seq<Library>, last: Library, lib: Library)
    ensures LastDefinition(front + [last], last)
    ensures LastDefinition(front, lib) && lib.name != last.name ==> LastDefinition(front + [last], lib)
  {
    assert LastAt(front + [last], |front|, last);
    if LastDefinition(front, lib) && lib.name != last.name {
      var i: nat :| LastAt(front, i, lib);
      assert LastAt(front + [last], i, lib);
    }
  }

  lemma OnlyOneOfTheName(libs: seq<Library>, last: Library, lib: Library)
    requires DistinctNames(libs) && lib in Place(libs, last) && lib != last
    ensures lib in libs && lib.name != last.name
  {
  }

  /** Every merged library is the last definition of its name. */
  lemma {:induction false} MergedAreLastDefinitions(all: seq<Library>, lib: Library)
    requires lib in PlaceAll([], all)
    ensures LastDefinition(all, lib)
  {
    var front, last := all[..|all| - 1], all[|all| - 1];
    assert all == front + [last];
    if lib != last {
      PlaceAllDistinct([], front);
      OnlyOneOfTheName(PlaceAll([], front), last, lib);
      MergedAreLastDefinitions(front, lib);
    }
    LastAtStep(front, last, lib);
  }

  /**
    The libraries of a merged chain: one per name, in the order in which names first appear from the
    root, each the last definition of its name in the chain.
    */
  lemma LibrariesOfMerge(chain: seq<Version>)
    ensures var libs, all := Merge(chain).libraries, AllLibraries(chain);
      && DistinctNames(libs)
      && Names(libs) == FirstOccurrences(Names(all))
      && forall lib | lib in libs :: LastDefinition(all, lib)
  {
    MergedLibraries(chain);
    MergedNamesDistinct(chain);
    NamesInOrder(AllLibraries(chain));
    forall lib | lib in Merge(chain).libraries ensures LastDefinition(AllLibraries(chain), lib) {
      MergedAreLastDefinitions(AllLibraries(chain), lib);
    }
  }

  // ---------- walking `inheritsFrom` ----------

  /** Every version file that can be fetched; an id outside it is a failed fetch. */
  type Catalogue = map<string, Version>

  datatype ResolveError = Cycle(id: string) | Missing(id: string)

  ghost predicate IsPath(cat: Catalogue, start: string, path: seq<string>) {
    && path != [] && path[0] == start
    && forall k | 0 <= k < |path| - 1 :: HasParent(cat, path[k], path[k + 1])
  }

  predicate HasParent(cat: Catalogue, id: string, parent: string) {
    id in cat && cat[id].inheritsFrom == Some(parent)
  }

  predicate Distinct(path: seq<string>) {
    forall j, k | 0 <= j < k < |path| :: path[j] != path[k]
  }

  function Last(path: seq<string>): string
    requires path != []
  {
    path[|path| - 1]
  }

  ghost predicate ReachesRoot(cat: Catalogue, start: string, path: seq<string>) {
    IsPath(cat, start, path) && Last(path) in cat && cat[Last(path)].inheritsFrom == None
  }

  ghost predicate ReachesGap(cat: Catalogue, start: string, path: seq<string>) {
    IsPath(cat, start, path) && Distinct(path) && Last(path) !in cat
  }

  ghost predicate ReachesCycle(cat: Catalogue, start: string, path: seq<string>) {
    && IsPath(cat, start, path)
    && Distinct(path[..|path| - 1]) && Last(path) in path[..|path| - 1]
  }

  /** The versions of a path, root first. */
  function Chain(cat: Catalogue, path: seq<string>): seq<Version>
    requires forall k | 0 <= k < |path| :: path[k] in cat
  {
    seq(|path|, k requires 0 <= k < |path| => cat[path[|path| - 1 - k]])
  }

  lemma RootPathKnown(cat: Catalogue, start: string, path: seq<string>)
    requires ReachesRoot(cat, start, path)
    ensures forall k | 0 <= k < |path| :: path[k] in cat
  {
    forall k | 0 <= k < |path| ensures path[k] in cat {
      if k < |path| - 1 { assert HasParent(cat, path[k], path[k + 1]); }
    }
  }

  function Reversed(s: seq<Version>): seq<Version> {
    seq(|s|, k requires 0 <= k < |s| => s[|s| - 1 - k])
  }

  method ResolveVersionChain(cat: Catalogue, start: string)
    returns (r: Result<Resolved, ResolveError>, ghost path: seq<string>)
    ensures match r
      case Success(resolved) =>
        ReachesRoot(cat, start, path) && (forall k | 0 <= k < |path| :: path[k] in cat)
        && resolved == Merge(Chain(cat, path))
      case Failure(Missing(id)) => ReachesGap(cat, start, path) && Last(path) == id
      case Failure(Cycle(id)) => ReachesCycle(cat, start, path) && Last(path) == id
    ensures r.Success? <==> exists p :: ReachesRoot(cat, start, p)
  {
    var chain: seq<Version> := [];
    var visited: set<string> := {};
    var current := start;
    path := [start];
    while true
      invariant IsPath(cat, start, path) && Last(path) == current && |chain| == |path| - 1
      invariant forall k | 0 <= k < |chain| :: path[k] in cat && chain[k] == cat[path[k]]
      invariant forall id :: id in visited <==> id in path[..|path| - 1]
      invariant Distinct(path[..|path| - 1]) && visited <= cat.Keys
      decreases cat.Keys - visited
    {
      ghost var seen := path[..|path| - 1];
      assert path == seen + [current];
      if current in visited {
        CycleNeverReachesRoot(cat, start, path);
        return Failure(Cycle(current)), path;
      }
      visited := visited + {current};
      if current !in cat {
        GapNeverReachesRoot(cat, start, path);
        return Failure(Missing(current)), path;
      }
      var json := cat[current];
      chain := chain + [json];
      if json.inheritsFrom.None? { break; }
      current := json.inheritsFrom.value;
      assert HasParent(cat, Last(path), current);
      ghost var before := path;
      path := path + [current];
      assert path[..|path| - 1] == before;
    }
    assert ReachesRoot(cat, start, path);
    assert Reversed(chain) == Chain(cat, path);
    var resolved := MergeChain(Reversed(chain));
    r := Success(resolved);
  }

  // ---------- the three outcomes exclude one another ----------

  lemma {:induction false} PathsAgree(cat: Catalogue, start: string, p: seq<string>, q: seq<string>, k: nat)
    requires IsPath(cat, start, p) && IsPath(cat, start, q) && k < |p| && k < |q|
    ensures p[k] == q[k]
  {
    if k > 0 {
      PathsAgree(cat, start, p, q, k - 1);
      assert HasParent(cat, p[k - 1], p[k - 1 + 1]) && HasParent(cat, q[k - 1], q[k - 1 + 1]);
    }
  }

  lemma ParentAt(cat: Catalogue, start: string, path: seq<string>, k: nat)
    requires IsPath(cat, start, path) && k < |path|
    ensures k + 1 < |path| ==> HasParent(cat, path[k], path[k + 1])
  {
  }

  /** The path to the root is unique, so "the" merged chain is well defined. */
  lemma RootPathUnique(cat: Catalogue, start: string, p: seq<string>, q: seq<string>)
    requires ReachesRoot(cat, start, p) && ReachesRoot(cat, start, q)
    ensures p == q
  {
    var n := if |p| < |q| then |p| else |q|;
    forall k | 0 <= k < n ensures p[k] == q[k] { PathsAgree(cat, start, p, q, k); }
    ParentAt(cat, start, q, n - 1);
    ParentAt(cat, start, p, n - 1);
  }

  lemma GapNeverReachesRoot(cat: Catalogue, start: string, gap: seq<string>)
    requires IsPath(cat, start, gap) && Last(gap) !in cat
    ensures !exists p :: ReachesRoot(cat, start, p)
  {
    forall p | ReachesRoot(cat, start, p) ensures false {
      var k := if |p| < |gap| then |p| - 1 else |gap| - 1;
      PathsAgree(cat, start, p, gap, k);
      RootPathKnown(cat, start, p);
      ParentAt(cat, start, gap, k);
    }
  }

  lemma {:induction false} StaysInCycle(cat: Catalogue, start: string, cycle: seq<string>, p: seq<string>, k: nat)
    requires ReachesCycle(cat, start, cycle) && IsPath(cat, start, p) && k < |p|
    ensures p[k] in cycle[..|cycle| - 1]
  {
    var around := cycle[..|cycle| - 1];
    if k == 0 {
      assert around[0] == start;
    } else {
      StaysInCycle(cat, start, cycle, p, k - 1);
      var j :| 0 <= j < |around| && around[j] == p[k - 1];
      assert HasParent(cat, cycle[j], cycle[j + 1]) && HasParent(cat, p[k - 1], p[k - 1 + 1]);
      if j + 1 < |around| { assert around[j + 1] == p[k]; }
    }
  }

  lemma CycleNeverReachesRoot(cat: Catalogue, start: string, cycle: seq<string>)
    requires ReachesCycle(cat, start, cycle)
    ensures !exists p :: ReachesRoot(cat, start, p)
  {
    forall p | ReachesRoot(cat, start, p) ensures false {
      StaysInCycle(cat, start, cycle, p, |p| - 1);
      var j :| 0 <= j < |cycle| - 1 && cycle[..|cycle| - 1][j] == Last(p);
      ParentAt(cat, start, cycle, j);
    }
  }
}
