/** Which field of which version ends up in the merge (`game/version.rs`), field by field. */
module VersionFields {
  import opened Wrappers
  import opened VersionChain

  /** `value` is the last of `values` that is there, counting from the root; none when none is. */
  ghost predicate FromNearest(values: seq<Option<Blob>>, value: Option<Blob>) {
    && (forall k | 0 <= k < |values| && values[k].Some? && (forall j | k < j < |values| :: values[j] == None) ::
          value == values[k])
    && ((forall k | 0 <= k < |values| :: values[k] == None) ==> value == None)
  }

  lemma NearestOfValues(chain: seq<Version>, field: Version -> Option<Blob>, values: seq<Option<Blob>>)
    requires |values| == |chain| && forall k | 0 <= k < |chain| :: values[k] == field(chain[k])
    ensures FromNearest(values, Nearest(chain, field))
  {
    NearestIsNearest(chain, field);
    forall k: nat | k < |values| && values[k].Some? && (forall j | k < j < |values| :: values[j] == None)
      ensures Nearest(chain, field) == values[k]
    {
      forall j | k < j < |chain| ensures field(chain[j]) == None { assert values[j] == None; }
      assert NearestAt(chain, field, k);
    }
    if forall k | 0 <= k < |values| :: values[k] == None {
      forall k | 0 <= k < |chain| ensures field(chain[k]) == None { assert values[k] == None; }
    }
  }

  /** What is read of one version for each field of the merge. */
  function Values(chain: seq<Version>, read: Version -> Option<Blob>): seq<Option<Blob>> {
    seq(|chain|, k requires 0 <= k < |chain| => read(chain[k]))
  }

  /** The plain fields. */
  lemma FieldsAreNearest(chain: seq<Version>)
    ensures FromNearest(Values(chain, (v: Version) => v.kind), Merge(chain).kind)
    ensures FromNearest(Values(chain, (v: Version) => v.assetIndex), Merge(chain).assetIndex)
    ensures FromNearest(Values(chain, (v: Version) => v.assets), Merge(chain).assets)
    ensures FromNearest(Values(chain, (v: Version) => v.mainClass), Merge(chain).mainClass)
  {
    ScalarsAreNearest(chain);
    NearestOfValues(chain, KindOf, Values(chain, (v: Version) => v.kind));
    NearestOfValues(chain, AssetIndexOf, Values(chain, (v: Version) => v.assetIndex));
    NearestOfValues(chain, AssetsOf, Values(chain, (v: Version) => v.assets));
    NearestOfValues(chain, MainClassOf, Values(chain, (v: Version) => v.mainClass));
  }

  /** Those of the launch. */
  lemma LaunchFieldsAreNearest(chain: seq<Version>)
    ensures FromNearest(Values(chain, (v: Version) => v.minecraftArguments), Merge(chain).minecraftArguments)
    ensures FromNearest(Values(chain, (v: Version) => v.arguments), Merge(chain).arguments)
    ensures FromNearest(Values(chain, (v: Version) => v.javaVersion), Merge(chain).javaVersion)
    ensures FromNearest(Values(chain, (v: Version) => v.logging), Merge(chain).logging)
  {
    ScalarsAreNearest(chain);
    NearestOfValues(chain, MinecraftArgumentsOf, Values(chain, (v: Version) => v.minecraftArguments));
    NearestOfValues(chain, ArgumentsOf, Values(chain, (v: Version) => v.arguments));
    NearestOfValues(chain, JavaVersionOf, Values(chain, (v: Version) => v.javaVersion));
    NearestOfValues(chain, LoggingOf, Values(chain, (v: Version) => v.logging));
  }

  /** The downloads: the entry under `downloads`, and for client and server the legacy one where it has none. */
  lemma DownloadsComeFrom(chain: seq<Version>)
    ensures FromNearest(Values(chain, (v: Version) => if v.downloads.client.Some? then v.downloads.client else v.client),
      Merge(chain).downloads.client)
    ensures FromNearest(Values(chain, (v: Version) => if v.downloads.server.Some? then v.downloads.server else v.server),
      Merge(chain).downloads.server)
    ensures FromNearest(Values(chain, (v: Version) => v.downloads.clientMappings), Merge(chain).downloads.clientMappings)
    ensures FromNearest(Values(chain, (v: Version) => v.downloads.serverMappings), Merge(chain).downloads.serverMappings)
  {
    DownloadsAreNearest(chain);
    NearestOfValues(chain, ClientOf, Values(chain, (v: Version) =>
      if v.downloads.client.Some? then v.downloads.client else v.client));
    NearestOfValues(chain, ServerOf, Values(chain, (v: Version) =>
      if v.downloads.server.Some? then v.downloads.server else v.server));
    NearestOfValues(chain, ClientMappingsOf, Values(chain, (v: Version) => v.downloads.clientMappings));
    NearestOfValues(chain, ServerMappingsOf, Values(chain, (v: Version) => v.downloads.serverMappings));
  }

  /** The id of the version nearest to the leaf that has one that is not empty; empty when none has. */
  lemma IdComesFrom(chain: seq<Version>)
    ensures forall k | 0 <= k < |chain| && chain[k].id.Some? && chain[k].id.value != ""
      && (forall j | k < j < |chain| :: chain[j].id == None || chain[j].id == Some("")) :: Merge(chain).id == chain[k].id.value
    ensures (forall k | 0 <= k < |chain| :: chain[k].id == None || chain[k].id == Some("")) ==> Merge(chain).id == ""
  {
    IdIsNearest(chain);
    NearestIsNearest(chain, IdOf);
    forall k: nat | k < |chain| && chain[k].id.Some? && chain[k].id.value != ""
      && (forall j | k < j < |chain| :: chain[j].id == None || chain[j].id == Some(""))
      ensures Merge(chain).id == chain[k].id.value
    {
      assert NearestAt(chain, IdOf, k);
    }
  }

  // ---------- inheriting from a parent ----------

  /** Libraries placed over others leave those where they are, and untouched unless redefined. */
  lemma {:induction false} PlacedOver(libs: seq<Library>, more: seq<Library>)
    ensures |libs| <= |PlaceAll(libs, more)|
    ensures forall i | 0 <= i < |libs| :: PlaceAll(libs, more)[i].name == libs[i].name
    ensures forall i | 0 <= i < |libs| && (forall lib | lib in more :: lib.name != libs[i].name) ::
      PlaceAll(libs, more)[i] == libs[i]
  {
    if more != [] {
      var front, last := more[..|more| - 1], more[|more| - 1];
      assert more == front + [last];
      PlacedOver(libs, front);
      forall i | 0 <= i < |libs| && (forall lib | lib in more :: lib.name != libs[i].name)
        ensures PlaceAll(libs, more)[i] == libs[i]
      {
        assert last in more;
      }
    }
  }

  lemma PlacedIsIn(libs: seq<Library>, last: Library, i: nat)
    ensures last in Place(libs, last)
    ensures i < |libs| && libs[i].name != last.name ==> i < |Place(libs, last)| && Place(libs, last)[i] == libs[i]
  {
    match IndexOf(libs, last.name)
    case Some(k) => assert Place(libs, last)[k] == last;
    case None => assert Place(libs, last)[|libs|] == last;
  }

  /** The last definition of a name among those placed is the one that stays. */
  lemma {:induction false} LastPlacedStays(libs: seq<Library>, more: seq<Library>, k: nat)
    requires k < |more| && forall j | k < j < |more| :: more[j].name != more[k].name
    ensures more[k] in PlaceAll(libs, more)
  {
    var front, last := more[..|more| - 1], more[|more| - 1];
    var before := PlaceAll(libs, front);
    if k < |more| - 1 {
      LastPlacedStays(libs, front, k);
      var i :| 0 <= i < |before| && before[i] == more[k];
      assert before[i].name != last.name;
      PlacedIsIn(before, last, i);
      assert PlaceAll(libs, more)[i] == more[k];
    } else {
      PlacedIsIn(before, last, 0);
    }
  }

  lemma ChainOfPath(cat: Catalogue, start: string, path: seq<string>)
    requires ReachesRoot(cat, start, path) && forall k | 0 <= k < |path| :: path[k] in cat
    ensures |path| == 1 <==> cat[start].inheritsFrom == None
    ensures |path| == 1 ==> Chain(cat, path) == [cat[start]]
    ensures |path| > 1 ==>
      && cat[start].inheritsFrom == Some(path[1]) && ReachesRoot(cat, path[1], path[1..])
      && Chain(cat, path) == Chain(cat, path[1..]) + [cat[start]]
  {
    if |path| > 1 {
      var rest := path[1..];
      ParentAt(cat, start, path, 0);
      forall k | 0 <= k < |rest| - 1 ensures HasParent(cat, rest[k], rest[k + 1]) { ParentAt(cat, start, path, k + 1); }
    }
  }

  lemma MergeOfChild(chain: seq<Version>, v: Version)
    ensures Merge(chain + [v]) == Overlay(Merge(chain), Alone(v))
  {
    assert (chain + [v])[..|chain|] == chain;
  }

  /** What a version defines itself counts; `parent` is what its parent resolves to. */
  function Own(own: Option<Blob>, parent: Option<Blob>): Option<Blob> {
    match own case Some(value) => Some(value) case None => parent
  }

  /**
    A version that inherits: every field it defines is its own and every other that of its parent; the
    parent's libraries keep their places, and where both define one the version's own counts.
    */
  lemma InheritsFromParent(cat: Catalogue, start: string, path: seq<string>)
    requires ReachesRoot(cat, start, path) && (forall k | 0 <= k < |path| :: path[k] in cat) && |path| > 1
    ensures var v, r, parent := cat[start], Merge(Chain(cat, path)), Merge(Chain(cat, path[1..]));
      && r.id == (if v.id.Some? && v.id.value != "" then v.id.value else parent.id)
      && r.kind == Own(v.kind, parent.kind) && r.assetIndex == Own(v.assetIndex, parent.assetIndex)
      && r.assets == Own(v.assets, parent.assets) && r.mainClass == Own(v.mainClass, parent.mainClass)
      && r.minecraftArguments == Own(v.minecraftArguments, parent.minecraftArguments)
      && r.arguments == Own(v.arguments, parent.arguments)
      && r.javaVersion == Own(v.javaVersion, parent.javaVersion) && r.logging == Own(v.logging, parent.logging)
    ensures var v, d, parent := cat[start], Merge(Chain(cat, path)).downloads, Merge(Chain(cat, path[1..])).downloads;
      && d.client == Own(v.downloads.client, Own(v.client, parent.client))
      && d.server == Own(v.downloads.server, Own(v.server, parent.server))
      && d.clientMappings == Own(v.downloads.clientMappings, parent.clientMappings)
      && d.serverMappings == Own(v.downloads.serverMappings, parent.serverMappings)
    ensures var own, libs := cat[start].libraries, Merge(Chain(cat, path)).libraries;
      var parent := Merge(Chain(cat, path[1..])).libraries;
      && |parent| <= |libs|
      && (forall i | 0 <= i < |parent| :: libs[i].name == parent[i].name)
      && (forall i | 0 <= i < |parent| && (forall lib | lib in own :: lib.name != parent[i].name) :: libs[i] == parent[i])
      && (forall k | 0 <= k < |own| && (forall j | k < j < |own| :: own[j].name != own[k].name) :: own[k] in libs)
  {
    var v, chain := cat[start], Chain(cat, path[1..]);
    ChainOfPath(cat, start, path);
    MergeOfChild(chain, v);
    PlaceMerged(Merge(chain).libraries, v.libraries);
    PlacedOver(Merge(chain).libraries, v.libraries);
    forall k | 0 <= k < |v.libraries| && (forall j | k < j < |v.libraries| :: v.libraries[j].name != v.libraries[k].name)
      ensures v.libraries[k] in PlaceAll(Merge(chain).libraries, v.libraries)
    {
      LastPlacedStays(Merge(chain).libraries, v.libraries, k);
    }
  }

  /** A version without a parent is itself. */
  lemma RootIsItself(cat: Catalogue, start: string)
    requires start in cat && cat[start].inheritsFrom == None
    ensures ReachesRoot(cat, start, [start]) && forall p | ReachesRoot(cat, start, p) :: p == [start]
    ensures Chain(cat, [start]) == [cat[start]]
  {
    forall p | ReachesRoot(cat, start, p) ensures p == [start] { RootPathUnique(cat, start, p, [start]); }
  }
}
