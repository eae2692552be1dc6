/** Container enumeration: `GetContainerIDs`, `ListContainers`, `getContainer`
    and the conversion of docker's configuration into the explorer's record. */
module Containers {
  import opened Basics
  import opened Paths
  import opened Files
  import opened Records

  /** `<root>/containers`. */
  function ContainersDir(root: string): string {
    JoinPath([root, ContainersDirName])
  }

  /** `<containersdir>/<id>/<filename>`, built the way `ListContainers` builds it. */
  function ConfigPath(containersdir: string, id: string, filename: string): string {
    JoinPath([JoinPath([containersdir, id]), filename])
  }

  /** `GetContainerIDs`: the file part of every path the glob of `dir` returns. */
  function GetContainerIDs(fs: FileSystem, dir: string): (ids: seq<string>)
    ensures |ids| == |Glob(fs, dir)|
  {
    var paths := Glob(fs, dir);
    seq(|paths|, i requires 0 <= i < |paths| => Base(paths[i]))
  }

  /** The container IDs are exactly the entry names of the containers
      directory, in listing order, and there are none when it is absent. */
  lemma ContainerIDsAreEntryNames(fs: FileSystem, dir: string)
    requires WellFormed(fs)
    ensures GetContainerIDs(fs, dir) == if dir in fs.nodes && fs.nodes[dir].Dir? then fs.nodes[dir].names else []
  {
    if dir in fs.nodes && fs.nodes[dir].Dir? {
      var names := fs.nodes[dir].names;
      var ids := GetContainerIDs(fs, dir);
      forall i | 0 <= i < |names|
        ensures ids[i] == names[i]
      {
        BaseOfChild(dir, names[i]);
      }
    }
  }

  // ----- one container of the listing -----

  /** What one container directory contributes to `ListContainers`. */
  datatype Entry = Listed(config: ConfigFile) | SkippedV1 | SkippedMissing

  /** The body of the `ListContainers` loop for one ID: `config.v2.json` wins
      when it exists, a `config.json` alone is skipped silently, and a
      directory with neither is skipped after a log entry. */
  function ReadContainerEntry(fs: FileSystem, dec: Decoders, containersdir: string, id: string): (r: Result<Entry, Error>)
    ensures var v2 := ConfigPath(containersdir, id, ConfigV2Filename);
      && (r.Failure? <==> Exists(fs, v2) && (ReadFile(fs, v2).None? || dec.configFile(ReadFile(fs, v2).value).None?))
      && (Exists(fs, v2) && ReadFile(fs, v2).None? ==> r == Failure(ReadingConfigFile(ConfigV2Filename)))
      && (ReadFile(fs, v2).Some? && dec.configFile(ReadFile(fs, v2).value).None? ==> r == Failure(UnmarshallingConfigFile))
      && (Exists(fs, v2) && r.Success? ==> r.value.Listed?)
      && (r.Success? && r.value.Listed? ==> ReadFile(fs, v2).Some? && dec.configFile(ReadFile(fs, v2).value) == Some(r.value.config))
      && (!Exists(fs, v2) ==> r == Success(if Exists(fs, ConfigPath(containersdir, id, ConfigV1Filename)) then SkippedV1 else SkippedMissing))
  {
    var v2 := ConfigPath(containersdir, id, ConfigV2Filename);
    if Exists(fs, v2) then
      match ReadFile(fs, v2)
      case None => Failure(ReadingConfigFile(ConfigV2Filename))
      case Some(data) =>
        match dec.configFile(data)
        case None => Failure(UnmarshallingConfigFile)
        case Some(config) => Success(Listed(config))
    else if Exists(fs, ConfigPath(containersdir, id, ConfigV1Filename)) then
      Success(SkippedV1)
    else
      Success(SkippedMissing)
  }

  /** The entry of every ID, in ID order. */
  function Entries(fs: FileSystem, dec: Decoders, containersdir: string, ids: seq<string>): (entries: seq<Result<Entry, Error>>)
    ensures |entries| == |ids|
  {
    seq(|ids|, i requires 0 <= i < |ids| => ReadContainerEntry(fs, dec, containersdir, ids[i]))
  }

  /** What one entry adds to the listing: its configuration, nothing, or its error. */
  function Contribution(entry: Result<Entry, Error>): Result<seq<ConfigFile>, Error> {
    match entry
    case Failure(e) => Failure(e)
    case Success(Listed(c)) => Success([c])
    case Success(_) => Success([])
  }

  /** Sequencing of two partial listings: the first error wins, otherwise the
      configurations are concatenated. */
  function Chain(a: Result<seq<ConfigFile>, Error>, b: Result<seq<ConfigFile>, Error>): Result<seq<ConfigFile>, Error> {
    match a
    case Failure(e) => Failure(e)
    case Success(x) =>
      match b
      case Failure(e) => Failure(e)
      case Success(y) => Success(x + y)
  }

  lemma ChainAssociative(a: Result<seq<ConfigFile>, Error>, b: Result<seq<ConfigFile>, Error>, c: Result<seq<ConfigFile>, Error>)
    ensures Chain(Chain(a, b), c) == Chain(a, Chain(b, c))
  {
    if a.Success? && b.Success? && c.Success? {
      assert (a.value + b.value) + c.value == a.value + (b.value + c.value);
    }
  }

  lemma ChainUnit(a: Result<seq<ConfigFile>, Error>)
    ensures Chain(a, Success([])) == a
  {
    if a.Success? {
      assert a.value + [] == a.value;
    }
  }

  /** The configurations `ListContainers` converts, in ID order, or the first
      error met: the loop of `ListContainers` without the conversion, over
      the entries of the IDs. */
  function CollectConfigs(entries: seq<Result<Entry, Error>>): (r: Result<seq<ConfigFile>, Error>)
    ensures r.Success? ==> |r.value| <= |entries|
    decreases |entries|
  {
    if |entries| == 0 then Success([])
    else Chain(CollectConfigs(entries[..|entries| - 1]), Contribution(entries[|entries| - 1]))
  }

  /** The listing succeeds exactly when no entry fails. */
  lemma {:induction false} CollectSucceedsIffEntriesSucceed(entries: seq<Result<Entry, Error>>)
    ensures CollectConfigs(entries).Success? <==> forall i :: 0 <= i < |entries| ==> entries[i].Success?
    decreases |entries|
  {
    if |entries| > 0 {
      var prefix := entries[..|entries| - 1];
      CollectSucceedsIffEntriesSucceed(prefix);
      assert forall i :: 0 <= i < |prefix| ==> prefix[i] == entries[i];
    }
  }

  /** Listing the entries `a + b` is listing `a`, then `b`. */
  lemma {:induction false} CollectAppend(a: seq<Result<Entry, Error>>, b: seq<Result<Entry, Error>>)
    ensures CollectConfigs(a + b) == Chain(CollectConfigs(a), CollectConfigs(b))
    decreases |b|
  {
    if |b| == 0 {
      assert a + b == a;
      ChainUnit(CollectConfigs(a));
    } else {
      var b' := b[..|b| - 1];
      assert (a + b)[..|a + b| - 1] == a + b';
      assert (a + b)[|a + b| - 1] == b[|b| - 1];
      CollectAppend(a, b');
      ChainAssociative(CollectConfigs(a), CollectConfigs(b'), Contribution(b[|b| - 1]));
    }
  }

  /** Once a prefix of the entries fails, the whole listing fails with that error. */
  lemma {:induction false} CollectFailurePersists(entries: seq<Result<Entry, Error>>, n: nat)
    requires n <= |entries|
    requires CollectConfigs(entries[..n]).Failure?
    ensures CollectConfigs(entries) == CollectConfigs(entries[..n])
  {
    CollectAppend(entries[..n], entries[n..]);
    assert entries[..n] + entries[n..] == entries;
  }

  /** Around entry `i`: the listing is the part before it, its contribution and
      the part after it. */
  lemma {:induction false} CollectAround(entries: seq<Result<Entry, Error>>, i: nat)
    requires i < |entries|
    ensures CollectConfigs(entries)
         == Chain(Chain(CollectConfigs(entries[..i]), Contribution(entries[i])), CollectConfigs(entries[i + 1..]))
  {
    var before, after := entries[..i], entries[i + 1..];
    var upto := entries[..i + 1];
    assert upto[..|upto| - 1] == before;
    assert CollectConfigs(upto) == Chain(CollectConfigs(before), Contribution(entries[i]));
    assert upto + after == entries;
    CollectAppend(upto, after);
  }

  /** Without entry `i`, the listing is the parts before and after it. */
  lemma CollectWithout(entries: seq<Result<Entry, Error>>, i: nat)
    requires i < |entries|
    ensures CollectConfigs(entries[..i] + entries[i + 1..])
         == Chain(CollectConfigs(entries[..i]), CollectConfigs(entries[i + 1..]))
  {
    CollectAppend(entries[..i], entries[i + 1..]);
  }

  /** One iteration of the listing loop, given the configurations collected so far. */
  lemma {:induction false} CollectExtend(entries: seq<Result<Entry, Error>>, i: nat, configs: seq<ConfigFile>)
    requires i < |entries|
    requires CollectConfigs(entries[..i]) == Success(configs)
    ensures var entry := entries[i];
      && (entry.Failure? ==> CollectConfigs(entries) == Failure(entry.error))
      && (entry.Success? && entry.value.Listed? ==> CollectConfigs(entries[..i + 1]) == Success(configs + [entry.value.config]))
      && (entry.Success? && !entry.value.Listed? ==> CollectConfigs(entries[..i + 1]) == Success(configs))
  {
    var p := entries[..i + 1];
    assert p[..|p| - 1] == entries[..i];
    assert p[|p| - 1] == entries[i];
    if entries[i].Failure? {
      CollectFailurePersists(entries, i + 1);
    } else if !entries[i].value.Listed? {
      assert configs + [] == configs;
    }
  }

  /** A container skipped for having only `config.json`, or no configuration at
      all, contributes nothing: the listing is the one without it. */
  lemma {:induction false} SkippedContainerContributesNothing(entries: seq<Result<Entry, Error>>, i: nat)
    requires i < |entries|
    requires entries[i] in {Success(SkippedV1), Success(SkippedMissing)}
    ensures CollectConfigs(entries) == CollectConfigs(entries[..i] + entries[i + 1..])
  {
    CollectAround(entries, i);
    CollectWithout(entries, i);
    ChainUnit(CollectConfigs(entries[..i]));
  }

  /** A container with a valid `config.v2.json` contributes exactly its decoded
      configuration, at its position. */
  lemma {:induction false} ListedContainerContributesOne(entries: seq<Result<Entry, Error>>, i: nat, config: ConfigFile)
    requires i < |entries|
    requires entries[i] == Success(Listed(config))
    requires CollectConfigs(entries).Success?
    ensures CollectConfigs(entries[..i]).Success? && CollectConfigs(entries[i + 1..]).Success?
    ensures CollectConfigs(entries).value
         == CollectConfigs(entries[..i]).value + [config] + CollectConfigs(entries[i + 1..]).value
  {
    CollectAround(entries, i);
  }

  /** A container whose `config.v2.json` exists but cannot be read or decoded
      fails the whole listing, whatever the other containers hold. */
  lemma BadConfigFailsListing(fs: FileSystem, dec: Decoders, containersdir: string, ids: seq<string>, i: nat)
    requires i < |ids|
    requires var v2 := ConfigPath(containersdir, ids[i], ConfigV2Filename);
      Exists(fs, v2) && (ReadFile(fs, v2).None? || dec.configFile(ReadFile(fs, v2).value).None?)
    ensures CollectConfigs(Entries(fs, dec, containersdir, ids)).Failure?
  {
    var entries := Entries(fs, dec, containersdir, ids);
    assert entries[i].Failure?;
    CollectSucceedsIffEntriesSucceed(entries);
  }

  /** Dropping an ID drops its entry. */
  lemma EntriesWithout(fs: FileSystem, dec: Decoders, containersdir: string, ids: seq<string>, i: nat)
    requires i < |ids|
    ensures Entries(fs, dec, containersdir, ids[..i] + ids[i + 1..])
         == Entries(fs, dec, containersdir, ids)[..i] + Entries(fs, dec, containersdir, ids)[i + 1..]
  {
    var rest := ids[..i] + ids[i + 1..];
    var all := Entries(fs, dec, containersdir, ids);
    forall k | 0 <= k < |rest|
      ensures Entries(fs, dec, containersdir, rest)[k] == (all[..i] + all[i + 1..])[k]
    {
      if k >= i {
        assert rest[k] == ids[k + 1];
      }
    }
  }

  /** A container directory without `config.v2.json` (one holding only
      `config.json`, or neither file) does not affect the listing: the result
      is the listing of the other IDs. */
  lemma ContainerWithoutV2IsIgnored(fs: FileSystem, dec: Decoders, containersdir: string, ids: seq<string>, i: nat)
    requires i < |ids|
    requires !Exists(fs, ConfigPath(containersdir, ids[i], ConfigV2Filename))
    ensures CollectConfigs(Entries(fs, dec, containersdir, ids))
         == CollectConfigs(Entries(fs, dec, containersdir, ids[..i] + ids[i + 1..]))
  {
    var entries := Entries(fs, dec, containersdir, ids);
    assert entries[i] in {Success(SkippedV1), Success(SkippedMissing)};
    SkippedContainerContributesNothing(entries, i);
    EntriesWithout(fs, dec, containersdir, ids, i);
  }

  // ----- conversion -----

  /** The key set of `ExposedPorts`, empty for a nil map. */
  function PortKeys(config: ConfigFile): set<string> {
    if config.config.exposedPorts.Some? then config.config.exposedPorts.value else {}
  }

  /** `c` is a conversion of `config`: every copied field unchanged, and the
      exposed ports are the map's keys, each exactly once, in some order. */
  ghost predicate ConvertedFrom(config: ConfigFile, c: Container) {
    && c.hostname == config.config.hostname
    && c.container == ContainerInfo(config.id, config.created, config.image, config.driver, RuntimeInfo(config.name))
    && c.running == config.state.running
    && multiset(c.exposedPorts) == multiset(PortKeys(config))
  }

  /** `convertToContainerExplorerContainer`; the ports come out in the
      unspecified order of a Go map iteration. */
  method ConvertToContainer(config: ConfigFile) returns (c: Container)
    ensures ConvertedFrom(config, c)
  {
    var ports: seq<string> := [];
    if config.config.exposedPorts.Some? {
      var remaining := config.config.exposedPorts.value;
      while remaining != {}
        invariant remaining <= config.config.exposedPorts.value
        invariant multiset(ports) + multiset(remaining) == multiset(config.config.exposedPorts.value)
        decreases remaining
      {
        var p :| p in remaining;
        assert multiset(remaining) == multiset(remaining - {p}) + multiset{p};
        ports := ports + [p];
        remaining := remaining - {p};
      }
    }
    c := Container(
      config.config.hostname,
      ContainerInfo(config.id, config.created, config.image, config.driver, RuntimeInfo(config.name)),
      config.state.running,
      ports);
  }

  /** `cs` converts `configs` position by position. */
  ghost predicate AllConverted(configs: seq<ConfigFile>, cs: seq<Container>) {
    && |cs| == |configs|
    && forall j :: 0 <= j < |cs| ==> ConvertedFrom(configs[j], cs[j])
  }

  // ----- the listing -----

  /** The append at the end of one `ListContainers` iteration. */
  method AppendConverted(cs: seq<Container>, ghost configs: seq<ConfigFile>, config: ConfigFile) returns (next: seq<Container>)
    requires AllConverted(configs, cs)
    ensures AllConverted(configs + [config], next)
  {
    var c := ConvertToContainer(config);
    next := cs + [c];
  }

  /** One iteration of the `ListContainers` loop: read the entry of `ids[i]`
      and either stop with its error or append its conversion. */
  method ListStep(fs: FileSystem, dec: Decoders, containersdir: string, ids: seq<string>, i: nat,
                  containers: seq<Container>, ghost configs: seq<ConfigFile>)
    returns (stop: Option<Error>, next: seq<Container>, ghost nextConfigs: seq<ConfigFile>)
    requires i < |ids|
    requires CollectConfigs(Entries(fs, dec, containersdir, ids)[..i]) == Success(configs)
    requires AllConverted(configs, containers)
    ensures stop.Some? ==> CollectConfigs(Entries(fs, dec, containersdir, ids)) == Failure(stop.value)
    ensures stop.None? ==> && CollectConfigs(Entries(fs, dec, containersdir, ids)[..i + 1]) == Success(nextConfigs)
                           && AllConverted(nextConfigs, next)
  {
    ghost var entries := Entries(fs, dec, containersdir, ids);
    var entry := ReadContainerEntry(fs, dec, containersdir, ids[i]);
    assert entry == entries[i];
    CollectExtend(entries, i, configs);
    if entry.Failure? {
      return Some(entry.error), containers, configs;
    }
    if entry.value.Listed? {
      next := AppendConverted(containers, configs, entry.value.config);
      nextConfigs := configs + [entry.value.config];
    } else {
      next, nextConfigs := containers, configs;
    }
    stop := None;
  }

  /** The loop of `ListContainers` over the given IDs of `containersdir`. */
  method ConvertListed(fs: FileSystem, dec: Decoders, containersdir: string, ids: seq<string>) returns (r: Result<seq<Container>, Error>)
    ensures var expected := CollectConfigs(Entries(fs, dec, containersdir, ids));
      && (r.Failure? <==> expected.Failure?)
      && (r.Failure? ==> r.error == expected.error)
      && (r.Success? ==> AllConverted(expected.value, r.value))
  {
    ghost var entries := Entries(fs, dec, containersdir, ids);
    var containers: seq<Container> := [];
    ghost var configs: seq<ConfigFile> := [];
    var i := 0;
    assert entries[..0] == [];
    while i < |ids|
      invariant 0 <= i <= |ids|
      invariant CollectConfigs(entries[..i]) == Success(configs)
      invariant AllConverted(configs, containers)
    {
      var stop;
      stop, containers, configs := ListStep(fs, dec, containersdir, ids, i, containers, configs);
      if stop.Some? {
        return Failure(stop.value);
      }
      i := i + 1;
    }
    assert entries[..|ids|] == entries;
    return Success(containers);
  }

  /** `ListContainers`: one record per container whose `config.v2.json` exists,
      in ID order; the first unreadable or malformed `config.v2.json` fails the
      whole call. */
  method ListContainers(fs: FileSystem, dec: Decoders, root: string) returns (r: Result<seq<Container>, Error>)
    ensures var dir := ContainersDir(root);
      var expected := CollectConfigs(Entries(fs, dec, dir, GetContainerIDs(fs, dir)));
      && (r.Failure? <==> expected.Failure?)
      && (r.Failure? ==> r.error == expected.error)
      && (r.Success? ==> AllConverted(expected.value, r.value))
  {
    var containersdir := ContainersDir(root);
    r := ConvertListed(fs, dec, containersdir, GetContainerIDs(fs, containersdir));
  }

  // ----- a single container -----

  /** `getContainer`: the container directory must exist and hold
      `config.v2.json`; there is no fallback to `config.json`. */
  function GetContainer(fs: FileSystem, dec: Decoders, root: string, id: string): (r: Result<ConfigFile, Error>)
    ensures var containerdir := JoinPath([root, ContainersDirName, id]);
      var v2 := JoinPath([containerdir, ConfigV2Filename]);
      && (r == Failure(ContainerDoesNotExist) <==> !Exists(fs, containerdir))
      && (Exists(fs, containerdir) && !Exists(fs, v2) ==> r == Failure(ContainerConfigNotFound(ConfigV2Filename)))
      && (Exists(fs, containerdir) && Exists(fs, v2) && ReadFile(fs, v2).None? ==> r == Failure(ReadingContainerConfig(ConfigV2Filename)))
      && (Exists(fs, containerdir) && ReadFile(fs, v2).Some? && dec.configFile(ReadFile(fs, v2).value).None? ==> r == Failure(UnmarshallingContainerConfig))
      && (r.Success? <==> Exists(fs, containerdir) && ReadFile(fs, v2).Some? && dec.configFile(ReadFile(fs, v2).value).Some?)
      && (r.Success? ==> dec.configFile(ReadFile(fs, v2).value) == Some(r.value))
  {
    var containerdir := JoinPath([root, ContainersDirName, id]);
    if !Exists(fs, containerdir) then
      Failure(ContainerDoesNotExist)
    else
      var configfile := JoinPath([containerdir, ConfigV2Filename]);
      if !Exists(fs, configfile) then
        Failure(ContainerConfigNotFound(ConfigV2Filename))
      else
        match ReadFile(fs, configfile)
        case None => Failure(ReadingContainerConfig(ConfigV2Filename))
        case Some(data) =>
          match dec.configFile(data)
          case None => Failure(UnmarshallingContainerConfig)
          case Some(config) => Success(config)
  }

  /** For an existing container directory, `getContainer` returns a
      configuration exactly when the listing would list that container, and
      it is the same configuration. */
  lemma GetContainerAgreesWithListing(fs: FileSystem, dec: Decoders, root: string, id: string)
    requires Exists(fs, JoinPath([root, ContainersDirName, id]))
    ensures var entry := ReadContainerEntry(fs, dec, ContainersDir(root), id);
      && (GetContainer(fs, dec, root, id).Success? <==> entry.Success? && entry.value.Listed?)
      && (GetContainer(fs, dec, root, id).Success? ==> entry == Success(Listed(GetContainer(fs, dec, root, id).value)))
  {
    JoinPathNested([root, ContainersDirName], [id]);
    assert [root, ContainersDirName] + [id] == [root, ContainersDirName, id];
  }

  /** Every ID the listing enumerates names an existing container directory, so
      `getContainer` and the listing agree on it. */
  lemma ListedIDsAreGettable(fs: FileSystem, dec: Decoders, root: string, i: nat)
    requires WellFormed(fs)
    requires i < |GetContainerIDs(fs, ContainersDir(root))|
    ensures var id := GetContainerIDs(fs, ContainersDir(root))[i];
      var entry := ReadContainerEntry(fs, dec, ContainersDir(root), id);
      && Exists(fs, JoinPath([root, ContainersDirName, id]))
      && (GetContainer(fs, dec, root, id).Success? <==> entry.Success? && entry.value.Listed?)
      && (GetContainer(fs, dec, root, id).Success? ==> entry == Success(Listed(GetContainer(fs, dec, root, id).value)))
  {
    var dir := ContainersDir(root);
    ContainerIDsAreEntryNames(fs, dir);
    var id := GetContainerIDs(fs, dir)[i];
    assert JoinPath([dir, id]) in fs.nodes;
    JoinPathNested([root, ContainersDirName], [id]);
    assert [root, ContainersDirName] + [id] == [root, ContainersDirName, id];
    GetContainerAgreesWithListing(fs, dec, root, id);
  }
}
