/** `MountContainer`: resolving a container's overlay layers and building the
    read-only overlay mount it asks the host `mount` command for. */
module Mount {
  import opened Basics
  import opened Strings
  import opened Paths
  import opened Files
  import opened Records
  import opened Containers

  /** Separator of overlay's `lowerdir` list and of the `lower` file. */
  const ListSeparator: char := ':'
  const OptionsPrefix := "ro,lowerdir="
  /** The text whose presence in a failed mount's error marks a bad lowerdir
      (`mount` exits with status 32 on a mount failure). */
  const InvalidLowerdirSignal := " 32"

  /** `<root>/image/<driver>/layerdb/mounts/<id>/mount-id`. */
  function MountIDPath(root: string, driver: string, id: string): string {
    JoinPath([root, RepositoriesDirName, driver, "layerdb", "mounts", id, "mount-id"])
  }

  /** `<root>/<driver>/<mountID>/<leaf>`: the `lower` file, `diff` and `work`. */
  function LayerPath(root: string, driver: string, mountID: string, leaf: string): string {
    JoinPath([root, driver, mountID, leaf])
  }

  /** `<root>/<driver>/<segment>` for every colon-separated segment of the
      `lower` file, in file order. */
  function LowerEntries(root: string, driver: string, data: string): (entries: seq<string>)
    ensures |entries| == |Split(data, ListSeparator)|
  {
    var segments := Split(data, ListSeparator);
    seq(|segments|, i requires 0 <= i < |segments| => JoinPath([root, driver, segments[i]]))
  }

  /** The lowerdir loop of `MountContainer` from index `i` on, with `acc` built
      so far: the first path starts the list, every later one is appended
      after a colon. */
  function LowerdirLoop(paths: seq<string>, i: nat, acc: string): string
    requires i <= |paths|
    decreases |paths| - i
  {
    if i == |paths| then acc
    else LowerdirLoop(paths, i + 1, if i == 0 then paths[0] else acc + [ListSeparator] + paths[i])
  }

  /** The `lowerdir` value `MountContainer` builds from the `lower` file. */
  function Lowerdir(root: string, driver: string, data: string): string {
    LowerdirLoop(LowerEntries(root, driver, data), 0, "")
  }

  /** Continuing the loop from a correct prefix yields the colon-join of all paths. */
  lemma {:induction false} LowerdirLoopJoins(paths: seq<string>, i: nat, acc: string)
    requires 0 < i <= |paths|
    requires acc == Join(paths[..i], ListSeparator)
    ensures LowerdirLoop(paths, i, acc) == Join(paths, ListSeparator)
    decreases |paths| - i
  {
    if i == |paths| {
      assert paths[..i] == paths;
    } else {
      JoinAppend(paths[..i], [paths[i]], ListSeparator);
      assert paths[..i] + [paths[i]] == paths[..i + 1];
      LowerdirLoopJoins(paths, i + 1, acc + [ListSeparator] + paths[i]);
    }
  }

  /** The loop computes the colon-join of the resolved lower paths. */
  lemma LowerdirIsJoin(root: string, driver: string, data: string)
    ensures Lowerdir(root, driver, data) == Join(LowerEntries(root, driver, data), ListSeparator)
  {
    var paths := LowerEntries(root, driver, data);
    assert paths[..1] == [paths[0]];
    LowerdirLoopJoins(paths, 1, paths[0]);
  }

  /** With colon-free root and driver names, no resolved lower path holds a colon. */
  lemma LowerEntriesColonFree(root: string, driver: string, data: string)
    requires ListSeparator !in root && ListSeparator !in driver
    ensures forall i :: 0 <= i < |LowerEntries(root, driver, data)| ==> ListSeparator !in LowerEntries(root, driver, data)[i]
  {
    var entries := LowerEntries(root, driver, data);
    var segments := Split(data, ListSeparator);
    forall i | 0 <= i < |entries|
      ensures ListSeparator !in entries[i]
    {
      JoinPathAvoids([root, driver, segments[i]], ListSeparator);
    }
  }

  /** With colon-free root and driver names, `lowerdir` has exactly one entry
      per segment of the `lower` file, entry i being `<root>/<driver>/<segment i>`. */
  lemma LowerdirEntries(root: string, driver: string, data: string)
    requires ListSeparator !in root && ListSeparator !in driver
    ensures Split(Lowerdir(root, driver, data), ListSeparator) == LowerEntries(root, driver, data)
    ensures |Split(Lowerdir(root, driver, data), ListSeparator)| == |Split(data, ListSeparator)|
    ensures forall i :: 0 <= i < |Split(data, ListSeparator)| ==>
      Split(Lowerdir(root, driver, data), ListSeparator)[i] == JoinPath([root, driver, Split(data, ListSeparator)[i]])
  {
    LowerEntriesColonFree(root, driver, data);
    LowerdirIsJoin(root, driver, data);
    SplitJoin(LowerEntries(root, driver, data), ListSeparator);
  }

  /** An empty `lower` file still yields one entry, the driver directory itself. */
  lemma EmptyLowerFile(root: string, driver: string)
    ensures Lowerdir(root, driver, "") == JoinPath([root, driver])
  {
    LowerdirIsJoin(root, driver, "");
    assert Split("", ListSeparator) == [""];
    var entry := JoinPath([root, driver, ""]);
    assert LowerEntries(root, driver, "") == [entry];
    JoinCons(entry, [], ListSeparator);
    assert [entry] + [] == [entry];
    NonEmptyAppend([root, driver], [""]);
    assert [root, driver] + [""] == [root, driver, ""];
    assert NonEmpty([""]) == [];
    assert NonEmpty([root, driver]) + [] == NonEmpty([root, driver]);
  }

  /** The option string given to `mount -o`. */
  function MountOptions(lowerdir: string, upperdir: string): string {
    OptionsPrefix + (lowerdir + [ListSeparator] + upperdir)
  }

  /** The text after the options prefix, split at colons, gives back the
      colon-free lower paths followed by the upper directory. */
  lemma {:induction false} OptionsSplit(lowers: seq<string>, upper: string)
    requires |lowers| > 0
    requires forall i :: 0 <= i < |lowers| ==> ListSeparator !in lowers[i]
    requires ListSeparator !in upper
    ensures MountOptions(Join(lowers, ListSeparator), upper)[..|OptionsPrefix|] == OptionsPrefix
    ensures Split(MountOptions(Join(lowers, ListSeparator), upper)[|OptionsPrefix|..], ListSeparator) == lowers + [upper]
  {
    var all := lowers + [upper];
    forall i | 0 <= i < |all|
      ensures ListSeparator !in all[i]
    {
      if i < |lowers| {
        assert all[i] == lowers[i];
      }
    }
    var lowerdir := Join(lowers, ListSeparator);
    var rest := lowerdir + [ListSeparator] + upper;
    JoinAppend(lowers, [upper], ListSeparator);
    JoinCons(upper, [], ListSeparator);
    assert [upper] + [] == [upper];
    assert Join(all, ListSeparator) == rest;
    var options := MountOptions(lowerdir, upper);
    assert options[|OptionsPrefix|..] == rest;
    SplitJoin(all, ListSeparator);
  }

  /** The options list the lower paths in file order and then the upper
      directory as the last lowerdir entry, when root, driver and mount id
      are colon-free. */
  lemma OptionsListLowersThenUpper(root: string, driver: string, mountID: string, data: string)
    requires ListSeparator !in root && ListSeparator !in driver && ListSeparator !in mountID
    ensures var upper := LayerPath(root, driver, mountID, "diff");
      var options := MountOptions(Lowerdir(root, driver, data), upper);
      && options[..|OptionsPrefix|] == OptionsPrefix
      && Split(options[|OptionsPrefix|..], ListSeparator) == LowerEntries(root, driver, data) + [upper]
  {
    LowerEntriesColonFree(root, driver, data);
    LowerdirIsJoin(root, driver, data);
    JoinPathAvoids([root, driver, mountID, "diff"], ListSeparator);
    OptionsSplit(LowerEntries(root, driver, data), LayerPath(root, driver, mountID, "diff"));
  }

  /** The upper (`diff`) and work directories are always different paths. */
  lemma UpperIsNotWork(root: string, driver: string, mountID: string)
    ensures LayerPath(root, driver, mountID, "diff") != LayerPath(root, driver, mountID, "work")
  {
    assert [root, driver, mountID] + ["diff"] == [root, driver, mountID, "diff"];
    assert [root, driver, mountID] + ["work"] == [root, driver, mountID, "work"];
    BaseOfJoinPath([root, driver, mountID], "diff");
    BaseOfJoinPath([root, driver, mountID], "work");
  }

  // ----- the mount plan -----

  /** Everything `MountContainer` computes before running `mount`. */
  datatype MountPlan = MountPlan(
    mountID: string,
    lowerdir: string,
    upperdir: string,
    workdir: string,
    options: string,
    args: seq<string>)

  /** `MountContainer` up to the `mount` call: look the container up, read its
      mount id (untrimmed) and its `lower` file, and build the overlay options.
      The work directory is computed but does not enter the options. */
  function PlanMount(fs: FileSystem, dec: Decoders, root: string, id: string, mountpoint: string): (r: Result<MountPlan, Error>)
    ensures GetContainer(fs, dec, root, id).Failure? ==> r == Failure(GettingContainer(GetContainer(fs, dec, root, id).error))
    ensures GetContainer(fs, dec, root, id).Success? ==>
      var driver := GetContainer(fs, dec, root, id).value.driver;
      var mountID := ReadFile(fs, MountIDPath(root, driver, id));
      && (mountID.None? ==> r == Failure(ReadingMountID))
      && (mountID.Some? ==>
            var lowerFile := LayerPath(root, driver, mountID.value, LowerdirName);
            && (ReadFile(fs, lowerFile).None? ==> r == Failure(ReadingLowerFile(lowerFile)))
            && (ReadFile(fs, lowerFile).Some? ==>
                  && r.Success?
                  && r.value.mountID == mountID.value
                  && r.value.lowerdir == Join(LowerEntries(root, driver, ReadFile(fs, lowerFile).value), ListSeparator)
                  && r.value.upperdir == LayerPath(root, driver, mountID.value, "diff")
                  && r.value.workdir == LayerPath(root, driver, mountID.value, "work")
                  && r.value.options == MountOptions(Lowerdir(root, driver, ReadFile(fs, lowerFile).value), r.value.upperdir)
                  && r.value.args == ["-t", "overlay", "overlay", "-o", r.value.options, mountpoint]))
  {
    match GetContainer(fs, dec, root, id)
    case Failure(e) => Failure(GettingContainer(e))
    case Success(container) =>
      match ReadFile(fs, MountIDPath(root, container.driver, id))
      case None => Failure(ReadingMountID)
      case Some(mountID) =>
        var lowerFile := LayerPath(root, container.driver, mountID, LowerdirName);
        match ReadFile(fs, lowerFile)
        case None => Failure(ReadingLowerFile(lowerFile))
        case Some(data) =>
          LowerdirIsJoin(root, container.driver, data);
          var lowerdir := Lowerdir(root, container.driver, data);
          var upperdir := LayerPath(root, container.driver, mountID, "diff");
          var workdir := LayerPath(root, container.driver, mountID, "work");
          var options := MountOptions(lowerdir, upperdir);
          Success(MountPlan(mountID, lowerdir, upperdir, workdir, options,
                            ["-t", "overlay", "overlay", "-o", options, mountpoint]))
  }

  // ----- running mount -----

  /** What the host `mount` command did: its combined output on success, or the text of its error. */
  datatype MountRun = MountSucceeded(output: string) | MountFailed(message: string)

  /** The error a failed `mount` maps to: an invalid-lowerdir error exactly
      when the error text contains `" 32"`, the generic one otherwise. */
  function ClassifyMountFailure(message: string): (e: Error)
    ensures e.InvalidLowerdirPath? <==> exists i :: OccursAt(message, InvalidLowerdirSignal, i)
    ensures e.InvalidLowerdirPath? ==> e.detail == message
    ensures !e.InvalidLowerdirPath? ==> e == ExecutingMount(message)
  {
    if Contains(message, InvalidLowerdirSignal) then InvalidLowerdirPath(message)
    else ExecutingMount(message)
  }

  /** Any error text with `" 32"` in it, such as `exit status 32`, is
      reported as an invalid lowerdir, keeping the whole text. */
  lemma Status32IsInvalidLowerdir(before: string, after: string)
    ensures ClassifyMountFailure(before + InvalidLowerdirSignal + after)
         == InvalidLowerdirPath(before + InvalidLowerdirSignal + after)
  {
    var message := before + InvalidLowerdirSignal + after;
    assert message[|before|..|before| + |InvalidLowerdirSignal|] == InvalidLowerdirSignal;
    assert OccursAt(message, InvalidLowerdirSignal, |before|);
  }

  /** `MountContainer`: plan the mount, run `mount` with the planned
      arguments, and classify its failure. */
  function MountContainer(fs: FileSystem, dec: Decoders, root: string, id: string, mountpoint: string,
                          run: seq<string> -> MountRun): (r: Outcome<Error>)
    ensures r == Pass <==> PlanMount(fs, dec, root, id, mountpoint).Success?
                           && run(PlanMount(fs, dec, root, id, mountpoint).value.args).MountSucceeded?
    ensures PlanMount(fs, dec, root, id, mountpoint).Failure? ==> r == Fail(PlanMount(fs, dec, root, id, mountpoint).error)
    ensures r.Fail? && r.error.InvalidLowerdirPath? <==>
      && PlanMount(fs, dec, root, id, mountpoint).Success?
      && var run := run(PlanMount(fs, dec, root, id, mountpoint).value.args);
         run.MountFailed? && exists i :: OccursAt(run.message, InvalidLowerdirSignal, i)
    ensures (PlanMount(fs, dec, root, id, mountpoint).Success?
             && run(PlanMount(fs, dec, root, id, mountpoint).value.args).MountFailed?) ==>
      var message := run(PlanMount(fs, dec, root, id, mountpoint).value.args).message;
      r == Fail(if exists i :: OccursAt(message, InvalidLowerdirSignal, i)
                then InvalidLowerdirPath(message) else ExecutingMount(message))
  {
    match PlanMount(fs, dec, root, id, mountpoint)
    case Failure(e) => Fail(e)
    case Success(plan) =>
      match run(plan.args)
      case MountSucceeded(_) => Pass
      case MountFailed(message) => Fail(ClassifyMountFailure(message))
  }
}
