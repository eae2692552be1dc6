# Docker explorer core, modelled in Dafny

This project models the deterministic core of the docker explorer in
`explorers/docker/docker.go`. The explorer inspects a docker root directory
(`/var/lib/docker` of an acquired disk) without a running docker daemon.
The model covers:

- **Container enumeration.** `GetContainerIDs` lists the entries of
  `<root>/containers`. `ListContainers` builds one record per container
  from `config.v2.json`. It skips containers that only have `config.json`,
  or neither file, and aborts on an unreadable or malformed
  `config.v2.json`. `getContainer` looks up one container, with no
  fallback to `config.json`.
- **Record conversion.** `convertToContainerExplorerContainer` copies the
  fields of docker's configuration, and takes the exposed ports from the
  key set of a map.
- **Image enumeration.** `ListImages` emits one image per
  (reference, digest) entry of every storage directory's
  `repositories.json`. For the `overlay2` storage only, it fills in the
  creation time from the image content file; `readImageContent` splits
  the digest and finds that file. Failing to enrich an image never drops it.
- **Overlay mounting.** `MountContainer` reads the container's mount id
  and its `lower` file, resolves each lower layer to
  `<root>/<driver>/<segment>`, and builds the read-only option string
  `ro,lowerdir=<lowers>:<upper>`. It then runs `mount -t overlay` and
  classifies a failure by the text `" 32"` (mount's exit status for a
  mount failure).

Modules:

| module | file | contents |
|---|---|---|
| `Basics` | basics.dfy | `Option`, `Result`, `Outcome`, `NoDuplicates` |
| `Strings` | strings.dfy | `strings.Split`, `strings.Join` and `strings.Contains` for a one-character separator |
| `Paths` | paths.dfy | `filepath.Join` (empty elements dropped, no `Clean`) and the file part of `filepath.Split` |
| `Files` | files.dfy | the read-only disk: `os.Stat`, `ioutil.ReadFile`, `filepath.Glob(dir/*)` |
| `Records` | records.dfy | the layout constants, docker's and the explorer's records, the decoders, the errors |
| `Containers` | containers.dfy | `GetContainerIDs`, `ListContainers`, `getContainer`, the conversion |
| `Images` | images.dfy | `readImageContent`, `ListImages` |
| `Mount` | mount.dfy | `MountContainer` |

The disk is a map from path to node. A node is either a file, whose
contents may be unreadable, or a directory, with its entry names in
listing order. JSON decoding is a set of partial functions
(`Records.Decoders`), because the decoded types and `encoding/json` are
not part of this model. Running `mount` is a function parameter from the
argument list to the command's outcome.

Go map iteration has no fixed order, and the explorer iterates maps for
exposed ports and for repository entries. The methods that model those
loops therefore choose the next key nondeterministically (`:|`). Their
contracts do not depend on the order:

- the ports equal the key set as a multiset;
- the images are in one-to-one correspondence with a ghost list of map
  entries.

Behaviours of the code worth stating explicitly:

- An empty `lower` file gives one lowerdir entry, `<root>/<driver>`.
  `strings.Split` of the empty string yields one empty
  segment, and `filepath.Join` drops it. `Mount.EmptyLowerFile` states
  this.
- A container with only `config.json` is skipped without any log entry.
  Only a container with neither file is logged, and logging is not
  modelled.
- There is no unmount operation.
- Candidate container IDs are all entries of `<root>/containers`, plain
  files included. A plain file there has no `config.v2.json` and
  is skipped like a container with neither file.
- A missing `lower` file is reported as a failure to read the lower file.
- The placeholder methods return empty success.

## Model

| member | source | states |
|---|---|---|
| Files.ReadFile | explorers/docker/docker.go:402-405 | a file that can be read also passes the `fileExists` check |
| Files.Glob | explorers/docker/docker.go:117 | the glob of `dir/*` yields one path per directory entry, and none for a missing path or a non-directory |
| Strings.Split | explorers/docker/docker.go:324 | `strings.Split` on one separator gives one more piece than there are separators, and no piece contains the separator |
| Strings.SplitJoin | explorers/docker/docker.go:323-331 | splitting the join of separator-free pieces gives the pieces back |
| Strings.JoinSplit | explorers/docker/docker.go:436-441 | joining the pieces of a split gives the original string back |
| Strings.Contains | explorers/docker/docker.go:351 | `strings.Contains` holds exactly when the text occurs at some index |
| Paths.NonEmptyAppend | explorers/docker/docker.go:141-144 | dropping the empty elements of `filepath.Join` commutes with concatenation, so the kept elements stay in input order with their multiplicity |
| Paths.NonEmptyFacts | explorers/docker/docker.go:141-144 | together with `Paths.NonEmptyAppend`, `filepath.Join` keeps exactly the non-empty elements: each kept element is non-empty and comes from the input, every non-empty input element is kept, and nothing is kept exactly when all elements are empty |
| Paths.JoinPathNested | explorers/docker/docker.go:141-144 | joining onto a joined path equals joining all the elements at once |
| Paths.BaseOfChild | explorers/docker/docker.go:124 | `filepath.Split` of `dir/name` returns `name` for a slash-free name |
| Paths.BaseIsLastPart | explorers/docker/docker.go:233 | the file part of a path is its longest slash-free suffix |
| Paths.JoinPathAvoids | explorers/docker/docker.go:325 | a character other than `/` is in a joined path only if some element holds it |
| Containers.GetContainerIDs | explorers/docker/docker.go:116-128 | there is one ID per globbed path |
| Containers.ContainerIDsAreEntryNames | explorers/docker/docker.go:116-128 | on a well-formed disk, the IDs are the entry names of the containers directory, in listing order; there are none when it is missing |
| Containers.ReadContainerEntry | explorers/docker/docker.go:140-170 | an existing `config.v2.json` decides the entry: listed with its decoded configuration, or the reading or unmarshalling error. `config.json` is looked at only when `config.v2.json` is absent, and then only to skip. Neither file means skip |
| Containers.CollectConfigs | explorers/docker/docker.go:138-173 | the listing holds at most one configuration per container |
| Containers.CollectSucceedsIffEntriesSucceed | explorers/docker/docker.go:140-173 | the listing succeeds exactly when no container's entry fails |
| Containers.CollectAppend | explorers/docker/docker.go:140-171 | listing IDs `a + b` is listing `a`, then `b`, with the first error winning |
| Containers.CollectFailurePersists | explorers/docker/docker.go:146-154 | once a prefix of the IDs fails, the whole listing fails with that first error, whatever follows |
| Containers.CollectAround | explorers/docker/docker.go:140-171 | the listing is what precedes a container, then that container's contribution, then what follows |
| Containers.CollectWithout | explorers/docker/docker.go:140-171 | without one container, the listing is what precedes it followed by what follows it |
| Containers.CollectExtend | explorers/docker/docker.go:140-171 | one iteration: a failing entry fails the listing; a listed entry appends its configuration; a skipped entry appends nothing |
| Containers.SkippedContainerContributesNothing | explorers/docker/docker.go:161-170 | a container with only `config.json`, or with neither file, neither fails the listing nor adds to it: the result equals the listing without it |
| Containers.ListedContainerContributesOne | explorers/docker/docker.go:143-158 | a container with a valid `config.v2.json` contributes exactly its decoded configuration, at its position in ID order |
| Containers.BadConfigFailsListing | explorers/docker/docker.go:145-154 | an existing `config.v2.json` that cannot be read or decoded fails the whole listing |
| Containers.EntriesWithout | explorers/docker/docker.go:140 | dropping an ID drops exactly its entry |
| Containers.ContainerWithoutV2IsIgnored | explorers/docker/docker.go:140-170 | a container directory without `config.v2.json` leaves the listing equal to the listing of the other IDs |
| Containers.ConvertToContainer | explorers/docker/docker.go:409-432 | `ID`, `Created`, `Image`, `Driver` as snapshotter, `Name` as runtime name, `Hostname` and `State.Running` are copied unchanged. The exposed ports are the map's keys, each exactly once, in any order, and none for a nil map |
| Containers.AppendConverted | explorers/docker/docker.go:155-156 | appending one converted configuration keeps the records in step with the configurations |
| Containers.ListStep | explorers/docker/docker.go:140-171 | one iteration of the listing loop stops with the listing's error, or extends the records with the entry's conversion |
| Containers.ConvertListed | explorers/docker/docker.go:138-173 | the loop fails exactly when the listing of its IDs fails, with the same error; otherwise it returns one converted record per listed configuration, in order |
| Containers.ListContainers | explorers/docker/docker.go:131-174 | the same as `ConvertListed`, for the entries of `<root>/containers` |
| Containers.GetContainer | explorers/docker/docker.go:376-400 | "container does not exist" exactly when the container directory is missing. A missing `config.v2.json` is an error, with no fallback to `config.json`. Reading and unmarshalling errors are reported as such. Success exactly when the file is present, readable and decodes, and the result is its decoding |
| Containers.GetContainerAgreesWithListing | explorers/docker/docker.go:376-400 | for an existing container directory, `getContainer` succeeds exactly when the listing lists the container, and it returns the same configuration |
| Containers.ListedIDsAreGettable | explorers/docker/docker.go:131-159 | on a well-formed disk, every enumerated ID names an existing container directory, `getContainer` succeeds on it exactly when the listing lists it, and then returns the configuration the listing lists |
| Images.SplitDigest | explorers/docker/docker.go:436-441 | a digest is accepted exactly when it has one colon, i.e. two fields; otherwise the result is the field-count error. On acceptance, `algo + ":" + hex` is the digest and neither part has a colon |
| Images.SplitDigestRoundTrip | explorers/docker/docker.go:436-441 | any colon-free algorithm and hex are recovered from the digest they form |
| Images.ReadImageContent | explorers/docker/docker.go:435-465 | a bad digest fails before any file is read. Otherwise `<storagepath>/imagedb/content/<algo>/<hex>` is read and decoded, and the read or decode error is reported. Success exactly when the file is readable and decodes, and the result is its decoding |
| Images.EnrichedImage | explorers/docker/docker.go:253-272 | the name is the reference and the digest is the target. A creation time is present exactly when the storage is `overlay2` and the content read succeeds, and it is the content's creation time |
| Images.LoadStorage | explorers/docker/docker.go:233-250 | a storage is named by the file part of its directory; an unreadable `repositories.json` gives the read error and an undecodable one the decode error, each naming the file; otherwise the storage holds the decoded repositories map |
| Images.BadRepositoriesFileFailsListing | explorers/docker/docker.go:232-250 | a storage directory whose `repositories.json` cannot be read or decoded fails the whole load, whatever the other storages hold |
| Images.LoadStorages | explorers/docker/docker.go:232-250 | the repositories files of all storage directories load, in order, or an error is returned; on success, storage i is the loading of directory i |
| Images.LoadFailureIsFirst | explorers/docker/docker.go:232-250 | a failed load reports the error of the first storage directory whose repositories file fails to read or decode; every earlier directory loads |
| Images.LoadFailurePersists | explorers/docker/docker.go:242-250 | once one storage directory fails to load, the whole listing fails with that error |
| Images.FlattenRepository | explorers/docker/docker.go:253-273 | one repository gives one image per reference (as many images as the repository has references), each exactly once, each the (possibly enriched) image of its entry |
| Images.FlattenStorage | explorers/docker/docker.go:252-274 | one storage gives one image per (repository, reference) entry, each exactly once |
| Images.FlattenedExtend | explorers/docker/docker.go:232-275 | appending the next storage's images keeps the listing a one-to-one image of all entries, with storages in order |
| Images.ListImages | explorers/docker/docker.go:214-278 | a missing `<root>/image` fails with "not found". Otherwise the listing fails exactly when some repositories file cannot be read or decoded, with the first such error. On success there is exactly one image per inner entry of every storage, storages in glob order, each with `Name` = reference and digest = target |
| Mount.LowerEntries | explorers/docker/docker.go:324-325 | there is one resolved lower path per colon-separated segment of the `lower` file |
| Mount.LowerdirLoopJoins | explorers/docker/docker.go:323-331 | continuing the lowerdir loop from a correctly built prefix gives the colon-join of all the paths |
| Mount.LowerdirIsJoin | explorers/docker/docker.go:323-331 | the lowerdir loop computes the colon-join of the resolved lower paths, in file order |
| Mount.LowerEntriesColonFree | explorers/docker/docker.go:324-325 | with colon-free root and driver, no resolved lower path has a colon |
| Mount.LowerdirEntries | explorers/docker/docker.go:323-331 | with colon-free root and driver, lowerdir has exactly as many colon-separated entries as the `lower` file has segments, and entry i is `<root>/<driver>/<segment i>` |
| Mount.EmptyLowerFile | explorers/docker/docker.go:323-331 | an empty `lower` file gives lowerdir `<root>/<driver>` |
| Mount.OptionsSplit | explorers/docker/docker.go:343 | the options start with `ro,lowerdir=`, and the rest splits into the lower paths followed by the upper directory |
| Mount.OptionsListLowersThenUpper | explorers/docker/docker.go:333-344 | with colon-free root, driver and mount id, the lowerdir list in the options is the resolved lower paths in file order, then `<root>/<driver>/<mountID>/diff` as the last entry |
| Mount.UpperIsNotWork | explorers/docker/docker.go:333-334 | the upper directory and the work directory are different paths |
| Mount.PlanMount | explorers/docker/docker.go:299-344 | a `getContainer` failure is wrapped. The mount id is read from `<root>/image/<driver>/layerdb/mounts/<id>/mount-id` and used untrimmed. The `lower` file is `<root>/<driver>/<mountID>/lower`. Each read failure has its own error. On success: lowerdir is the colon-join of the resolved lower paths; upper and work are `diff` and `work` under the mount id; the options are prefix, lowerdir, colon, upper, without the work directory; the arguments are `-t overlay overlay -o <options> <mountpoint>` |
| Mount.ClassifyMountFailure | explorers/docker/docker.go:348-354 | a failed mount is an invalid-lowerdir error exactly when its error text contains `" 32"`, and the generic execution error with the same text otherwise |
| Mount.Status32IsInvalidLowerdir | explorers/docker/docker.go:351-352 | any mount error text containing `" 32"`, such as `exit status 32`, is classified as an invalid lowerdir and keeps the whole text |
| Mount.MountContainer | explorers/docker/docker.go:299-362 | success exactly when planning succeeds and `mount` succeeds with the planned arguments. A planning failure is returned as is. A failed `mount` gives the invalid-lowerdir error, carrying the error text, when that text contains `" 32"`, and otherwise the execution error carrying the text |

## Left out

- `NewExplorer`, `ListNamespaces` and `Close` (docker.go:66-113, 371-373): thin wrappers over the bbolt database and containerd's namespace store, whose formats are not part of this model.
- `SnapshotRoot`, `ListContent`, `ListSnapshots`, `InfoContainer`, `MountAllContainers`: placeholders without behaviour.
- Running `mount`: its outcome is the `run` parameter of `Mount.MountContainer`; the command's output on success is only logged.
- JSON decoding: `Records.Decoders` holds abstract partial functions. `ConfigFile`, `Config` and the two `Config` fields of the image content summary are defined outside docker.go. `time.Time` is an opaque timestamp that is only copied.
- Logging, and `context.Context` cancellation.
- The lexical clean-up of `filepath.Join` (collapsing `//`, `.` and `..`): paths are joined with empty elements dropped, so a path written with redundant separators denotes a different map key than its cleaned form.
- `filepath.Glob` pattern matching, its errors and its sorting: the model takes the root path literally, whereas a root holding valid pattern metacharacters (`*`, `?`, `[1]`) is matched as a pattern by the code and a malformed one gives `ErrBadPattern`; and the glob returns the directory's entries in the listing order the disk model records, which is assumed to be Go's sorted order.
- The text of Go's wrapped errors: each error is a constructor that keeps the file name where the source prints one, but not the underlying library error.
- Unmounting: docker.go has no unmount operation.
- Containers.GetContainerIDs: its own contract states only the count; the entry names are stated by `Containers.ContainerIDsAreEntryNames`, on a well-formed disk.
- Containers.CollectConfigs: its own contract states only the size bound; the success condition and the per-container contributions are stated by the lemmas about it.
- Mount.LowerdirEntries: the entry count and order are stated for colon-free root and driver names. A colon in either would split one path into several entries in the mount options, exactly as it would for `mount` itself.
- Mount.UpperIsNotWork: the work directory is computed but never placed in the options. A lower segment of the form `<mountID>/work` would still resolve to the same path as the work directory; the model does not exclude that.
