/** The records the docker explorer reads and produces, the errors it reports,
    and the fixed names of its on-disk layout. */
module Records {
  import opened Basics

  const ConfigV1Filename := "config.json"
  const ConfigV2Filename := "config.v2.json"
  const ContainersDirName := "containers"
  const LowerdirName := "lower"
  const RepositoriesDirName := "image"
  const RepositoriesFileName := "repositories.json"
  const StorageOverlay2 := "overlay2"

  /** A decoded `time.Time`; the model only copies it, so its text stands for it. */
  datatype Timestamp = Timestamp(text: string)

  // ----- docker's container configuration (config.v2.json) -----

  /** The inner `Config` of a container configuration. `exposedPorts` is `None`
      for a nil map; only its key set matters. */
  datatype ContainerConfig = ContainerConfig(hostname: string, exposedPorts: Option<set<string>>)

  datatype ContainerState = ContainerState(running: bool)

  /** The fields of docker's `ConfigFile` the explorer uses. */
  datatype ConfigFile = ConfigFile(
    id: string,
    created: Timestamp,
    image: string,
    driver: string,
    name: string,
    config: ContainerConfig,
    state: ContainerState)

  // ----- the explorer's own container record -----

  datatype RuntimeInfo = RuntimeInfo(name: string)

  /** containerd's `containers.Container`, restricted to the fields that are set. */
  datatype ContainerInfo = ContainerInfo(
    id: string,
    createdAt: Timestamp,
    image: string,
    snapshotter: string,
    runtime: RuntimeInfo)

  /** `explorers.Container`. */
  datatype Container = Container(
    hostname: string,
    container: ContainerInfo,
    running: bool,
    exposedPorts: seq<string>)

  // ----- images -----

  /** `ImageRepository`: repository name to (reference to digest). */
  datatype ImageRepository = ImageRepository(repositories: map<string, map<string, string>>)

  datatype HistoryItem = HistoryItem(
    created: Timestamp,
    author: string,
    createdBy: string,
    comment: string,
    emptyLayer: bool)

  datatype RootFS = RootFS(fsType: string, diffIDs: seq<string>)

  /** `imageContentSummary`, without the two `Config` fields whose type is defined elsewhere. */
  datatype ImageContentSummary = ImageContentSummary(
    id: string,
    architecture: string,
    comment: string,
    container: string,
    created: Timestamp,
    dockerVersion: string,
    history: seq<HistoryItem>,
    os: string,
    parent: string,
    rootfs: RootFS)

  /** `explorers.Image`: a name, the target digest and, when enrichment worked,
      the creation time. `None` means the image was not enriched, which the
      explorer reports as the zero `time.Time`; `Some` may itself hold a zero
      timestamp decoded from the content file. */
  datatype Image = Image(name: string, digest: string, createdAt: Option<Timestamp>)

  // ----- decoding -----

  /** `json.Unmarshal` into each record type, as partial functions of the file bytes. */
  datatype Decoders = Decoders(
    configFile: string -> Option<ConfigFile>,
    imageRepository: string -> Option<ImageRepository>,
    imageContent: string -> Option<ImageContentSummary>)

  // ----- errors -----

  /** One constructor per error the explorer returns; the wrapped Go error text
      of the failing library call is not modelled. */
  datatype Error =
    | ReadingConfigFile(file: string)
    | UnmarshallingConfigFile
    | ContainerDoesNotExist
    | ContainerConfigNotFound(file: string)
    | ReadingContainerConfig(file: string)
    | UnmarshallingContainerConfig
    | RepositoriesDirNotFound(dir: string)
    | ReadingRepositoryFile(file: string)
    | UnmarshallingRepositoryFile(file: string)
    | DigestFieldCount
    | ReadingImageContent(file: string)
    | UnmarshallingImageContent
    | GettingContainer(cause: Error)
    | ReadingMountID
    | ReadingLowerFile(file: string)
    | InvalidLowerdirPath(detail: string)
    | ExecutingMount(detail: string)
}
