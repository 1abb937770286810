/**
 * The update record shared by the feed parser, the controller and the screens,
 * the status vocabulary, and the controller queries the screens consult.
 */
module UpdateModel {
  import opened JavaLang

  /**
   * The fourteen properties of an update package that the feed describes
   * (the `UpdateBaseInfo` interface). Java `long` fields are unbounded integers here.
   */
  datatype UpdateBaseInfo = UpdateBaseInfo(
    versionName: JString,
    name: JString,
    device: JString,
    requirement: int,
    incr: JString,
    pType: JString,
    changeLog: JString,
    imageUrl: JString,
    downloadUrl: JString,
    downloadId: JString,
    timestamp: int,
    romType: JString,
    version: JString,
    fileSize: int)

  /** Every field of a freshly constructed `UpdateBase`: null references and zero longs. */
  const EmptyInfo: UpdateBaseInfo :=
    UpdateBaseInfo(None, None, None, 0, None, None, None, None, None, None, 0, None, None, 0)

  /** The mutable update record. */
  class UpdateBase {
    var versionName: JString
    var name: JString
    var device: JString
    var requirement: int
    var incr: JString
    var pType: JString
    var changeLog: JString
    var imageUrl: JString
    var downloadUrl: JString
    var downloadId: JString
    var timestamp: int
    var romType: JString
    var version: JString
    var fileSize: int

    /** The record's current fields; each getter of the source returns one of them. */
    function Info(): UpdateBaseInfo
      reads this
    {
      UpdateBaseInfo(versionName, name, device, requirement, incr, pType, changeLog,
                     imageUrl, downloadUrl, downloadId, timestamp, romType, version, fileSize)
    }

    constructor ()
      ensures Info() == EmptyInfo
    {
      versionName, name, device, requirement, incr := None, None, None, 0, None;
      pType, changeLog, imageUrl, downloadUrl := None, None, None, None;
      downloadId, timestamp, romType, version, fileSize := None, 0, None, None, 0;
    }

    /**
     * The copy constructor copies every field except the requirement date, which it
     * leaves at zero.
     */
    constructor Copy(update: UpdateBaseInfo)
      ensures Info() == update.(requirement := 0)
    {
      versionName := update.versionName;
      name := update.name;
      device := update.device;
      requirement := 0;
      incr := update.incr;
      pType := update.pType;
      changeLog := update.changeLog;
      imageUrl := update.imageUrl;
      downloadUrl := update.downloadUrl;
      downloadId := update.downloadId;
      timestamp := update.timestamp;
      romType := update.romType;
      version := update.version;
      fileSize := update.fileSize;
    }

    method SetVersionName(v: JString)
      modifies this
      ensures Info() == old(Info()).(versionName := v)
    {
      versionName := v;
    }

    method SetName(v: JString)
      modifies this
      ensures Info() == old(Info()).(name := v)
    {
      name := v;
    }

    method SetRequirement(v: int)
      modifies this
      ensures Info() == old(Info()).(requirement := v)
    {
      requirement := v;
    }

    method SetDevice(v: JString)
      modifies this
      ensures Info() == old(Info()).(device := v)
    {
      device := v;
    }

    method SetPType(v: JString)
      modifies this
      ensures Info() == old(Info()).(pType := v)
    {
      pType := v;
    }

    method SetIncr(v: JString)
      modifies this
      ensures Info() == old(Info()).(incr := v)
    {
      incr := v;
    }

    method SetChangeLog(v: JString)
      modifies this
      ensures Info() == old(Info()).(changeLog := v)
    {
      changeLog := v;
    }

    method SetImageUrl(v: JString)
      modifies this
      ensures Info() == old(Info()).(imageUrl := v)
    {
      imageUrl := v;
    }

    method SetDownloadId(v: JString)
      modifies this
      ensures Info() == old(Info()).(downloadId := v)
    {
      downloadId := v;
    }

    method SetTimestamp(v: int)
      modifies this
      ensures Info() == old(Info()).(timestamp := v)
    {
      timestamp := v;
    }

    method SetType(v: JString)
      modifies this
      ensures Info() == old(Info()).(romType := v)
    {
      romType := v;
    }

    method SetVersion(v: JString)
      modifies this
      ensures Info() == old(Info()).(version := v)
    {
      version := v;
    }

    method SetDownloadUrl(v: JString)
      modifies this
      ensures Info() == old(Info()).(downloadUrl := v)
    {
      downloadUrl := v;
    }

    method SetFileSize(v: int)
      modifies this
      ensures Info() == old(Info()).(fileSize := v)
    {
      fileSize := v;
    }
  }

  /** The transient download/install state the controller keeps for an update. */
  datatype Status =
    | Unknown | Starting | Downloading | Paused | PausedError | Deleted
    | Verifying | Verified | VerificationFailed
    | Installing | Installed | InstallationFailed | InstallationCancelled
    | InstallationSuspended | WaitingForReboot

  /** The persisted state of an update's file. */
  const PERSISTENT_UNKNOWN: int := 0
  const PERSISTENT_INCOMPLETE: int := 1
  const PERSISTENT_VERIFIED: int := 2

  /**
   * What the screens read of one update kept by the controller: the feed record,
   * the state, and the progress figures. `fileLength` is the length of the download
   * file, absent while the update has no file (`getFile()` is null).
   */
  datatype UpdateInfo = UpdateInfo(
    base: UpdateBaseInfo,
    status: Status,
    persistentStatus: int,
    availableOnline: bool,
    fileLength: Option<int>,
    progress: int,
    eta: int,
    installProgress: int,
    finalizing: bool)

  /**
   * The answers of the update controller, which is not part of this model. The sets
   * hold the ids for which the per-update query answers yes; the booleans are the
   * controller-wide queries. Nothing ties the two together.
   */
  datatype ControllerView = ControllerView(
    downloading: set<JString>,
    installing: set<JString>,
    verifying: set<JString>,
    waitingForReboot: set<JString>,
    hasNoActiveDownloads: bool,
    verifyingAny: bool,
    notInstallingUpdate: bool,
    notInstallingABUpdate: bool)
}
