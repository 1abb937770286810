/**
 * The decision tables every update screen repeats: whether an update gets the
 * "active" layout, and which action button (and long-press delete) it offers.
 */
module StatusActions {
  import opened JavaLang
  import opened UpdateModel
  import Utils

  /** The update actions a button can carry. */
  datatype Action =
    | Download | Pause | Resume | Install | Info | InfoList | Delete | CancelInstallation | Reboot

  datatype ButtonState = ButtonState(action: Action, enabled: bool)

  /**
   * The `activeLayout` switch: an update with an incomplete file is always shown active,
   * one with no file only while starting, one with a verified file only while installing;
   * any other persistent status throws.
   */
  function ActiveLayout(persistentStatus: int, status: Status): (r: Result<bool>)
    ensures r.Err? <==> persistentStatus !in {PERSISTENT_UNKNOWN, PERSISTENT_VERIFIED, PERSISTENT_INCOMPLETE}
    ensures r.Err? ==> r.error == UnknownUpdateStatus
    ensures r == Ok(true) <==>
      || persistentStatus == PERSISTENT_INCOMPLETE
      || (persistentStatus == PERSISTENT_UNKNOWN && status == Starting)
      || (persistentStatus == PERSISTENT_VERIFIED && status == Installing)
  {
    if persistentStatus == PERSISTENT_UNKNOWN then Ok(status == Starting)
    else if persistentStatus == PERSISTENT_VERIFIED then Ok(status == Installing)
    else if persistentStatus == PERSISTENT_INCOMPLETE then Ok(true)
    else Err(UnknownUpdateStatus)
  }

  /** The text shown under the progress bar of an active update. */
  datatype ProgressText =
    | DownloadProgressWithEta
    | DownloadProgress
    | PrepareZipMessage
    | FinalizingPackage
    | PreparingOtaFirstBoot
    | VerifyingUpdate

  /**
   * An active update's row: the button, whether long-press offers delete, the progress
   * text, whether the bar is indeterminate, and the value the bar is set to (if any).
   */
  datatype ActiveView = ActiveView(
    button: ButtonState, canDelete: bool, text: ProgressText, indeterminate: bool, bar: Option<int>)

  /**
   * `handleActiveStatus`, first match wins: downloading, installing, verifying, and
   * otherwise paused. The downloading and paused rows print the length of the download
   * file, so there a missing file throws.
   */
  function ActiveStatusView(c: ControllerView, u: UpdateInfo): (r: Result<ActiveView>)
    ensures r.Err? <==>
      (u.base.downloadId in c.downloading || u.base.downloadId !in c.installing + c.verifying)
      && u.fileLength.None?
    ensures r.Err? ==> r.error == NullPointer
    ensures r.Ok? && u.base.downloadId in c.downloading ==>
      && r.value.button == ButtonState(Pause, true) && r.value.canDelete
      && (r.value.text == DownloadProgressWithEta <==> u.eta > 0)
      && (r.value.indeterminate <==> u.status == Starting)
      && r.value.bar == Some(u.progress)
    ensures u.base.downloadId !in c.downloading && u.base.downloadId in c.installing ==>
      && r.Ok? && r.value.button == ButtonState(CancelInstallation, true) && !r.value.canDelete
      && r.value.text == (if c.notInstallingABUpdate then PrepareZipMessage
                          else if u.finalizing then FinalizingPackage else PreparingOtaFirstBoot)
      && !r.value.indeterminate && r.value.bar == Some(u.installProgress)
    ensures u.base.downloadId !in c.downloading && u.base.downloadId !in c.installing
            && u.base.downloadId in c.verifying ==>
      r == Ok(ActiveView(ButtonState(Install, false), false, VerifyingUpdate, true, None))
    ensures r.Ok? && u.base.downloadId !in c.downloading + c.installing + c.verifying ==>
      r.value == ActiveView(ButtonState(Resume, Utils.IsBusy(c)), true, DownloadProgress, false, Some(u.progress))
  {
    var id := u.base.downloadId;
    if id in c.downloading then
      if u.fileLength.None? then Err(NullPointer)
      else
        Ok(ActiveView(ButtonState(Pause, true), true,
                      if u.eta > 0 then DownloadProgressWithEta else DownloadProgress,
                      u.status == Starting, Some(u.progress)))
    else if id in c.installing then
      Ok(ActiveView(ButtonState(CancelInstallation, true), false,
                    if c.notInstallingABUpdate then PrepareZipMessage
                    else if u.finalizing then FinalizingPackage else PreparingOtaFirstBoot,
                    false, Some(u.installProgress)))
    else if id in c.verifying then
      Ok(ActiveView(ButtonState(Install, false), false, VerifyingUpdate, true, None))
    else if u.fileLength.None? then Err(NullPointer)
    else
      Ok(ActiveView(ButtonState(Resume, Utils.IsBusy(c)), true, DownloadProgress, false, Some(u.progress)))
  }

  /** Long-press delete is withheld from an active update exactly while it installs or verifies. */
  lemma ActiveCanDeleteUnlessBusyWithIt(c: ControllerView, u: UpdateInfo)
    requires ActiveStatusView(c, u).Ok?
    ensures ActiveStatusView(c, u).value.canDelete <==>
      (u.base.downloadId in c.downloading || u.base.downloadId !in c.installing + c.verifying)
  {
  }

  /** An active update's only button that acts is pause, cancel, or resume when the controller is idle. */
  lemma ActiveEnabledButtons(c: ControllerView, u: UpdateInfo)
    requires ActiveStatusView(c, u).Ok?
    ensures var b := ActiveStatusView(c, u).value.button;
      b.enabled ==> b.action in {Pause, CancelInstallation} || (b.action == Resume && Utils.IsBusy(c))
    ensures ActiveStatusView(c, u).value.button.action != Install || !ActiveStatusView(c, u).value.button.enabled
  {
  }

  /** An update that is not active: its button and whether long-press offers delete. */
  datatype IdleView = IdleView(button: ButtonState, canDelete: bool)

  /**
   * `handleNotActiveStatus`, first match wins: waiting for reboot, a verified file
   * (install or delete), not installable (info), and otherwise download. The last three
   * are enabled only while the controller is idle. The install test may throw.
   */
  function IdleStatusView(c: ControllerView, u: UpdateInfo, buildDate: int, buildVersion: string): (r: Result<IdleView>)
    ensures u.base.downloadId in c.waitingForReboot ==> r == Ok(IdleView(ButtonState(Reboot, true), false))
    ensures u.base.downloadId !in c.waitingForReboot ==>
      (r.Err? <==> Utils.CanInstall(u.base, buildDate, buildVersion).Err?)
    ensures r.Ok? && u.base.downloadId !in c.waitingForReboot ==>
      && r.value.button.enabled == Utils.IsBusy(c)
      && (r.value.canDelete <==> u.persistentStatus == PERSISTENT_VERIFIED)
      && r.value.button.action ==
        (if u.persistentStatus == PERSISTENT_VERIFIED then
           (if Utils.CanInstall(u.base, buildDate, buildVersion) == Ok(true) then Install else Delete)
         else if Utils.CanInstall(u.base, buildDate, buildVersion) == Ok(true) then Download
         else Info)
  {
    if u.base.downloadId in c.waitingForReboot then
      Ok(IdleView(ButtonState(Reboot, true), false))
    else
      match Utils.CanInstall(u.base, buildDate, buildVersion)
      case Err(e) => Err(e)
      case Ok(installable) =>
        if u.persistentStatus == PERSISTENT_VERIFIED then
          Ok(IdleView(ButtonState(if installable then Install else Delete, Utils.IsBusy(c)), true))
        else if !installable then
          Ok(IdleView(ButtonState(Info, Utils.IsBusy(c)), false))
        else
          Ok(IdleView(ButtonState(Download, Utils.IsBusy(c)), false))
  }

  /**
   * A download, install or delete offered by an idle update can be pressed only while the
   * controller has no active download, verification or installation.
   */
  lemma IdleButtonsNeedIdleController(c: ControllerView, u: UpdateInfo, buildDate: int, buildVersion: string)
    requires IdleStatusView(c, u, buildDate, buildVersion).Ok?
    ensures var b := IdleStatusView(c, u, buildDate, buildVersion).value.button;
      b.enabled && b.action != Reboot ==>
        c.hasNoActiveDownloads && !c.verifyingAny && c.notInstallingUpdate
  {
  }

  /** Install and download are offered only for an update that passes the install test. */
  lemma IdleInstallOnlyIfInstallable(c: ControllerView, u: UpdateInfo, buildDate: int, buildVersion: string)
    requires IdleStatusView(c, u, buildDate, buildVersion).Ok?
    ensures var a := IdleStatusView(c, u, buildDate, buildVersion).value.button.action;
      a in {Install, Download} ==> Utils.InstallConditions(u.base, buildDate, buildVersion)
    ensures var a := IdleStatusView(c, u, buildDate, buildVersion).value.button.action;
      a == Install ==> u.persistentStatus == PERSISTENT_VERIFIED
  {
  }
}
