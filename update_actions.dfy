/**
 * What the buttons and menus of an update row do: the click each action is wired to,
 * the long-press menu, export, the mobile-data warning and the delete and install
 * dialogs.
 */
module UpdateActions {
  import opened JavaLang
  import opened UpdateModel
  import opened StatusActions
  import Utils

  /** What pressing the button ends up doing. */
  datatype Click =
    | NoClick
    | StartDownloadWithWarning
    | PauseDownload
    | ResumeDownload
    | NotInstallableSnackbar
    | ShowInstallDialog
    | ShowInfoDialog
    | ShowDeleteDialog
    | ShowCancelInstallationDialog
    | RebootDevice

  /** The button as wired: enabled state, whether it is drawn at the theme's disabled alpha, and its click. */
  datatype ButtonBinding = ButtonBinding(enabled: bool, dimmed: bool, click: Click)

  /**
   * `setButtonAction`. Resume and install look the update up in the controller and run
   * the install test when the button is wired, enabled or not, so a missing update or a
   * failing test throws there. Resume is allowed when the update is installable or its
   * file is already complete; otherwise the click only shows a snackbar. The file length
   * is read only when the install test fails, and a missing file then throws.
   */
  function SetButtonAction(action: Action, enabled: bool, update: Option<UpdateInfo>,
                           buildDate: int, buildVersion: string): (r: Result<ButtonBinding>)
    ensures action !in {Resume, Install} ==> r.Ok?
    ensures action in {Resume, Install} && update.None? ==> r == Err(NullPointer)
    ensures action == Install && update.Some? ==>
      (r.Err? <==> Utils.CanInstall(update.value.base, buildDate, buildVersion).Err?)
    ensures action == Resume && update.Some? ==>
      (r.Err? <==> Utils.CanInstall(update.value.base, buildDate, buildVersion).Err?
                   || (Utils.CanInstall(update.value.base, buildDate, buildVersion) == Ok(false)
                       && update.value.fileLength.None?))
    ensures r.Err? ==> r.error == NullPointer
    ensures r.Ok? ==> r.value.enabled == enabled && r.value.dimmed == !enabled
    ensures r.Ok? ==> (r.value.click == NoClick <==> !enabled)
    ensures r.Ok? && enabled && action == Resume ==>
      (r.value.click == ResumeDownload <==>
         Utils.CanInstall(update.value.base, buildDate, buildVersion) == Ok(true)
         || update.value.fileLength == Some(update.value.base.fileSize))
    ensures r.Ok? && enabled && action == Install ==>
      (r.value.click == ShowInstallDialog <==> Utils.CanInstall(update.value.base, buildDate, buildVersion) == Ok(true))
    ensures r.Ok? && r.value.click == NotInstallableSnackbar ==> action in {Resume, Install}
    ensures r.Ok? && enabled && action == Download ==> r.value.click == StartDownloadWithWarning
    ensures r.Ok? && enabled && action == Pause ==> r.value.click == PauseDownload
    ensures r.Ok? && enabled && action in {Info, InfoList} ==> r.value.click == ShowInfoDialog
    ensures r.Ok? && enabled && action == Delete ==> r.value.click == ShowDeleteDialog
    ensures r.Ok? && enabled && action == CancelInstallation ==> r.value.click == ShowCancelInstallationDialog
    ensures r.Ok? && enabled && action == Reboot ==> r.value.click == RebootDevice
  {
    var clicked: Result<Click> :=
      match action
      case Download => Ok(StartDownloadWithWarning)
      case Pause => Ok(PauseDownload)
      case Resume =>
        if update.None? then Err(NullPointer)
        else
          (match Utils.CanInstall(update.value.base, buildDate, buildVersion)
           case Err(e) => Err(e)
           case Ok(installable) =>
             // `||` reads the file length only when the install test fails
             if installable then Ok(ResumeDownload)
             else if update.value.fileLength.None? then Err(NullPointer)
             else Ok(if update.value.fileLength.value == update.value.base.fileSize then ResumeDownload
                     else NotInstallableSnackbar))
      case Install =>
        if update.None? then Err(NullPointer)
        else
          (match Utils.CanInstall(update.value.base, buildDate, buildVersion)
           case Err(e) => Err(e)
           case Ok(installable) => Ok(if installable then ShowInstallDialog else NotInstallableSnackbar))
      case Info => Ok(ShowInfoDialog)
      case InfoList => Ok(ShowInfoDialog)
      case Delete => Ok(ShowDeleteDialog)
      case CancelInstallation => Ok(ShowCancelInstallationDialog)
      case Reboot => Ok(RebootDevice);
    match clicked
    case Err(e) => Err(e)
    case Ok(click) => Ok(ButtonBinding(enabled, !enabled, if enabled then click else NoClick))
  }

  /** An enabled install button opens the install dialog only for an update meeting every install condition. */
  lemma InstallClickNeedsConditions(enabled: bool, update: Option<UpdateInfo>, buildDate: int, buildVersion: string)
    requires SetButtonAction(Install, enabled, update, buildDate, buildVersion).Ok?
    ensures SetButtonAction(Install, enabled, update, buildDate, buildVersion).value.click == ShowInstallDialog ==>
      update.Some? && Utils.InstallConditions(update.value.base, buildDate, buildVersion)
  {
  }

  /** An active update as drawn (`view`) together with its button as wired (`binding`). */
  datatype ActiveRendering = ActiveRendering(view: ActiveView, binding: ButtonBinding)

  /**
   * `handleActiveStatus` of every screen: the view, and the button wired by
   * `setButtonAction` for the controller's record `stored` of the same id. The
   * downloading row reads the file length and then wires pause; installing wires cancel;
   * verifying wires a disabled install, which still runs the install test; the paused
   * row wires resume and then reads the file length.
   */
  function HandleActiveStatus(c: ControllerView, u: UpdateInfo, stored: Option<UpdateInfo>,
                              buildDate: int, buildVersion: string): (r: Result<ActiveRendering>)
    ensures r.Err? ==> r.error == NullPointer
    ensures r.Ok? ==> ActiveStatusView(c, u) == Ok(r.value.view)
    ensures r.Ok? ==> r.value.binding.enabled == r.value.view.button.enabled
    ensures u.base.downloadId in c.downloading ==>
      (r.Err? <==> u.fileLength.None?)
      && (r.Ok? ==> r.value.binding == ButtonBinding(true, false, PauseDownload))
    ensures u.base.downloadId !in c.downloading && u.base.downloadId in c.installing ==>
      r.Ok? && r.value.binding == ButtonBinding(true, false, ShowCancelInstallationDialog)
    ensures u.base.downloadId !in c.downloading && u.base.downloadId !in c.installing
            && u.base.downloadId in c.verifying ==>
      (r.Err? <==> stored.None? || Utils.CanInstall(stored.value.base, buildDate, buildVersion).Err?)
      && (r.Ok? ==> r.value.binding == ButtonBinding(false, true, NoClick))
    ensures u.base.downloadId !in c.downloading + c.installing + c.verifying ==>
      (r.Err? <==>
         || u.fileLength.None? || stored.None?
         || Utils.CanInstall(stored.value.base, buildDate, buildVersion).Err?
         || (Utils.CanInstall(stored.value.base, buildDate, buildVersion) == Ok(false)
             && stored.value.fileLength.None?))
  {
    match ActiveStatusView(c, u)
    case Err(e) =>
      // The paused row wires resume before reading the file; both throw the same exception
      Err(e)
    case Ok(view) =>
      match SetButtonAction(view.button.action, view.button.enabled, stored, buildDate, buildVersion)
      case Err(e) => Err(e)
      case Ok(binding) => Ok(ActiveRendering(view, binding))
  }

  /**
   * A paused update whose record is the one shown: it throws exactly when it has no file
   * or the install test throws, and resuming is offered exactly when it is installable
   * or its file is complete.
   */
  lemma ActiveResumeWiring(c: ControllerView, u: UpdateInfo, buildDate: int, buildVersion: string)
    requires u.base.downloadId !in c.downloading + c.installing + c.verifying
    ensures var r := HandleActiveStatus(c, u, Some(u), buildDate, buildVersion);
      r.Err? <==> u.fileLength.None? || Utils.CanInstall(u.base, buildDate, buildVersion).Err?
    ensures var r := HandleActiveStatus(c, u, Some(u), buildDate, buildVersion);
      r.Ok? && Utils.IsBusy(c) ==>
        (r.value.binding.click == ResumeDownload <==>
           Utils.CanInstall(u.base, buildDate, buildVersion) == Ok(true) || u.fileLength == Some(u.base.fileSize))
  {
  }

  /** An idle update as drawn (`view`) together with its button as wired (`binding`). */
  datatype IdleRendering = IdleRendering(view: IdleView, binding: ButtonBinding)

  /**
   * `handleNotActiveStatus` of every screen: the view, and the button wired by
   * `setButtonAction` for the controller's record `stored`. Only the install button looks
   * the record up, so only it can throw beyond the screen's own install test.
   */
  function HandleNotActiveStatus(c: ControllerView, u: UpdateInfo, stored: Option<UpdateInfo>,
                                 buildDate: int, buildVersion: string): (r: Result<IdleRendering>)
    ensures r.Err? ==> r.error == NullPointer
    ensures r.Err? <==>
      || IdleStatusView(c, u, buildDate, buildVersion).Err?
      || (IdleStatusView(c, u, buildDate, buildVersion).value.button.action == Install
          && (stored.None? || Utils.CanInstall(stored.value.base, buildDate, buildVersion).Err?))
    ensures r.Ok? ==> IdleStatusView(c, u, buildDate, buildVersion) == Ok(r.value.view)
    ensures r.Ok? ==> r.value.binding.enabled == r.value.view.button.enabled
    ensures r.Ok? && r.value.view.button.enabled ==>
      r.value.binding.click ==
        match r.value.view.button.action
        case Reboot => RebootDevice
        case Delete => ShowDeleteDialog
        case Info => ShowInfoDialog
        case Download => StartDownloadWithWarning
        case _ => (if Utils.CanInstall(stored.value.base, buildDate, buildVersion) == Ok(true)
                   then ShowInstallDialog else NotInstallableSnackbar)
  {
    match IdleStatusView(c, u, buildDate, buildVersion)
    case Err(e) => Err(e)
    case Ok(view) =>
      match SetButtonAction(view.button.action, view.button.enabled, stored, buildDate, buildVersion)
      case Err(e) => Err(e)
      case Ok(binding) => Ok(IdleRendering(view, binding))
  }

  /**
   * When the record looked up is the update shown, the button's own install test agrees
   * with the screen's: the wiring never throws and an offered install opens the dialog.
   */
  lemma IdleWiringAgrees(c: ControllerView, u: UpdateInfo, buildDate: int, buildVersion: string)
    requires IdleStatusView(c, u, buildDate, buildVersion).Ok?
    ensures HandleNotActiveStatus(c, u, Some(u), buildDate, buildVersion).Ok?
    ensures HandleNotActiveStatus(c, u, Some(u), buildDate, buildVersion).value.binding.click != NotInstallableSnackbar
  {
  }

  /** Which entries of the long-press menu are visible. */
  datatype MenuVisibility = MenuVisibility(delete: bool, copyUrl: bool, exportUpdate: bool)

  /** An entry of the long-press menu. */
  datatype MenuItem = DeleteItem | CopyUrlItem | ExportItem

  /** What choosing an entry does. */
  datatype MenuOutcome =
    | OpenDeleteDialog(downloadId: JString)
    | CopyToClipboard(url: JString)
    | ExportUpdate
    | NothingDone

  /**
   * An entry chosen from the menu of `update`: delete asks for confirmation, copy puts the
   * download URL on the clipboard, export starts only with the storage permission.
   */
  function MenuItemChosen(item: MenuItem, update: UpdateInfo, hasPermission: bool): (r: MenuOutcome)
    ensures r == ExportUpdate <==> item == ExportItem && hasPermission
    ensures r == NothingDone <==> item == ExportItem && !hasPermission
    ensures item == DeleteItem ==> r == OpenDeleteDialog(update.base.downloadId)
    ensures item == CopyUrlItem ==> r == CopyToClipboard(update.base.downloadUrl)
  {
    match item
    case DeleteItem => OpenDeleteDialog(update.base.downloadId)
    case CopyUrlItem => CopyToClipboard(update.base.downloadUrl)
    case ExportItem => if hasPermission then ExportUpdate else NothingDone
  }

  /** The one selected row of the lists: the update whose long-press menu was opened last. */
  class ActionMode {
    var selectedDownload: JString

    constructor ()
      ensures selectedDownload.None?
    {
      selectedDownload := None;
    }

    /**
     * `startActionMode`: selects the update and shows delete only where the caller allows
     * it, copy-URL only for an update available online, export only for a verified file.
     */
    method StartActionMode(update: UpdateInfo, canDelete: bool) returns (menu: MenuVisibility)
      modifies this
      ensures selectedDownload == update.base.downloadId
      ensures menu.delete == canDelete
      ensures menu.copyUrl == update.availableOnline
      ensures menu.exportUpdate <==> update.persistentStatus == PERSISTENT_VERIFIED
    {
      selectedDownload := update.base.downloadId;
      menu := MenuVisibility(canDelete, update.availableOnline, update.persistentStatus == PERSISTENT_VERIFIED);
    }

    function GetSelectedDownload(): (id: JString)
      reads this
      ensures id == selectedDownload
    {
      selectedDownload
    }
  }

  /**
   * `exportUpdate`'s destination: the update's file name in the export directory, or, if
   * that file already exists, the first free numbered variant. A null file name throws.
   * Whatever is returned does not exist yet.
   */
  method ExportDestination(update: UpdateInfo, exportDir: string, fileExists: string -> bool)
    returns (r: Result<Utils.FilePath>)
    ensures update.base.name.None? ==> r == Err(NullPointer)
    ensures r.Ok? ==> !fileExists(Utils.PathOf(r.value))
    ensures r.Ok? && !fileExists(Utils.PathOf(Utils.FilePath(Some(exportDir), update.base.name.value))) ==>
      r.value == Utils.FilePath(Some(exportDir), update.base.name.value)
    ensures update.base.name.Some? && !fileExists(Utils.PathOf(Utils.FilePath(Some(exportDir), update.base.name.value))) ==>
      r.Ok?
    ensures r.Ok? && fileExists(Utils.PathOf(Utils.FilePath(Some(exportDir), update.base.name.value))) ==>
      exists i :: 1 <= i < INT_MAX && r.value == Utils.SequentialFile(Utils.FilePath(Some(exportDir), update.base.name.value), i)
  {
    if update.base.name.None? {
      return Err(NullPointer);
    }
    var dest := Utils.FilePath(Some(exportDir), update.base.name.value);
    if !fileExists(Utils.PathOf(dest)) {
      return Ok(dest);
    }
    r := Utils.AppendSequentialNumber(dest, fileExists);
  }

  // ---------------------------------------------------------------------------
  // The mobile-data warning

  /**
   * The test `startDownloadWithWarning` makes, as written: it downloads at once when the
   * device is NOT on Wi-Fi or Ethernet or the warning is off, so it asks first only on
   * Wi-Fi or Ethernet.
   */
  function AsksBeforeDownloadAsWritten(onWifiOrEthernet: bool, warn: bool): (r: bool)
    ensures r ==> warn
    ensures !onWifiOrEthernet ==> !r
  {
    !(!onWifiOrEthernet || !warn)
  }

  /** As written, with the Wi-Fi test as written, the warning is never shown, mobile data or not. */
  lemma MobileDataWarningNeverShown(c: Utils.Connectivity, warn: bool)
    ensures !AsksBeforeDownloadAsWritten(Utils.IsOnWifiOrEthernetAsWritten(c), warn)
  {
  }

  /**
   * With a working Wi-Fi test the condition as written would be inverted: it asks on
   * Wi-Fi and downloads over cellular without asking.
   */
  lemma MobileDataWarningInverted()
    ensures AsksBeforeDownloadAsWritten(Utils.IsOnWifiOrEthernet(Utils.Connectivity(true, Some({Utils.Wifi}))), true)
    ensures !AsksBeforeDownloadAsWritten(Utils.IsOnWifiOrEthernet(Utils.Connectivity(true, Some({Utils.Cellular}))), true)
    ensures !AsksBeforeDownload(Utils.Connectivity(true, Some({Utils.Wifi})), true)
    ensures AsksBeforeDownload(Utils.Connectivity(true, Some({Utils.Cellular})), true)
  {
  }

  /** The intended test: ask first exactly when the warning is on and the device is not on Wi-Fi or Ethernet. */
  function AsksBeforeDownload(c: Utils.Connectivity, warn: bool): (r: bool)
    ensures r ==> warn
    ensures r ==> !Utils.IsOnWifiOrEthernet(c)
    ensures warn && c.hasManager && c.capabilities == Some({Utils.Cellular}) ==> r
    ensures !warn || Utils.IsOnWifiOrEthernet(c) ==> !r
  {
    warn && !Utils.IsOnWifiOrEthernet(c)
  }

  /** A request the screens make of the updater controller. */
  datatype ControllerCall =
    | StartDownloadCall(downloadId: JString)
    | PauseDownloadCall(downloadId: JString)
    | DeleteUpdateCall(downloadId: JString)

  /** The requests sent to the controller so far and the mobile-data warning preference. */
  class ActionSession {
    var calls: seq<ControllerCall>
    var mobileDataWarning: bool

    /** The preference defaults to warning. */
    constructor ()
      ensures calls == [] && mobileDataWarning
    {
      calls := [];
      mobileDataWarning := true;
    }

    /** The download button as intended: start at once, or report that the dialog is shown. */
    method StartDownloadWithWarning(downloadId: JString, c: Utils.Connectivity) returns (asked: bool)
      modifies this
      ensures asked == AsksBeforeDownload(c, mobileDataWarning)
      ensures mobileDataWarning == old(mobileDataWarning)
      ensures calls == old(calls) + (if asked then [] else [StartDownloadCall(downloadId)])
    {
      asked := AsksBeforeDownload(c, mobileDataWarning);
      if !asked {
        calls := calls + [StartDownloadCall(downloadId)];
      }
    }

    /** The dialog's download button: "do not ask again" turns the warning off; the download starts. */
    method ConfirmMobileDataDownload(downloadId: JString, dontAskAgain: bool)
      modifies this
      ensures mobileDataWarning == (old(mobileDataWarning) && !dontAskAgain)
      ensures calls == old(calls) + [StartDownloadCall(downloadId)]
    {
      if dontAskAgain {
        mobileDataWarning := false;
      }
      calls := calls + [StartDownloadCall(downloadId)];
    }

    /** The delete dialog's OK: the download is paused and then the update deleted. */
    method ConfirmDelete(downloadId: JString)
      modifies this
      ensures mobileDataWarning == old(mobileDataWarning)
      ensures calls == old(calls) + [PauseDownloadCall(downloadId), DeleteUpdateCall(downloadId)]
    {
      calls := calls + [PauseDownloadCall(downloadId)];
      calls := calls + [DeleteUpdateCall(downloadId)];
    }
  }

  // ---------------------------------------------------------------------------
  // The install dialog

  datatype InstallDialog =
    | BatteryLowDialog
    | ApplyDialog(abUpdate: bool)
    | NoDialog                            // the package type could not be read

  /**
   * `getInstallDialog`: a low battery only explains itself; otherwise the update's file
   * decides between the A/B and the classic message. A missing update throws, and a file
   * that cannot be read gives no dialog.
   */
  function GetInstallDialog(batteryOk: bool, update: Option<UpdateInfo>, isABUpdate: Result<bool>): (r: Result<InstallDialog>)
    ensures !batteryOk ==> r == Ok(BatteryLowDialog)
    ensures batteryOk && update.None? ==> r == Err(NullPointer)
    ensures r.Ok? && r.value.ApplyDialog? ==> batteryOk && isABUpdate == Ok(r.value.abUpdate)
    ensures batteryOk && update.Some? && isABUpdate.Err? ==> r == Ok(NoDialog)
    ensures batteryOk && update.Some? && isABUpdate.Ok? ==> r == Ok(ApplyDialog(isABUpdate.value))
  {
    if !batteryOk then Ok(BatteryLowDialog)
    else if update.None? then Err(NullPointer)
    else
      match isABUpdate
      case Err(_) => Ok(NoDialog)
      case Ok(ab) => Ok(ApplyDialog(ab))
  }

  /** Clicking install shows the dialog; a missing dialog makes `requireNonNull` throw. */
  function InstallClicked(dialog: Result<InstallDialog>): (r: Result<InstallDialog>)
    ensures r.Ok? ==> dialog.Ok? && r == dialog && !r.value.NoDialog?
    ensures dialog == Ok(NoDialog) ==> r == Err(NullPointer)
    ensures dialog.Ok? && !dialog.value.NoDialog? ==> r == dialog
  {
    match dialog
    case Err(e) => Err(e)
    case Ok(d) => if d.NoDialog? then Err(NullPointer) else Ok(d)
  }

  /** An install can be applied only on a charged battery with a readable package. */
  lemma ApplyNeedsBatteryAndPackage(batteryOk: bool, update: Option<UpdateInfo>, isABUpdate: Result<bool>)
    ensures InstallClicked(GetInstallDialog(batteryOk, update, isABUpdate)).Ok? ==>
      !batteryOk || (update.Some? && isABUpdate.Ok?)
    ensures batteryOk && update.Some? && isABUpdate.Err? ==>
      InstallClicked(GetInstallDialog(batteryOk, update, isABUpdate)) == Err(NullPointer)
  {
  }
}
