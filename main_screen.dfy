/**
 * The main screen: it shows one update in its header card, and on each feed download
 * hands the feed to the controller and prepares the sorted, changelog-merged list.
 */
module MainScreen {
  import opened JavaLang
  import opened UpdateModel
  import opened StatusActions
  import opened UpdateActions
  import opened UpdateListing
  import Utils

  /** What the header card shows. */
  datatype MainView =
    | NoUpdatesView
    | ActiveUpdateView(active: ActiveRendering)
    | IdleUpdateView(idle: IdleRendering)

  /**
   * `refreshUpdate`: no update gives the "no updates" card; otherwise the persistent
   * status picks the active or idle layout, and the button is wired for the
   * controller's record of the update's id (`getUpdate`). An unknown persistent status,
   * a null version name, and whatever the layout and its wiring throw, throw.
   */
  function RefreshUpdate(update: Option<UpdateInfo>, getUpdate: JString -> Option<UpdateInfo>,
                         c: ControllerView, buildDate: int, buildVersion: string)
    : (r: Result<MainView>)
    ensures update.None? <==> r == Ok(NoUpdatesView)
    ensures r.Err? ==> r.error in {UnknownUpdateStatus, NullPointer}
    ensures update.Some? && ActiveLayout(update.value.persistentStatus, update.value.status).Err? ==>
      r == Err(UnknownUpdateStatus)
    ensures (update.Some? && ActiveLayout(update.value.persistentStatus, update.value.status).Ok?
             && update.value.base.versionName.None?) ==> r == Err(NullPointer)
    ensures r.Ok? && r.value.ActiveUpdateView? ==>
      && update.Some?
      && ActiveLayout(update.value.persistentStatus, update.value.status) == Ok(true)
      && HandleActiveStatus(c, update.value, getUpdate(update.value.base.downloadId), buildDate, buildVersion)
         == Ok(r.value.active)
    ensures r.Ok? && r.value.IdleUpdateView? ==>
      && update.Some?
      && ActiveLayout(update.value.persistentStatus, update.value.status) == Ok(false)
      && HandleNotActiveStatus(c, update.value, getUpdate(update.value.base.downloadId), buildDate, buildVersion)
         == Ok(r.value.idle)
    ensures (update.Some? && update.value.base.versionName.Some?
             && ActiveLayout(update.value.persistentStatus, update.value.status) == Ok(true)) ==>
      (r.Ok? <==> HandleActiveStatus(c, update.value, getUpdate(update.value.base.downloadId),
                                     buildDate, buildVersion).Ok?)
    ensures (update.Some? && update.value.base.versionName.Some?
             && ActiveLayout(update.value.persistentStatus, update.value.status) == Ok(false)) ==>
      (r.Ok? <==> HandleNotActiveStatus(c, update.value, getUpdate(update.value.base.downloadId),
                                        buildDate, buildVersion).Ok?)
  {
    match update
    case None => Ok(NoUpdatesView)
    case Some(u) =>
      match ActiveLayout(u.persistentStatus, u.status)
      case Err(e) => Err(e)
      case Ok(active) =>
        if u.base.versionName.None? then Err(NullPointer)
        else if active then
          match HandleActiveStatus(c, u, getUpdate(u.base.downloadId), buildDate, buildVersion)
          case Err(e) => Err(e)
          case Ok(v) => Ok(ActiveUpdateView(v))
        else
          match HandleNotActiveStatus(c, u, getUpdate(u.base.downloadId), buildDate, buildVersion)
          case Err(e) => Err(e)
          case Ok(v) => Ok(IdleUpdateView(v))
  }

  /**
   * `loadUpdatesList` of the main screen: the feed goes through the controller, then a
   * non-empty controller list is sorted, merged and sorted newest first. The id list it
   * collects is never handed to anything.
   */
  method LoadUpdatesList(feed: seq<Utils.FeedEntry>, manualRefresh: bool, addUpdate: UpdateBaseInfo -> bool,
                         controllerUpdates: seq<UpdateInfo>, buildDate: int)
    returns (intake: Intake, shown: seq<UpdateInfo>, ids: seq<JString>)
    ensures intake.onlineIds == Utils.UpdateIds(Utils.ParsedUpdates(feed))
    ensures intake.anyAdded == AnyAdded(Utils.ParsedUpdates(feed), addUpdate)
    ensures intake.snackbar ==
      if manualRefresh then Some(if intake.anyAdded then UpdatesFound else NoUpdatesFound) else None
    ensures controllerUpdates == [] ==> shown == [] && ids == []
    ensures controllerUpdates != [] ==> shown == PreparedList(controllerUpdates, buildDate)
    ensures Ordered(shown, true) && |shown| == |controllerUpdates|
    ensures |ids| == |shown| && forall i :: 0 <= i < |shown| ==> ids[i] == shown[i].base.downloadId
  {
    intake := IntakeFeed(feed, manualRefresh, addUpdate);
    shown, ids := [], [];
    if controllerUpdates != [] {
      shown, ids := PrepareList(controllerUpdates, buildDate);
      PreparedListOrdered(controllerUpdates, buildDate);
    }
  }
}
