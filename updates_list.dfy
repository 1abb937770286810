/**
 * The adapter behind the list of updates: it holds the list of download ids to show
 * and binds each row to the controller's record of that id.
 */
module UpdatesList {
  import opened JavaLang
  import opened UpdateModel
  import opened StatusActions
  import opened UpdateActions

  /** What binding one row amounts to. */
  datatype RowView =
    | ActionDisabled                                  // no data, or the update is gone
    | ActiveRow(selected: bool, active: ActiveRendering)
    | IdleRow(selected: bool, idle: IdleRendering)

  /**
   * `onBindViewHolder` for the row at `i`: with no id list, or an id the controller no
   * longer knows, the action button is just disabled. Otherwise the row is highlighted
   * when its id is the selected one and gets the active or idle layout, wired for the
   * record just looked up. Reading a missing position, comparing a null id, an unknown
   * persistent status, a null version name, and whatever the layout and its wiring
   * throw, throw.
   */
  function BindRow(ids: Option<seq<JString>>, i: int, getUpdate: JString -> Option<UpdateInfo>,
                   c: ControllerView, selectedDownload: JString, buildDate: int, buildVersion: string)
    : (r: Result<RowView>)
    ensures ids.None? ==> r == Ok(ActionDisabled)
    ensures ids.Some? && !(0 <= i < |ids.value|) ==> r == Err(IndexOutOfBounds)
    ensures ids.Some? && 0 <= i < |ids.value| && getUpdate(ids.value[i]).None? ==> r == Ok(ActionDisabled)
    ensures ids.Some? && 0 <= i < |ids.value| && getUpdate(ids.value[i]).Some? && ids.value[i].None? ==>
      r == Err(NullPointer)
    ensures r.Err? ==> r.error in {IndexOutOfBounds, UnknownUpdateStatus, NullPointer}
    ensures r.Ok? && r.value.ActiveRow? ==>
      && ids.Some? && 0 <= i < |ids.value| && getUpdate(ids.value[i]).Some?
      && var u := getUpdate(ids.value[i]).value;
         && ActiveLayout(u.persistentStatus, u.status) == Ok(true)
         && HandleActiveStatus(c, u, Some(u), buildDate, buildVersion) == Ok(r.value.active)
    ensures r.Ok? && r.value.IdleRow? ==>
      && ids.Some? && 0 <= i < |ids.value| && getUpdate(ids.value[i]).Some?
      && var u := getUpdate(ids.value[i]).value;
         && ActiveLayout(u.persistentStatus, u.status) == Ok(false)
         && HandleNotActiveStatus(c, u, Some(u), buildDate, buildVersion) == Ok(r.value.idle)
    ensures r.Ok? && !r.value.ActionDisabled? ==>
      ids.Some? && 0 <= i < |ids.value| && r.value.selected == (ids.value[i] == selectedDownload)
    ensures ids.Some? && 0 <= i < |ids.value| && ids.value[i].Some? && getUpdate(ids.value[i]).Some? ==>
      var u := getUpdate(ids.value[i]).value;
      ActiveLayout(u.persistentStatus, u.status) == Ok(false) && u.base.versionName.Some? ==>
        (r.Err? <==> IdleStatusView(c, u, buildDate, buildVersion).Err?)
  {
    if ids.None? then Ok(ActionDisabled)
    else if !(0 <= i < |ids.value|) then Err(IndexOutOfBounds)
    else
      var downloadId := ids.value[i];
      match getUpdate(downloadId)
      case None => Ok(ActionDisabled)
      case Some(u) =>
        if downloadId.None? then Err(NullPointer)
        else
          var selected := downloadId == selectedDownload;
          match ActiveLayout(u.persistentStatus, u.status)
          case Err(e) => Err(e)
          case Ok(active) =>
            if u.base.versionName.None? then Err(NullPointer)
            else if active then
              match HandleActiveStatus(c, u, Some(u), buildDate, buildVersion)
              case Err(e) => Err(e)
              case Ok(v) => Ok(ActiveRow(selected, v))
            else
              match IdleStatusView(c, u, buildDate, buildVersion)
              case Err(e) => Err(e)
              case Ok(_) =>
                IdleWiringAgrees(c, u, buildDate, buildVersion);
                Ok(IdleRow(selected, HandleNotActiveStatus(c, u, Some(u), buildDate, buildVersion).value))
  }

  class UpdatesListAdapter {
    /** The ids shown, in order; absent until the first `setData`. */
    var downloadIds: Option<seq<JString>>

    constructor ()
      ensures downloadIds.None?
    {
      downloadIds := None;
    }

    /** Replaces the id list wholesale. */
    method SetData(ids: seq<JString>)
      modifies this
      ensures downloadIds == Some(ids)
    {
      downloadIds := Some(ids);
    }

    function GetItemCount(): (n: int)
      reads this
      ensures downloadIds.None? ==> n == 0
      ensures downloadIds.Some? ==> n == |downloadIds.value|
    {
      if downloadIds.None? then 0 else |downloadIds.value|
    }

    /**
     * The position `notifyItemChanged(id)` refreshes: none without an id list, else the
     * first index holding the id, or -1 when it is not there.
     */
    function ChangedPosition(downloadId: JString): (p: Option<int>)
      reads this
      ensures p.None? <==> downloadIds.None?
      ensures p.Some? ==> (p.value == -1 <==> downloadId !in downloadIds.value)
      ensures p.Some? && p.value >= 0 ==>
        p.value < |downloadIds.value| && downloadIds.value[p.value] == downloadId
        && forall k :: 0 <= k < p.value ==> downloadIds.value[k] != downloadId
    {
      if downloadIds.None? then None else Some(IndexOf(downloadIds.value, downloadId))
    }

    /**
     * `removeItem`: without an id list nothing happens; otherwise the first occurrence
     * of the id is removed, every other id keeps its order, and the position it had
     * (-1 when absent) is reported as removed.
     */
    method RemoveItem(downloadId: JString) returns (removedAt: Option<int>)
      modifies this
      ensures old(downloadIds).None? ==> downloadIds == old(downloadIds) && removedAt.None?
      ensures old(downloadIds).Some? ==>
        && removedAt == Some(IndexOf(old(downloadIds).value, downloadId))
        && downloadIds == Some(RemoveFirst(old(downloadIds).value, downloadId))
    {
      if downloadIds.None? {
        return None;
      }
      var position := IndexOf(downloadIds.value, downloadId);
      downloadIds := Some(RemoveFirst(downloadIds.value, downloadId));
      return Some(position);
    }

    /** `onBindViewHolder` on the adapter's current id list. */
    function Bind(i: int, getUpdate: JString -> Option<UpdateInfo>, c: ControllerView,
                  selectedDownload: JString, buildDate: int, buildVersion: string): (r: Result<RowView>)
      reads this
      ensures downloadIds.None? ==> r == Ok(ActionDisabled)
      ensures r == BindRow(downloadIds, i, getUpdate, c, selectedDownload, buildDate, buildVersion)
    {
      BindRow(downloadIds, i, getUpdate, c, selectedDownload, buildDate, buildVersion)
    }
  }
}
