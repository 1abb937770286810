/**
 * The "update found" fragment: one update, shown with the same active/idle decision
 * tables as the lists, but with no long-press menu.
 */
module FoundUpdate {
  import opened JavaLang
  import opened UpdateModel
  import opened StatusActions
  import opened UpdateActions
  import Utils

  /** What the fragment does with an update. */
  datatype FragmentView =
    | ReloadFragment                     // no update: the activity swaps the fragment out
    | ActiveFragment(button: ButtonState, binding: ButtonBinding, text: ProgressText,
                     indeterminate: bool, bar: Option<int>)
    | IdleFragment(button: ButtonState, binding: ButtonBinding)

  /**
   * `refreshFragment`: no update asks the activity to reload the fragment; otherwise the
   * persistent status picks the active or idle layout, wired for the controller's record
   * of the update's id (`getUpdate`). An unknown persistent status, and whatever the
   * layout and its wiring throw, throw; a null version name is only displayed.
   */
  function RefreshFragment(update: Option<UpdateInfo>, getUpdate: JString -> Option<UpdateInfo>,
                           c: ControllerView, buildDate: int, buildVersion: string)
    : (r: Result<FragmentView>)
    ensures update.None? <==> r == Ok(ReloadFragment)
    ensures r.Err? ==> r.error in {UnknownUpdateStatus, NullPointer}
    ensures update.Some? && ActiveLayout(update.value.persistentStatus, update.value.status).Err? ==>
      r == Err(UnknownUpdateStatus)
    ensures (update.Some? && ActiveLayout(update.value.persistentStatus, update.value.status) == Ok(true)) ==>
      match HandleActiveStatus(c, update.value, getUpdate(update.value.base.downloadId), buildDate, buildVersion)
      case Ok(a) => r == Ok(ActiveFragment(a.view.button, a.binding, a.view.text, a.view.indeterminate, a.view.bar))
      case Err(e) => r == Err(e)
    ensures (update.Some? && ActiveLayout(update.value.persistentStatus, update.value.status) == Ok(false)) ==>
      match HandleNotActiveStatus(c, update.value, getUpdate(update.value.base.downloadId), buildDate, buildVersion)
      case Ok(v) => r == Ok(IdleFragment(v.view.button, v.binding))
      case Err(e) => r == Err(e)
  {
    match update
    case None => Ok(ReloadFragment)
    case Some(u) =>
      match ActiveLayout(u.persistentStatus, u.status)
      case Err(e) => Err(e)
      case Ok(active) =>
        if active then
          match HandleActiveStatus(c, u, getUpdate(u.base.downloadId), buildDate, buildVersion)
          case Err(e) => Err(e)
          case Ok(a) => Ok(ActiveFragment(a.view.button, a.binding, a.view.text, a.view.indeterminate, a.view.bar))
        else
          match HandleNotActiveStatus(c, u, getUpdate(u.base.downloadId), buildDate, buildVersion)
          case Err(e) => Err(e)
          case Ok(v) => Ok(IdleFragment(v.view.button, v.binding))
  }

  /**
   * The fragment's install button is offered, enabled, only for a verified, installable
   * update, and its click opens the install dialog only when the record it looks up
   * is installable too.
   */
  lemma FragmentInstallNeedsVerified(update: Option<UpdateInfo>, getUpdate: JString -> Option<UpdateInfo>,
                                     c: ControllerView, buildDate: int, buildVersion: string)
    requires RefreshFragment(update, getUpdate, c, buildDate, buildVersion).Ok?
    ensures var v := RefreshFragment(update, getUpdate, c, buildDate, buildVersion).value;
      !v.ReloadFragment? && v.button == ButtonState(Install, true) ==>
        && update.Some? && update.value.persistentStatus == PERSISTENT_VERIFIED
        && Utils.InstallConditions(update.value.base, buildDate, buildVersion)
    ensures var v := RefreshFragment(update, getUpdate, c, buildDate, buildVersion).value;
      !v.ReloadFragment? && v.binding.click == ShowInstallDialog ==>
        && update.Some? && getUpdate(update.value.base.downloadId).Some?
        && Utils.InstallConditions(getUpdate(update.value.base.downloadId).value.base, buildDate, buildVersion)
  {
    var v := RefreshFragment(update, getUpdate, c, buildDate, buildVersion).value;
    if !v.ReloadFragment? && v.button == ButtonState(Install, true) && v.IdleFragment? {
      IdleInstallOnlyIfInstallable(c, update.value, buildDate, buildVersion);
    }
  }
}
