# exTHmUI Updater — a Dafny model of its deterministic rules

The exTHmUI Updater is the Android system-update app of the exTHmUI ROM. It fetches a JSON
feed of OTA packages and notices, asks an updater controller to download, verify and install
them, and shows them on a main screen, in an update list and in a "found update" fragment.
The controller itself is not part of this model. It is represented only by the answers it
gives: `isDownloading`, `isInstallingUpdate`, `isVerifyingUpdate`, `isWaitingForReboot`,
`hasNoActiveDownloads` and `isNotInstallingABUpdate`, collected in `UpdateModel.ControllerView`.

What is modelled:

- The helper rules in `Utils.java`:
  - install eligibility (`canInstall`);
  - feed filtering;
  - new-id detection (`checkForNewUpdates`);
  - ZIP local-header offsets;
  - unique file names (`appendSequentialNumber`);
  - the busy gate (`isBusy`);
  - the server-URL fallback chain;
  - check intervals;
  - the download-directory sweep;
  - the network tests.
- The update records (`UpdateBase`) and notice records (`Notice`), as classes with setters and copy constructors.
- The notice controller, an insert-or-update map keyed by notice id.
- The status-to-action decision tables, shared by the main screen, the update list and the fragment.
- The changelog merge of both `loadUpdatesList` methods:
  - an ascending stable sort;
  - an in-place merge over an array;
  - a descending stable sort.
- The two list adapters, with their in-place `removeItem`.
- The button wiring, menus, export naming, mobile-data warning, and delete and install dialogs of `UpdateActionsUtils`.
- The image view's size fallbacks and sample size.
- The settings screen's summary builder and download-path branch.

How Java is represented:

- A Java `String` that may be null is `JavaLang.JString` (`Option<string>`).
- An exception the code throws, or lets escape, is the `Err` of `JavaLang.Result`:
  - a null dereference is `NullPointer`;
  - "Unknown update status" is `UnknownUpdateStatus`;
  - a division by zero is `Arithmetic`.
- 32-bit `int` wrap-around and truncating division are written out (`Wrap32`, `JavaDiv`). The places where they matter are the image-width expression and the sample size.
- Android inputs become parameters:
  - `SystemProperties`;
  - `SharedPreferences`;
  - file existence;
  - directory listings;
  - the connectivity manager's answers;
  - the Base64 decoder (`NoticeModel.Decoder`);
  - `controller.addUpdate` / `getUpdate`.
- `List.sort` is a stable insertion sort (`UpdateListing.SortByTimestamp`).
- Constants that live in files outside this model use the values the code relies on:
  - persistent status UNKNOWN = 0, INCOMPLETE = 1, VERIFIED = 2;
  - check interval NEVER = 0, DAILY = 1, WEEKLY = 2, MONTHLY = 3;
  - `AlarmManager.INTERVAL_DAY` = 86 400 000 ms.

The merged changelog puts the newest update's own text first, followed by the older accumulated text. Every update stays in the list, none being removed as superseded.

Files and modules:

| file | module | models |
|---|---|---|
| java_lang.dfy | JavaLang | null, exceptions, `int` arithmetic, `trim`, `equalsIgnoreCase`, `indexOf`, `lastIndexOf`, `List.remove(Object)` |
| update_model.dfy | UpdateModel | `UpdateBase`, status enums, `UpdateInfo`, controller answers |
| notice_model.dfy | NoticeModel | `Notice` |
| notice_store.dfy | NoticeStore | `NoticeController` |
| utils.dfy | Utils | `Utils` |
| status_actions.dfy | StatusActions | `activeLayout`, `handleActiveStatus`, `handleNotActiveStatus` |
| update_listing.dfy | UpdateListing | sort, changelog merge, id list, feed intake |
| main_screen.dfy | MainScreen | `MainActivity.refreshUpdate` / `loadUpdatesList` |
| updates_screen.dfy | UpdatesScreen | `UpdatesActivity.loadUpdatesList`, image width |
| updates_list.dfy | UpdatesList | `UpdatesListAdapter` |
| found_update.dfy | FoundUpdate | `FoundUpdateFragment.refreshFragment` |
| update_actions.dfy | UpdateActions | `UpdateActionsUtils` |
| notices_list.dfy | NoticesList | `NoticesListAdapter` |
| image_view.dfy | ImageView | `OnlineImageView` |
| settings.dfy | Settings | `AdvancedSettings.SettingsFragment.OnPreferenceChange` |

## Model

| member | source | states |
|---|---|---|
| JavaLang.ConcatText | src/org/exthmui/updater/MainActivity.java:374 | a null string concatenates as the four characters "null", any other as itself |
| JavaLang.JavaDiv | src/org/exthmui/updater/UpdatesActivity.java:205 | `int` division truncates toward zero: the floor quotient for a non-negative dividend, the negated floor quotient of the magnitude for a negative one |
| JavaLang.Wrap32 | src/org/exthmui/updater/UpdatesActivity.java:205 | an `int` product wraps into the 32-bit range, is unchanged when it already fits, and differs from the exact value by a multiple of 2^32 |
| JavaLang.BlankIffSpaces | src/org/exthmui/updater/misc/Utils.java:215-218 | `trim().isEmpty()` holds exactly when every character is a space or control character (at most U+0020) |
| JavaLang.EqualsIgnoreCaseSymmetric | src/org/exthmui/updater/misc/Utils.java:136-137 | the version comparison of `canInstall` is symmetric |
| JavaLang.LastIndexOf | src/org/exthmui/updater/misc/Utils.java:451 | `lastIndexOf('.')` is -1 exactly when there is no dot, else the index of a dot with no dot after it |
| JavaLang.NatToString | src/org/exthmui/updater/misc/Utils.java:460 | the decimal form of the sequence number is a non-empty run of digits |
| JavaLang.NatToStringValue | src/org/exthmui/updater/misc/Utils.java:460 | the digits written for a number read back as that number |
| JavaLang.NatToStringInjective | src/org/exthmui/updater/misc/Utils.java:460 | different sequence numbers are written differently |
| JavaLang.IndexOf | src/org/exthmui/updater/UpdatesListAdapter.java:232-237 | `indexOf` is -1 exactly when the id is absent, else the first position holding it |
| JavaLang.RemoveFirst | src/org/exthmui/updater/UpdatesListAdapter.java:243-244 | `List.remove(Object)` leaves a list without the id unchanged, and otherwise cuts out exactly the first occurrence |
| JavaLang.RemoveFirstLength | src/org/exthmui/updater/NoticesListAdapter.java:105-106 | removing shortens the list by one exactly when the id was present |
| JavaLang.RemoveFirstMultiset | src/org/exthmui/updater/NoticesListAdapter.java:101-109 | removing takes away one copy of the id and no other element |
| UpdateModel.UpdateBase.constructor | src/org/exthmui/updater/model/UpdateBase.java:39-40 | a new record has every string null and every number 0 |
| UpdateModel.UpdateBase.Copy | src/org/exthmui/updater/model/UpdateBase.java:42-56 | the copy has every field of the original, the download id included, except `requirement`, which stays 0 |
| UpdateModel.UpdateBase.SetVersionName | src/org/exthmui/updater/model/UpdateBase.java:63-65 | only the version name changes |
| UpdateModel.UpdateBase.SetName | src/org/exthmui/updater/model/UpdateBase.java:72-74 | only the name changes |
| UpdateModel.UpdateBase.SetRequirement | src/org/exthmui/updater/model/UpdateBase.java:81 | only the requirement changes |
| UpdateModel.UpdateBase.SetDevice | src/org/exthmui/updater/model/UpdateBase.java:88 | only the device changes |
| UpdateModel.UpdateBase.SetPType | src/org/exthmui/updater/model/UpdateBase.java:95 | only the package type changes |
| UpdateModel.UpdateBase.SetIncr | src/org/exthmui/updater/model/UpdateBase.java:102 | only the incremental version changes |
| UpdateModel.UpdateBase.SetChangeLog | src/org/exthmui/updater/model/UpdateBase.java:109 | only the changelog changes |
| UpdateModel.UpdateBase.SetImageUrl | src/org/exthmui/updater/model/UpdateBase.java:116 | only the image URL changes |
| UpdateModel.UpdateBase.SetDownloadId | src/org/exthmui/updater/model/UpdateBase.java:123-125 | only the download id changes |
| UpdateModel.UpdateBase.SetTimestamp | src/org/exthmui/updater/model/UpdateBase.java:132-134 | only the timestamp changes |
| UpdateModel.UpdateBase.SetType | src/org/exthmui/updater/model/UpdateBase.java:141-143 | only the release type changes |
| UpdateModel.UpdateBase.SetVersion | src/org/exthmui/updater/model/UpdateBase.java:150-152 | only the version changes |
| UpdateModel.UpdateBase.SetDownloadUrl | src/org/exthmui/updater/model/UpdateBase.java:159-161 | only the download URL changes |
| UpdateModel.UpdateBase.SetFileSize | src/org/exthmui/updater/model/UpdateBase.java:168-170 | only the file size changes |
| NoticeModel.Decoded | src/org/exthmui/updater/model/Notice.java:25-36 | a copy keeps the encoded fields, id and image URL, and recomputes title and texts by decoding; a null encoded field throws |
| NoticeModel.DecodedIdempotent | src/org/exthmui/updater/controller/NoticeController.java:47-48 | copying a copy again yields the same notice |
| NoticeModel.DecodedIgnoresPlainText | src/org/exthmui/updater/model/Notice.java:25-31 | the copy's title and texts do not depend on the original's decoded title and texts |
| NoticeModel.Notice.constructor | src/org/exthmui/updater/model/Notice.java:14-15 | a new notice has every field null |
| NoticeModel.Notice.WithFields | src/org/exthmui/updater/model/Notice.java:17-23 | stores the encoded title and texts, id and image URL, and sets title and texts to their decodings |
| NoticeModel.Notice.Copy | src/org/exthmui/updater/model/Notice.java:25-31 | the new notice is the decoded copy of the given one |
| NoticeModel.Notice.Init | src/org/exthmui/updater/model/Notice.java:33-36 | title, then texts, are overwritten with their decodings; a null encoded title throws before anything changes, a null encoded texts after the title changed |
| NoticeModel.Notice.SetBase64Title | src/org/exthmui/updater/model/Notice.java:38-40 | only the encoded title changes; nothing is decoded again |
| NoticeModel.Notice.SetBase64Texts | src/org/exthmui/updater/model/Notice.java:42-44 | only the encoded texts change; nothing is decoded again |
| NoticeModel.Notice.SetTitle | src/org/exthmui/updater/model/Notice.java:46-48 | only the title changes |
| NoticeModel.Notice.SetTexts | src/org/exthmui/updater/model/Notice.java:50-52 | only the texts change |
| NoticeModel.Notice.SetId | src/org/exthmui/updater/model/Notice.java:54-56 | only the id changes |
| NoticeModel.Notice.SetImageUrl | src/org/exthmui/updater/model/Notice.java:58-60 | only the image URL changes |
| NoticeStore.AddNoticeTrueIffNew | src/org/exthmui/updater/controller/NoticeController.java:39-50 | `addNotice` answers true exactly when the id was not stored before |
| NoticeStore.ReAddOnlyChangesImage | src/org/exthmui/updater/controller/NoticeController.java:41-45 | re-adding a stored id replaces only that notice's image URL; ids, size, title and texts stay |
| NoticeStore.AddThenGet | src/org/exthmui/updater/controller/NoticeController.java:47-48 | after a successful add the id is stored, and a new id holds the decoded copy |
| NoticeStore.AddKeepsOthers | src/org/exthmui/updater/controller/NoticeController.java:39-50 | adding never alters the notice stored under another id |
| NoticeStore.AddKeepsKeyedById | src/org/exthmui/updater/controller/NoticeController.java:47-48 | every notice stays stored under its own id |
| NoticeStore.NoticeController.constructor | src/org/exthmui/updater/controller/NoticeController.java:25-30 | the map starts empty |
| NoticeStore.NoticeController.AddNotice | src/org/exthmui/updater/controller/NoticeController.java:39-50 | the answer and the new map are those of the insert-or-update rule, and every notice stays under its own id |
| NoticeStore.NoticeController.GetNotice | src/org/exthmui/updater/controller/NoticeController.java:67-70 | null exactly for an id never added, else the stored notice |
| NoticeStore.NoticeController.GetNotices | src/org/exthmui/updater/controller/NoticeController.java:52-58 | one entry per stored id, no id twice, every stored notice present, size equal to the map's |
| Utils.GetDownloadPathAsWritten | src/org/exthmui/updater/misc/Utils.java:60-63 | as written: a configured non-empty path is replaced by the default, and only an empty one is kept (see Findings) |
| Utils.DownloadPathPreferenceIgnored | src/org/exthmui/updater/misc/Utils.java:62 | every configured non-empty path is replaced by the default, which differs from the corrected result whenever the two paths differ |
| Utils.GetDownloadPath | src/org/exthmui/updater/misc/Utils.java:60-63 | corrected: the configured path when non-empty, else the default, so never empty with a non-empty default |
| Utils.CanInstallAsWritten | src/org/exthmui/updater/misc/Utils.java:132-138 | as written: a null download URL throws, because it is dereferenced before the null test; otherwise the same as the corrected test |
| Utils.CanInstallNullUrlThrows | src/org/exthmui/updater/misc/Utils.java:133 | a null URL makes the test as written throw, where the intended test answers false |
| Utils.CanInstall | src/org/exthmui/updater/misc/Utils.java:132-138 | installable exactly when the URL is non-empty, the version equals the build version ignoring case, and it is not an incremental package whose requirement is at or after the build date; only a null package type (reached) or version throws |
| Utils.FullPackageIgnoresRequirement | src/org/exthmui/updater/misc/Utils.java:134-135 | for a non-incremental package the requirement does not affect the test |
| Utils.IsCompatible | src/org/exthmui/updater/misc/Utils.java:110-130 | every update is compatible |
| Utils.ParsedUpdatesMembers | src/org/exthmui/updater/misc/Utils.java:153-168 | an update is in the parsed list exactly when the feed has it as a well-formed entry; null and malformed entries are skipped |
| Utils.ParseUpdateList | src/org/exthmui/updater/misc/Utils.java:140-170 | the loop keeps the well-formed entries in feed order, with or without the compatibility filter |
| Utils.UpdateIds | src/org/exthmui/updater/misc/Utils.java:318-320 | one download id per update, in order |
| Utils.NoticeIds | src/org/exthmui/updater/misc/Utils.java:332-334 | one id per notice, in order |
| Utils.NoNewIdInSuperset | src/org/exthmui/updater/misc/Utils.java:321-327 | when every new id was already known, no new id is reported, so identical lists give false |
| Utils.NewIdAppears | src/org/exthmui/updater/misc/Utils.java:317-327 | true exactly when some id of the new list is missing from the set of old ids |
| Utils.CheckForNewUpdates | src/org/exthmui/updater/misc/Utils.java:312-344 | compares download ids for updates and ids for notices, and says whether a new one appeared |
| Utils.GetZipEntryOffset | src/org/exthmui/updater/misc/Utils.java:354-374 | the loop's offset is the header-and-data span of the entries before the first match plus the match's header, where a header is 30 bytes plus name and extra lengths; no match throws |
| Utils.OffsetAtFirstMatch | src/org/exthmui/updater/misc/Utils.java:362-369 | the offset of the first matching entry is the summed spans before it plus its header size |
| Utils.OffsetNotFound | src/org/exthmui/updater/misc/Utils.java:372-373 | the offset is missing exactly when no entry has the name, and then it is an `IllegalArgumentException` |
| Utils.OffsetLowerBound | src/org/exthmui/updater/misc/Utils.java:364-367 | with non-negative sizes a found offset is at least 30 plus the path length |
| Utils.SplitExtension | src/org/exthmui/updater/misc/Utils.java:450-458 | name and extension concatenate back to the file name; an extension is split off at the last dot only when that dot is past the first character |
| Utils.LeadingDotNoExtension | src/org/exthmui/updater/misc/Utils.java:451-455 | a name whose only dot leads gets no extension |
| Utils.SequentialFilesDistinct | src/org/exthmui/updater/misc/Utils.java:459-463 | candidates with different sequence numbers are different files |
| Utils.AppendSequentialNumber | src/org/exthmui/updater/misc/Utils.java:448-467 | returns `name-i.ext` for the least i from 1 whose file does not exist, or throws `IllegalStateException` when every i below `Integer.MAX_VALUE` is taken |
| Utils.IsBusy | src/org/exthmui/updater/misc/Utils.java:559-562 | "buttons enabled" holds exactly when there is no active download, no verification and no installation |
| Utils.GetServerURL | src/org/exthmui/updater/misc/Utils.java:205-236 | the preference, else the system property, else the resource default, each skipped when blank after trimming; placeholders are left in because the `replace` result is discarded |
| Utils.ServerUrlPrecedence | src/org/exthmui/updater/misc/Utils.java:214-219 | a preference with a visible character always wins; an all-blank preference and property fall back to the resource |
| Utils.GetUpdateCheckSetting | src/org/exthmui/updater/misc/Utils.java:507-511 | the stored interval, weekly by default |
| Utils.IsUpdateCheckEnabled | src/org/exthmui/updater/misc/Utils.java:513-515 | disabled exactly when "never" is stored |
| Utils.GetUpdateCheckInterval | src/org/exthmui/updater/misc/Utils.java:521-531 | one day for daily, 30 days for monthly, 7 days for weekly and for every other value |
| Utils.FilterMembers | src/org/exthmui/updater/misc/Utils.java:376-386 | the uncrypt sweep deletes exactly the listed files with the uncrypt extension |
| Utils.CleanupDownloadsDir | src/org/exthmui/updater/misc/Utils.java:395-446 | the method's plan (files deleted, pref removed, flag set) is the one the sweep rule defines |
| Utils.SweepDeletesExactly | src/org/exthmui/updater/misc/Utils.java:433-445 | before `cleanup_done`, a listed file is deleted exactly when it is an uncrypt file, the last installed package being removed, or not the path of a known update |
| Utils.DoneSkipsSweep | src/org/exthmui/updater/misc/Utils.java:417-420 | once `cleanup_done` is set only uncrypt files and (maybe) the last installed package are deleted, and the flag is not written again |
| Utils.LastUpdateDeletedOnlyWhenWanted | src/org/exthmui/updater/misc/Utils.java:406-415 | the last installed package and its preference are removed exactly after a build change or a reinstall, with auto-delete on, a stored path, and the file present (and not already swept as an uncrypt file) |
| Utils.IsNetworkAvailable | src/org/exthmui/updater/misc/Utils.java:251-262 | available exactly when there is a connectivity manager, the active network has capabilities, and they include a cellular, Wi-Fi, Bluetooth or Ethernet transport; so a network of only VPN, Wi-Fi Aware or LoWPAN transports does not count |
| Utils.IsOnWifiOrEthernetAsWritten | src/org/exthmui/updater/misc/Utils.java:264-274 | as written it never reports Wi-Fi or Ethernet (see Findings) |
| Utils.WifiNotRecognised | src/org/exthmui/updater/misc/Utils.java:265 | on a plain Wi-Fi network the test as written says no, the intended one yes |
| Utils.IsOnWifiOrEthernet | src/org/exthmui/updater/misc/Utils.java:264-274 | corrected: true exactly when the active network has a Wi-Fi or Ethernet transport, which implies a network is available |
| StatusActions.ActiveLayout | src/org/exthmui/updater/MainActivity.java:304-317 | INCOMPLETE always active, UNKNOWN only while starting, VERIFIED only while installing; any other persistent status throws |
| StatusActions.ActiveStatusView | src/org/exthmui/updater/MainActivity.java:678-730 | first match wins: downloading gives pause (ETA text only when eta > 0, indeterminate only while starting); installing gives cancel; verifying gives a disabled install; otherwise resume, enabled when the controller is idle; the downloading and resume rows read the file length, so a missing file throws there |
| StatusActions.ActiveCanDeleteUnlessBusyWithIt | src/org/exthmui/updater/UpdatesListAdapter.java:67-118 | long-press delete is offered while downloading and in the resume branch, and withheld while installing or verifying |
| StatusActions.ActiveEnabledButtons | src/org/exthmui/updater/fragments/FoundUpdateFragment.java:176-223 | an active update's enabled button is pause, cancel, or resume on an idle controller; install is never enabled there |
| StatusActions.IdleStatusView | src/org/exthmui/updater/MainActivity.java:732-751 | first match wins: waiting for reboot gives reboot; a verified file gives install if installable, else delete; not installable gives info; otherwise download; the last three are enabled when the controller is idle |
| StatusActions.IdleButtonsNeedIdleController | src/org/exthmui/updater/UpdatesListAdapter.java:125-152 | every enabled non-reboot button of an idle update needs an idle controller |
| StatusActions.IdleInstallOnlyIfInstallable | src/org/exthmui/updater/fragments/FoundUpdateFragment.java:225-244 | install and download are offered only for an update meeting the install conditions, and install only for a verified file |
| UpdateListing.SortByTimestamp | src/org/exthmui/updater/MainActivity.java:365 | the sort is a permutation of the list |
| UpdateListing.SortOrdered | src/org/exthmui/updater/MainActivity.java:365 | the sorted list is ordered by timestamp, ascending or descending |
| UpdateListing.Step | src/org/exthmui/updater/MainActivity.java:374 | the new changelog of a newer update is its own text (null as "null") when nothing has accumulated yet, else its own text, a line break, and the accumulated text |
| UpdateListing.Merged | src/org/exthmui/updater/MainActivity.java:369-379 | the merge keeps the list's length |
| UpdateListing.MergedShape | src/org/exthmui/updater/UpdatesActivity.java:358-368 | the merge changes nothing but changelogs, leaves updates at or before the build date untouched, and gives a newer one the accumulated text |
| UpdateListing.AccSkipsOlder | src/org/exthmui/updater/MainActivity.java:373 | updates at or before the build date do not contribute to the accumulated changelog |
| UpdateListing.AccEmptyBeforeFirstNewer | src/org/exthmui/updater/MainActivity.java:371 | the accumulator is empty until the first newer update |
| UpdateListing.MergeChain | src/org/exthmui/updater/MainActivity.java:374-375 | a newer update's changelog is its own text, a line break, and the merged changelog of the previous newer update |
| UpdateListing.MergeFirstNewer | src/org/exthmui/updater/UpdatesActivity.java:363-364 | the first newer update keeps its own text (a null changelog becomes "null") |
| UpdateListing.MergeChangelogs | src/org/exthmui/updater/MainActivity.java:369-379 | the in-place loop leaves the array equal to the merged list; the remove/add pair keeps every update at its position |
| UpdateListing.CollectIds | src/org/exthmui/updater/UpdatesActivity.java:372-374 | one download id per update, in list order |
| UpdateListing.PrepareList | src/org/exthmui/updater/UpdatesActivity.java:354-374 | ascending sort, merge, descending sort, and the ids in that order |
| UpdateListing.PreparedListOrdered | src/org/exthmui/updater/MainActivity.java:382-385 | the prepared list is ordered newest first, has one entry per update, and is a permutation of the merged list |
| UpdateListing.MergeTwiceRepeats | src/org/exthmui/updater/MainActivity.java:369-379 | merging an already merged list repeats the older texts, so the merge is not idempotent |
| UpdateListing.IntakeFeed | src/org/exthmui/updater/MainActivity.java:345-357 | every parsed update is offered to the controller, its id recorded as online, and a manual refresh's snackbar says whether any was new |
| MainScreen.RefreshUpdate | src/org/exthmui/updater/MainActivity.java:295-337 | no update gives the "no updates" card; an unknown status and then a null version name throw; otherwise the status switch picks the active or idle layout, wired for the controller's record of the id, and the result succeeds exactly when that layout and its wiring do |
| MainScreen.LoadUpdatesList | src/org/exthmui/updater/MainActivity.java:339-387 | the intake, then for a non-empty controller list the prepared list, newest first, with its ids |
| UpdatesScreen.LoadUpdatesList | src/org/exthmui/updater/UpdatesActivity.java:324-378 | an empty controller list shows the "no new updates" view and leaves the adapter alone; otherwise the adapter gets one id per update in descending timestamp order |
| UpdatesScreen.ScaledImageWidth | src/org/exthmui/updater/UpdatesActivity.java:205 | zero for an unknown image height; otherwise, while the product fits, the floor of card height times the aspect ratio |
| UpdatesScreen.ScaledImageWidthSquare | src/org/exthmui/updater/UpdatesActivity.java:237 | a square image is as wide as the card is high |
| UpdatesScreen.ScaledImageWidthWraps | src/org/exthmui/updater/UpdatesActivity.java:205 | a product past 2^31 wraps, giving a wrong width |
| UpdatesList.BindRow | src/org/exthmui/updater/UpdatesListAdapter.java:154-221 | no id list or an unknown id disables the button; a missing position, a null id, an unknown status and a null version name throw; otherwise the row is selected when its id is the selected one and gets the active or idle layout wired for the record just looked up, and an idle row throws exactly when its own install test does |
| UpdatesList.UpdatesListAdapter.constructor | src/org/exthmui/updater/UpdatesListAdapter.java:228-230 | no id list until `setData` |
| UpdatesList.UpdatesListAdapter.SetData | src/org/exthmui/updater/UpdatesListAdapter.java:228-230 | the id list is replaced wholesale |
| UpdatesList.UpdatesListAdapter.GetItemCount | src/org/exthmui/updater/UpdatesListAdapter.java:223-226 | 0 with no id list, else its size |
| UpdatesList.UpdatesListAdapter.ChangedPosition | src/org/exthmui/updater/UpdatesListAdapter.java:232-237 | nothing is refreshed with no id list; otherwise the first position of the id, or -1 |
| UpdatesList.UpdatesListAdapter.RemoveItem | src/org/exthmui/updater/UpdatesListAdapter.java:239-247 | a no-op with no id list; otherwise the first occurrence goes, the others keep their order, and its position is reported |
| UpdatesList.UpdatesListAdapter.Bind | src/org/exthmui/updater/UpdatesListAdapter.java:154-221 | binding on the adapter's own id list: with none the button is only disabled, otherwise the row as `BindRow` binds it |
| FoundUpdate.RefreshFragment | src/org/exthmui/updater/fragments/FoundUpdateFragment.java:126-244 | no update reloads the fragment; an unknown status throws, a null version name does not; otherwise the status switch picks the active or idle layout wired for the controller's record of the id, and any exception of either is the fragment's |
| FoundUpdate.FragmentInstallNeedsVerified | src/org/exthmui/updater/fragments/FoundUpdateFragment.java:225-237 | an enabled install button appears only for a verified, installable update, and its click opens the install dialog only when the record it looks up meets the install conditions |
| UpdateActions.SetButtonAction | src/org/exthmui/updater/misc/UpdateActionsUtils.java:48-144 | disabled buttons do nothing and are dimmed; resume resumes exactly when installable or the file is complete, install opens the dialog exactly when installable, otherwise a snackbar; while wiring, resume and install throw on a missing update or a throwing install test, and resume also on a not installable update with no file |
| UpdateActions.HandleActiveStatus | src/org/exthmui/updater/MainActivity.java:678-730 | the active view with its button wired: downloading throws exactly on a missing file and wires pause; installing never throws and wires cancel; verifying throws exactly when the looked-up record is missing or its install test throws; paused throws when the file, the record or the record's install test fails |
| UpdateActions.ActiveResumeWiring | src/org/exthmui/updater/UpdatesListAdapter.java:105-116 | for a paused update looked up as itself, the row throws exactly on a missing file or a throwing install test, and an enabled resume resumes exactly when it is installable or complete |
| UpdateActions.HandleNotActiveStatus | src/org/exthmui/updater/MainActivity.java:732-751 | the idle view with its button wired: it throws exactly when the view's install test does or an install button's looked-up record is missing or throws; reboot, delete, info and download get their own clicks |
| UpdateActions.IdleWiringAgrees | src/org/exthmui/updater/UpdatesListAdapter.java:125-152 | when the record looked up is the update shown, the wiring never throws and never shows the "not installable" snackbar |
| UpdateActions.InstallClickNeedsConditions | src/org/exthmui/updater/misc/UpdateActionsUtils.java:83-97 | the install dialog opens only for an update meeting the install conditions |
| UpdateActions.MenuItemChosen | src/org/exthmui/updater/misc/UpdateActionsUtils.java:161-180 | delete asks for confirmation, copy copies the download URL, export runs only with storage permission |
| UpdateActions.ActionMode.constructor | src/org/exthmui/updater/misc/UpdateActionsUtils.java:46 | nothing is selected at first |
| UpdateActions.ActionMode.StartActionMode | src/org/exthmui/updater/misc/UpdateActionsUtils.java:146-159 | the update becomes the selected one; delete shows iff allowed, copy-URL iff available online, export iff the file is verified |
| UpdateActions.ActionMode.GetSelectedDownload | src/org/exthmui/updater/misc/UpdateActionsUtils.java:307-309 | the id selected last |
| UpdateActions.ExportDestination | src/org/exthmui/updater/misc/UpdateActionsUtils.java:188-192 | the update's name in the export directory, or its first free numbered variant when taken; what is returned does not exist; a null name throws |
| UpdateActions.AsksBeforeDownloadAsWritten | src/org/exthmui/updater/misc/UpdateActionsUtils.java:200-206 | as written the dialog is shown only when the device IS on Wi-Fi or Ethernet (see Findings) |
| UpdateActions.MobileDataWarningNeverShown | src/org/exthmui/updater/misc/UpdateActionsUtils.java:203 | with the Wi-Fi test as written the warning is never shown |
| UpdateActions.MobileDataWarningInverted | src/org/exthmui/updater/misc/UpdateActionsUtils.java:203-206 | with a working Wi-Fi test the code as written would warn on Wi-Fi and not on cellular; the intended test does the opposite |
| UpdateActions.AsksBeforeDownload | src/org/exthmui/updater/misc/UpdateActionsUtils.java:200-206 | corrected: asks first exactly when the warning is on and the device is not on Wi-Fi or Ethernet |
| UpdateActions.ActionSession.constructor | src/org/exthmui/updater/misc/UpdateActionsUtils.java:202 | the warning preference defaults to on |
| UpdateActions.ActionSession.StartDownloadWithWarning | src/org/exthmui/updater/misc/UpdateActionsUtils.java:200-206 | with the corrected warning rule, the download starts at once exactly when no warning is due, and otherwise the warning dialog is shown |
| UpdateActions.ActionSession.ConfirmMobileDataDownload | src/org/exthmui/updater/misc/UpdateActionsUtils.java:214-224 | "do not ask again" turns the warning off, and the download starts |
| UpdateActions.ActionSession.ConfirmDelete | src/org/exthmui/updater/misc/UpdateActionsUtils.java:234-237 | the download is paused, then the update deleted, in that order |
| UpdateActions.GetInstallDialog | src/org/exthmui/updater/misc/UpdateActionsUtils.java:242-277 | a low battery gives only the battery warning; otherwise the A/B or classic message; a missing update throws; an unreadable package gives no dialog |
| UpdateActions.InstallClicked | src/org/exthmui/updater/misc/UpdateActionsUtils.java:90 | showing a missing dialog throws |
| UpdateActions.ApplyNeedsBatteryAndPackage | src/org/exthmui/updater/misc/UpdateActionsUtils.java:243-263 | the install trigger is reachable only on a charged battery with a readable package |
| NoticesList.NoticesListAdapter.constructor | src/org/exthmui/updater/NoticesListAdapter.java:85-87 | no id list until `setData` |
| NoticesList.NoticesListAdapter.SetData | src/org/exthmui/updater/NoticesListAdapter.java:85-87 | the id list is replaced wholesale |
| NoticesList.NoticesListAdapter.GetItemCount | src/org/exthmui/updater/NoticesListAdapter.java:80-83 | 0 with no id list, else its size |
| NoticesList.NoticesListAdapter.Bind | src/org/exthmui/updater/NoticesListAdapter.java:69-78 | the row shows the stored notice's title and texts; no id list, a missing position or an unknown id throws |
| NoticesList.NoticesListAdapter.ChangedPosition | src/org/exthmui/updater/NoticesListAdapter.java:94-99 | nothing is refreshed with no id list; otherwise the first position of the id, or -1 |
| NoticesList.NoticesListAdapter.RemoveItem | src/org/exthmui/updater/NoticesListAdapter.java:101-109 | a no-op with no id list; otherwise the first occurrence goes and the others keep their order; an absent id changes nothing |
| ImageView.FirstPositiveOr | src/org/exthmui/updater/ui/OnlineImageView.java:54-75 | the first positive candidate, or the last resort when none is positive |
| ImageView.InSampleSize | src/org/exthmui/updater/ui/OnlineImageView.java:109-129 | 1 when the image fits; otherwise the larger truncated ratio; a zero view size throws |
| ImageView.InSampleSizeBounds | src/org/exthmui/updater/ui/OnlineImageView.java:103-108 | for a view of positive size the sample size is at least 1, at least the width ratio of a too-wide image, and at most the larger image dimension |
| ImageView.OnlineImageView.constructor | src/org/exthmui/updater/ui/OnlineImageView.java:28-29 | image width and height start at 0 |
| ImageView.OnlineImageView.GetImageWidth | src/org/exthmui/updater/ui/OnlineImageView.java:38-40 | the recorded image width |
| ImageView.OnlineImageView.GetImageHeight | src/org/exthmui/updater/ui/OnlineImageView.java:46-48 | the recorded image height |
| ImageView.OnlineImageView.RealImageViewSize | src/org/exthmui/updater/ui/OnlineImageView.java:81-101 | measured size, else layout size, else maximum size, else screen size: the first positive one |
| ImageView.OnlineImageView.GetInSampleSize | src/org/exthmui/updater/ui/OnlineImageView.java:109-129 | records the decoded size for the getters, then compares it with the view's real width and height |
| Settings.SummaryFor | src/org/exthmui/updater/AdvancedSettings.java:123-125 | the "never" text when no listed option is chosen |
| Settings.SummaryIgnoresUnknownOptions | src/org/exthmui/updater/AdvancedSettings.java:95-122 | only the seven listed options can appear in the summary |
| Settings.SummaryShape | src/org/exthmui/updater/AdvancedSettings.java:123-125 | a summary with a chosen option starts with the "use" text and ends with the "network" text |
| Settings.AddIfChosenExtends | src/org/exthmui/updater/AdvancedSettings.java:95-98 | each step appends a chosen option's label after a space (first) or " & " (later), in option order |
| Settings.AutoDownloadSummary | src/org/exthmui/updater/AdvancedSettings.java:86-127 | always accepted; a null value falls back to the stored set; with neither, or with no activity, no summary; otherwise "use", the chosen labels joined by " & ", and "network", or "never" |
| Settings.DownloadPathChangeAsWritten | src/org/exthmui/updater/AdvancedSettings.java:130-137 | as written: null refreshes the summary and rejects; only the empty literal itself resets the text and rejects; anything else, an empty text typed by the user included, is accepted |
| Settings.EmptyPathAccepted | src/org/exthmui/updater/AdvancedSettings.java:134 | as written an emptied text box is accepted as an empty path |
| Settings.DownloadPathChange | src/org/exthmui/updater/AdvancedSettings.java:130-137 | corrected: any empty value resets the text to the default and is rejected |
| Settings.DownloadPathChangeAgrees | src/org/exthmui/updater/AdvancedSettings.java:134 | the two versions differ exactly on an empty text that is not the literal |

## Left out

- The updater controller, updater service, download client, database helper and installers are not part of this model. Their answers are inputs, and no transition rule is invented for them.
- JSON parsing and Base64 decoding are library calls.
  - A feed entry is taken as already parsed or malformed (`Utils.FeedEntry`).
  - The decoder is a parameter.
  - Byte-to-String charset conversion is not modelled.
- Network I/O, threads and handlers are not modelled. These are the image download, bitmap decoding and download callbacks. They are also where the ConnectivityManager's answers come from, and those answers are inputs.
- `getNetworkType`, `getExportPath`, `isBatteryLevelOk`, `isABUpdate` and the clipboard are inputs or not modelled. They are Android or file-system calls.
- `isABDevice` is not modelled, because the A/B flag is an input.
- `isAutoDownloadEnabled` is not modelled. It is the same expression as `IsUpdateCheckEnabled`.
- `parseJsonNotice` and `getUpgradeBlockedURL` are not modelled. They are JSON and resource plumbing.
- Floating-point UI arithmetic is not modelled: the `* 0.6` button sizing and the percentage formatting.
- The presentation layer is not modelled: animations, snackbar and dialog rendering, and RecyclerView recycling. Only the decision each of them shows is modelled.
- File-system effects are not modelled. The sweep returns the plan of files to delete and preferences to write.
- Aliasing is not modelled:
  - The controller's update objects are shared with the screens, and the merge mutates them. The model passes the controller's list in as a value and returns the merged copy.
  - The adapter keeps the very list passed to `setData`.
  - `addNotice` calls `setImageUrl` on the stored object.
- `MergeTwiceRepeats` shows a consequence of that sharing: if the controller hands back the same objects on the next refresh, each changelog grows again. Whether it does depends on the controller, which is not part of this model.
- Sort stability of `List.sort` is used, through the insertion sort, but not stated as a lemma. The merge result depends on it only for updates with equal timestamps.
- Two differences from the source's integer and string widths:
  - `getZipEntryOffset` takes the name length in UTF-16 code units; the model uses character count.
  - The offset is a 64-bit `long`; the model does not wrap it.
- `equalsIgnoreCase` folds ASCII letters only. Java also folds other Unicode letters.
- `ImageView.InSampleSize` does not model `Math.round` on the `int` quotient. Java widens the quotient to `float` first, which loses precision above 2^24.
- `ImageView.InSampleSizeBounds` promises the documented "at least 1" only for positive view sizes. A zero screen size throws, and a negative one is not covered.
- `NoticeModel.Notice.WithFields` and `NoticeModel.Notice.Copy` take non-null encoded fields as a precondition. The source throws `NullPointerException` from the decoder instead.
  - `NoticeModel.Notice.Init` and `NoticeModel.Decoded` do model that exception, which is the only way the controller reaches them.
- Long-press menu wiring in the adapters is modelled only through `canDelete`.
- Not modelled: the NPE on a null `canDelete` update, `getCancelInstallationDialog`, `showInfoDialog` and the reboot call.
- StatusActions.IdleStatusView: uses the corrected `Utils.CanInstall`, so an update with a null download URL is "not installable" instead of throwing `NullPointerException` as `Utils.CanInstallAsWritten` does.
- UpdateActions.SetButtonAction: uses the corrected `Utils.CanInstall`; as written a null download URL throws while resume or install is wired.
- UpdateActions.HandleActiveStatus: uses the corrected `Utils.CanInstall` through `SetButtonAction`, so a null download URL does not throw.
- UpdateActions.HandleNotActiveStatus: uses the corrected `Utils.CanInstall`, so a null download URL does not throw.
- MainScreen.RefreshUpdate: uses the corrected `Utils.CanInstall` through the layouts, so a null download URL does not throw.
- UpdatesList.BindRow: uses the corrected `Utils.CanInstall` through the layouts, so a null download URL does not throw.
- UpdatesList.UpdatesListAdapter.Bind: inherits the corrected `Utils.CanInstall` from `BindRow`.
- FoundUpdate.RefreshFragment: uses the corrected `Utils.CanInstall` through the layouts, so a null download URL does not throw.
- UpdateActions.ActionSession.StartDownloadWithWarning: follows the corrected rule `AsksBeforeDownload`. As written (`AsksBeforeDownloadAsWritten`, with the Wi-Fi test as written) the warning is never shown and the download always starts at once.

## Findings

| source | as written | input that shows it | evidently intended | confidence | as-written member | corrected member |
|---|---|---|---|---|---|---|
| src/org/exthmui/updater/misc/Utils.java:62 | `path.equals("") ? path : default` keeps the configured path only when it is empty | stored path "/sdcard/updates" gives the default path | use the configured path unless it is empty | high, not executed | Utils.GetDownloadPathAsWritten | Utils.GetDownloadPath |
| src/org/exthmui/updater/misc/Utils.java:265 | `if (isNetworkAvailable(context)) return false;` returns false whenever any network is up, and the later code can only return true when none is | an active Wi-Fi network gives false | return false when NO network is available | high, not executed | Utils.IsOnWifiOrEthernetAsWritten | Utils.IsOnWifiOrEthernet |
| src/org/exthmui/updater/misc/UpdateActionsUtils.java:203 | downloads at once when NOT on Wi-Fi or Ethernet, so the mobile-data warning would appear on Wi-Fi; combined with the row above it never appears | cellular network, warning on: the download starts without asking | ask first exactly on a network that is not Wi-Fi or Ethernet | medium, not executed | UpdateActions.AsksBeforeDownloadAsWritten | UpdateActions.AsksBeforeDownload |
| src/org/exthmui/updater/misc/Utils.java:133 | `!url.equals("") && url != null` dereferences the URL before testing it for null | an update whose download URL is null throws `NullPointerException` | test for null first, answering "not installable" | medium, not executed | Utils.CanInstallAsWritten | Utils.CanInstall |
| src/org/exthmui/updater/AdvancedSettings.java:134 | `newValue == ""` compares references, so an emptied text box is never recognised | the user clears the path: the change is accepted as an empty path | compare contents and reset to the default path | medium, not executed | Settings.DownloadPathChangeAsWritten | Settings.DownloadPathChange |
