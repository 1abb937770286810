/**
 * The updater's static helper rules: where downloads go, which update may be installed,
 * feed filtering, the "new id" comparison, ZIP entry offsets, unique file names, the
 * idle gate, server URLs, check intervals, the download-directory sweep and the
 * network-type tests.
 */
module Utils {
  import opened JavaLang
  import opened UpdateModel
  import opened NoticeModel

  // ---------------------------------------------------------------------------
  // Download directory

  /**
   * The download directory as written: the stored preference (or the default when none
   * is stored) is kept only when it is empty; any other value is replaced by the default.
   */
  function GetDownloadPathAsWritten(stored: Option<string>, defaultPath: string): (r: string)
    ensures stored.Some? && stored.value != "" ==> r == defaultPath
    ensures r == defaultPath || r == ""
  {
    var path := stored.GetOr(defaultPath);
    if path == "" then path else defaultPath
  }

  /** A directory chosen in the settings is never used: every non-empty choice gives the default, unlike the intended rule. */
  lemma DownloadPathPreferenceIgnored(stored: string, defaultPath: string)
    requires stored != ""
    ensures GetDownloadPathAsWritten(Some(stored), defaultPath) == defaultPath
    ensures stored != defaultPath ==>
      GetDownloadPathAsWritten(Some(stored), defaultPath) != GetDownloadPath(Some(stored), defaultPath)
  {
  }

  /** The download directory as intended: the stored path, or the default when it is unset or empty. */
  function GetDownloadPath(stored: Option<string>, defaultPath: string): (r: string)
    ensures stored.Some? && stored.value != "" ==> r == stored.value
    ensures stored.None? || stored.value == "" ==> r == defaultPath
    ensures defaultPath != "" ==> r != ""
  {
    var path := stored.GetOr(defaultPath);
    if path == "" then defaultPath else path
  }

  // ---------------------------------------------------------------------------
  // Install eligibility

  /**
   * The three conditions under which an update can be installed: it has a non-empty
   * download URL, it is not an incremental package whose requirement date is at or after
   * the running build's date, and its version equals the build version ignoring case.
   */
  ghost predicate InstallConditions(u: UpdateBaseInfo, buildDate: int, buildVersion: string) {
    && u.downloadUrl.Some? && u.downloadUrl.value != ""
    && !(u.requirement >= buildDate && u.pType == Some("incremental"))
    && u.version.Some? && EqualsIgnoreCase(u.version.value, buildVersion)
  }

  /**
   * The evaluation after the URL test: the package-type test (reached only when the
   * requirement date is at or after the build date) and then the version test.
   */
  function CanInstallRest(u: UpdateBaseInfo, buildDate: int, buildVersion: string): Result<bool> {
    if u.requirement >= buildDate && u.pType.None? then Err(NullPointer)
    else if u.requirement >= buildDate && u.pType == Some("incremental") then Ok(false)
    else if u.version.None? then Err(NullPointer)
    else Ok(EqualsIgnoreCase(u.version.value, buildVersion))
  }

  /**
   * `canInstall` as written: the URL is dereferenced by `.equals("")` before it is
   * compared with null, so a null download URL throws instead of answering false.
   */
  function CanInstallAsWritten(u: UpdateBaseInfo, buildDate: int, buildVersion: string): (r: Result<bool>)
    ensures u.downloadUrl.None? ==> r == Err(NullPointer)
    ensures u.downloadUrl.Some? ==> r == CanInstall(u, buildDate, buildVersion)
  {
    match u.downloadUrl
    case None => Err(NullPointer)
    case Some(url) => if url == "" then Ok(false) else CanInstallRest(u, buildDate, buildVersion)
  }

  lemma CanInstallNullUrlThrows(u: UpdateBaseInfo, buildDate: int, buildVersion: string)
    requires u.downloadUrl.None?
    ensures CanInstallAsWritten(u, buildDate, buildVersion).Err?
    ensures CanInstall(u, buildDate, buildVersion) == Ok(false)
  {
  }

  /**
   * `canInstall` with the null test first. When it answers, it answers true exactly
   * when the three install conditions hold; it still throws when a package type or
   * version it has to read is null.
   */
  function CanInstall(u: UpdateBaseInfo, buildDate: int, buildVersion: string): (r: Result<bool>)
    ensures r.Ok? ==> (r.value <==> InstallConditions(u, buildDate, buildVersion))
    ensures r.Err? <==>
      && u.downloadUrl.Some? && u.downloadUrl.value != ""
      && ((u.requirement >= buildDate && u.pType.None?)
          || (!(u.requirement >= buildDate && u.pType == Some("incremental")) && u.version.None?))
    ensures r.Err? ==> r.error == NullPointer
  {
    match u.downloadUrl
    case None => Ok(false)
    case Some(url) => if url == "" then Ok(false) else CanInstallRest(u, buildDate, buildVersion)
  }

  /** With the version check's inputs fixed, only an incremental package can be refused by date. */
  lemma FullPackageIgnoresRequirement(u: UpdateBaseInfo, buildDate: int, buildVersion: string, req: int)
    requires u.pType.Some? && u.pType.value != "incremental"
    ensures CanInstall(u, buildDate, buildVersion) == CanInstall(u.(requirement := req), buildDate, buildVersion)
  {
  }

  // ---------------------------------------------------------------------------
  // Feed filtering

  /** Every compatibility test of the source is commented out: all updates are compatible. */
  function IsCompatible(u: UpdateBaseInfo): (r: bool)
    ensures r
  {
    true
  }

  /** One element of the feed's `response` array. */
  datatype FeedEntry =
    | NullEntry                        // a JSON null
    | MalformedEntry                   // an object whose parsing throws a JSONException
    | UpdateEntry(update: UpdateBaseInfo)

  /** The updates of the successfully parsed entries, in feed order. */
  function ParsedUpdates(entries: seq<FeedEntry>): seq<UpdateBaseInfo> {
    if entries == [] then []
    else
      var last := entries[|entries| - 1];
      ParsedUpdates(entries[..|entries| - 1]) + (if last.UpdateEntry? then [last.update] else [])
  }

  /** An update is in the parsed list exactly when some entry of the feed parsed to it. */
  lemma {:induction false} ParsedUpdatesMembers(entries: seq<FeedEntry>, u: UpdateBaseInfo)
    ensures u in ParsedUpdates(entries) <==> UpdateEntry(u) in entries
  {
    if entries != [] {
      var init := entries[..|entries| - 1];
      ParsedUpdatesMembers(init, u);
      assert entries == init + [entries[|entries| - 1]];
    }
  }

  /**
   * The entry loop of `parseJsonUpdate`: null and malformed entries are skipped, and
   * because every update is compatible the `compatibleOnly` flag never drops one.
   */
  method ParseUpdateList(entries: seq<FeedEntry>, compatibleOnly: bool) returns (updates: seq<UpdateBaseInfo>)
    ensures updates == ParsedUpdates(entries)
  {
    updates := [];
    for i := 0 to |entries|
      invariant updates == ParsedUpdates(entries[..i])
    {
      assert entries[..i + 1][..i] == entries[..i];
      match entries[i]
      case NullEntry =>
      case MalformedEntry =>
      case UpdateEntry(u) =>
        // the `else` branch that removes an incompatible update is dead code
        if !compatibleOnly || IsCompatible(u) {
          updates := updates + [u];
        }
    }
    assert entries[..|entries|] == entries;
  }

  // ---------------------------------------------------------------------------
  // New-id detection

  /** The download id of each update, in order. */
  function UpdateIds(list: seq<UpdateBaseInfo>): (ids: seq<JString>)
    ensures |ids| == |list| && forall i :: 0 <= i < |list| ==> ids[i] == list[i].downloadId
  {
    seq(|list|, i requires 0 <= i < |list| => list[i].downloadId)
  }

  /** The id of each notice, in order. */
  function NoticeIds(list: seq<NoticeInfo>): (ids: seq<JString>)
    ensures |ids| == |list| && forall i :: 0 <= i < |list| ==> ids[i] == list[i].id
  {
    seq(|list|, i requires 0 <= i < |list| => list[i].id)
  }

  /** Some id of the new list does not occur in the old list. */
  predicate HasNewId(oldIds: seq<JString>, newIds: seq<JString>) {
    exists i :: 0 <= i < |newIds| && newIds[i] !in oldIds
  }

  /** A list compared with itself, or with any list holding all its ids, has nothing new. */
  lemma NoNewIdInSuperset(oldIds: seq<JString>, newIds: seq<JString>)
    requires forall x :: x in newIds ==> x in oldIds
    ensures !HasNewId(oldIds, newIds)
  {
  }

  /** The two loops of `checkForNewUpdates`: collect the old ids in a set, then probe each new id. */
  method NewIdAppears(oldIds: seq<JString>, newIds: seq<JString>) returns (found: bool)
    ensures found == HasNewId(oldIds, newIds)
  {
    var known: set<JString> := {};
    for i := 0 to |oldIds|
      invariant known == set j | 0 <= j < i :: oldIds[j]
    {
      known := known + {oldIds[i]};
    }
    assert forall x :: x in known <==> x in oldIds by {
      forall x | x in oldIds
        ensures x in known
      {
        var j :| 0 <= j < |oldIds| && oldIds[j] == x;
      }
    }
    for i := 0 to |newIds|
      invariant forall j :: 0 <= j < i ==> newIds[j] in oldIds
    {
      if newIds[i] !in known {
        return true;
      }
    }
    return false;
  }

  /**
   * `checkForNewUpdates`: true when the new feed holds a (compatible) update whose
   * download id the old feed lacks, or for notices a notice whose id the old feed lacks.
   */
  method CheckForNewUpdates(isUpdate: bool, oldFeed: seq<FeedEntry>, newFeed: seq<FeedEntry>,
                            oldNotices: seq<NoticeInfo>, newNotices: seq<NoticeInfo>)
    returns (found: bool)
    ensures isUpdate ==> found == HasNewId(UpdateIds(ParsedUpdates(oldFeed)), UpdateIds(ParsedUpdates(newFeed)))
    ensures !isUpdate ==> found == HasNewId(NoticeIds(oldNotices), NoticeIds(newNotices))
  {
    if isUpdate {
      var oldList := ParseUpdateList(oldFeed, true);
      var newList := ParseUpdateList(newFeed, true);
      found := NewIdAppears(UpdateIds(oldList), UpdateIds(newList));
    } else {
      found := NewIdAppears(NoticeIds(oldNotices), NoticeIds(newNotices));
    }
  }

  // ---------------------------------------------------------------------------
  // ZIP entry offsets (local file headers, section 4.3.7 of the PKWARE ZIP APPNOTE.TXT)

  /** What the offset computation reads of a ZIP entry. */
  datatype ZipEntry = ZipEntry(name: string, extra: Option<seq<bv8>>, compressedSize: int)

  const FIXED_HEADER_SIZE: int := 30

  /** The local header: 30 fixed bytes, the name and the extra field. */
  function HeaderSize(e: ZipEntry): int {
    FIXED_HEADER_SIZE + |e.name| + (if e.extra.None? then 0 else |e.extra.value|)
  }

  /** The bytes an entry occupies before the next local header: its header and its data. */
  function SpanSum(entries: seq<ZipEntry>): int {
    if entries == [] then 0 else HeaderSize(entries[0]) + entries[0].compressedSize + SpanSum(entries[1..])
  }

  /** The data offset of the first entry named `path`, relative to the first header. */
  function EntryOffset(entries: seq<ZipEntry>, path: string): Result<int> {
    if entries == [] then Err(IllegalArgument)
    else if entries[0].name == path then Ok(HeaderSize(entries[0]))
    else Shift(EntryOffset(entries[1..], path), HeaderSize(entries[0]) + entries[0].compressedSize)
  }

  function Shift(r: Result<int>, delta: int): Result<int> {
    match r
    case Ok(k) => Ok(delta + k)
    case Err(e) => Err(e)
  }

  /**
   * `getZipEntryOffset`: walks the entries adding header and data sizes until the named
   * entry's header is passed; throws when no entry has that name.
   */
  method GetZipEntryOffset(entries: seq<ZipEntry>, entryPath: string) returns (r: Result<int>)
    ensures r == EntryOffset(entries, entryPath)
  {
    var offset := 0;
    var i := 0;
    while i < |entries|
      invariant 0 <= i <= |entries|
      invariant EntryOffset(entries, entryPath) == Shift(EntryOffset(entries[i..], entryPath), offset)
    {
      var entry := entries[i];
      assert entries[i..][0] == entry && entries[i..][1..] == entries[i + 1..];
      offset := offset + HeaderSize(entry);
      if entry.name == entryPath {
        return Ok(offset);
      }
      offset := offset + entry.compressedSize;
      i := i + 1;
    }
    return Err(IllegalArgument);
  }

  /** The offset is the span of every entry before the first match plus the match's header. */
  lemma {:induction false} OffsetAtFirstMatch(entries: seq<ZipEntry>, path: string, j: int)
    requires 0 <= j < |entries| && entries[j].name == path
    requires forall i :: 0 <= i < j ==> entries[i].name != path
    ensures EntryOffset(entries, path) == Ok(SpanSum(entries[..j]) + HeaderSize(entries[j]))
  {
    if j > 0 {
      OffsetAtFirstMatch(entries[1..], path, j - 1);
      assert entries[..j][1..] == entries[1..][..j - 1];
    }
  }

  /** The offset computation throws exactly when no entry has the name. */
  lemma {:induction false} OffsetNotFound(entries: seq<ZipEntry>, path: string)
    ensures EntryOffset(entries, path).Err? <==> forall i :: 0 <= i < |entries| ==> entries[i].name != path
    ensures EntryOffset(entries, path).Err? ==> EntryOffset(entries, path).error == IllegalArgument
  {
    if entries != [] {
      OffsetNotFound(entries[1..], path);
      assert forall i :: 1 <= i < |entries| ==> entries[i] == entries[1..][i - 1];
    }
  }

  /** With non-negative data sizes the offset lies past at least the match's own header. */
  lemma {:induction false} OffsetLowerBound(entries: seq<ZipEntry>, path: string)
    requires forall i :: 0 <= i < |entries| ==> entries[i].compressedSize >= 0
    ensures EntryOffset(entries, path).Ok? ==> EntryOffset(entries, path).value >= FIXED_HEADER_SIZE + |path|
  {
    if entries != [] && entries[0].name != path {
      OffsetLowerBound(entries[1..], path);
    }
  }

  // ---------------------------------------------------------------------------
  // Unique file names

  /** A `java.io.File` built from a parent directory (absent for none) and a name. */
  datatype FilePath = FilePath(parent: Option<string>, name: string)

  function PathOf(f: FilePath): string {
    match f.parent
    case None => f.name
    case Some(p) => p + "/" + f.name
  }

  /**
   * The stem and extension of a name: split at the last '.', but only when that dot is
   * not the first character; otherwise the extension is empty.
   */
  function SplitExtension(name: string): (r: (string, string))
    ensures r.0 + r.1 == name
    ensures r.1 != "" ==> r.1[0] == '.' && '.' !in r.1[1..] && r.0 != ""
    ensures r.1 == "" <==> LastIndexOf(name, '.') <= 0
  {
    var p := LastIndexOf(name, '.');
    if p > 0 then (name[..p], name[p..]) else (name, "")
  }

  /** A hidden file such as ".config" has no extension. */
  lemma LeadingDotNoExtension(name: string)
    requires name != [] && name[0] == '.' && '.' !in name[1..]
    ensures SplitExtension(name) == (name, "")
  {
  }

  /** The `i`-th candidate name: stem, "-", the number, extension, in the same directory. */
  function SequentialFile(file: FilePath, i: nat): FilePath {
    var split := SplitExtension(file.name);
    FilePath(file.parent, split.0 + "-" + NatToString(i) + split.1)
  }

  /** Candidates with different numbers are different files, so the search never revisits one. */
  lemma SequentialFilesDistinct(file: FilePath, i: nat, j: nat)
    requires i != j
    ensures SequentialFile(file, i) != SequentialFile(file, j)
  {
    var split := SplitExtension(file.name);
    var a, b := NatToString(i), NatToString(j);
    NatToStringInjective(i, j);
    var x, y := split.0 + "-" + a + split.1, split.0 + "-" + b + split.1;
    var k := |split.0| + 1;
    if |a| == |b| {
      assert x[k..k + |a|] == a;
      assert y[k..k + |a|] == b;
    } else {
      assert |x| != |y|;
    }
  }

  /**
   * `appendSequentialNumber`: the first candidate numbered 1, 2, ... below
   * `Integer.MAX_VALUE` that does not exist; throws when all of them exist.
   */
  method AppendSequentialNumber(file: FilePath, fileExists: string -> bool) returns (r: Result<FilePath>)
    ensures r.Ok? ==> exists i :: 1 <= i < INT_MAX && r.value == SequentialFile(file, i)
                          && !fileExists(PathOf(SequentialFile(file, i)))
                          && forall j :: 1 <= j < i ==> fileExists(PathOf(SequentialFile(file, j)))
    ensures r.Err? ==> r.error == IllegalState
                       && forall j :: 1 <= j < INT_MAX ==> fileExists(PathOf(SequentialFile(file, j)))
  {
    var i := 1;
    while i < INT_MAX
      invariant 1 <= i <= INT_MAX
      invariant forall j :: 1 <= j < i ==> fileExists(PathOf(SequentialFile(file, j)))
    {
      var candidate := SequentialFile(file, i);
      if !fileExists(PathOf(candidate)) {
        return Ok(candidate);
      }
      i := i + 1;
    }
    return Err(IllegalState);
  }

  // ---------------------------------------------------------------------------
  // The idle gate

  /**
   * True when the controller is idle: no active download, no verification and no
   * installation (the name says the opposite of what it answers). Screens use it as
   * the "buttons enabled" flag.
   */
  function IsBusy(c: ControllerView): (r: bool)
    ensures r ==> c.hasNoActiveDownloads
    ensures r ==> !c.verifyingAny && c.notInstallingUpdate
    ensures c.hasNoActiveDownloads && !c.verifyingAny && c.notInstallingUpdate ==> r
  {
    c.hasNoActiveDownloads && !c.verifyingAny && c.notInstallingUpdate
  }

  // ---------------------------------------------------------------------------
  // Server URL

  /** The three places one server URL can come from, in order of precedence. */
  datatype UrlSources = UrlSources(preference: string, property: string, resource: string)

  /**
   * `getServerURL`: the first of preference and system property that is not blank after
   * trimming, else the built-in resource. The placeholder substitution's result is
   * discarded by the source, so the chosen text is returned as it is.
   */
  function GetServerURL(isUpdate: bool, updates: UrlSources, notices: UrlSources): (r: string)
    ensures var s := if isUpdate then updates else notices;
      r == s.preference || r == s.property || r == s.resource
    ensures var s := if isUpdate then updates else notices;
      !IsBlank(s.preference) ==> r == s.preference
    ensures var s := if isUpdate then updates else notices;
      IsBlank(s.preference) && !IsBlank(s.property) ==> r == s.property
    ensures var s := if isUpdate then updates else notices;
      IsBlank(s.preference) && IsBlank(s.property) ==> r == s.resource
  {
    var s := if isUpdate then updates else notices;
    var url := s.preference;
    if !IsBlank(url) then url
    else
      var url := s.property;
      if !IsBlank(url) then url else s.resource
  }

  /**
   * A preference made only of spaces and control characters never wins; one with any
   * visible character is returned exactly as stored.
   */
  lemma ServerUrlPrecedence(isUpdate: bool, updates: UrlSources, notices: UrlSources)
    ensures var s := if isUpdate then updates else notices;
      (exists i :: 0 <= i < |s.preference| && s.preference[i] > ' ') ==>
        GetServerURL(isUpdate, updates, notices) == s.preference
    ensures var s := if isUpdate then updates else notices;
      (forall i :: 0 <= i < |s.preference| ==> s.preference[i] <= ' ') ==>
        GetServerURL(isUpdate, updates, notices) == (if IsBlank(s.property) then s.resource else s.property)
  {
    var s := if isUpdate then updates else notices;
    BlankIffSpaces(s.preference);
  }

  // ---------------------------------------------------------------------------
  // Update-check interval

  const AUTO_UPDATES_CHECK_INTERVAL_NEVER: int := 0
  const AUTO_UPDATES_CHECK_INTERVAL_DAILY: int := 1
  const AUTO_UPDATES_CHECK_INTERVAL_WEEKLY: int := 2
  const AUTO_UPDATES_CHECK_INTERVAL_MONTHLY: int := 3

  /** `AlarmManager.INTERVAL_DAY`, in milliseconds. */
  const INTERVAL_DAY: int := 86_400_000

  /** The stored interval setting, weekly when none is stored. */
  function GetUpdateCheckSetting(stored: Option<int>): (r: int)
    ensures stored.None? ==> r == AUTO_UPDATES_CHECK_INTERVAL_WEEKLY
    ensures stored.Some? ==> r == stored.value
  {
    stored.GetOr(AUTO_UPDATES_CHECK_INTERVAL_WEEKLY)
  }

  /** Automatic checks are off only when "never" has been stored explicitly. */
  function IsUpdateCheckEnabled(stored: Option<int>): (r: bool)
    ensures !r <==> stored == Some(AUTO_UPDATES_CHECK_INTERVAL_NEVER)
  {
    GetUpdateCheckSetting(stored) != AUTO_UPDATES_CHECK_INTERVAL_NEVER
  }

  /**
   * One day for daily, thirty for monthly, and seven for weekly and every other value
   * (including "never" and unknown numbers).
   */
  function GetUpdateCheckInterval(stored: Option<int>): (r: int)
    ensures r == INTERVAL_DAY <==> GetUpdateCheckSetting(stored) == AUTO_UPDATES_CHECK_INTERVAL_DAILY
    ensures r == INTERVAL_DAY * 30 <==> GetUpdateCheckSetting(stored) == AUTO_UPDATES_CHECK_INTERVAL_MONTHLY
    ensures r == INTERVAL_DAY * 7 <==>
      GetUpdateCheckSetting(stored) !in {AUTO_UPDATES_CHECK_INTERVAL_DAILY, AUTO_UPDATES_CHECK_INTERVAL_MONTHLY}
    ensures stored.None? ==> r == INTERVAL_DAY * 7
  {
    var setting := GetUpdateCheckSetting(stored);
    if setting == AUTO_UPDATES_CHECK_INTERVAL_DAILY then INTERVAL_DAY
    else if setting == AUTO_UPDATES_CHECK_INTERVAL_MONTHLY then INTERVAL_DAY * 30
    else INTERVAL_DAY * 7
  }

  // ---------------------------------------------------------------------------
  // Download-directory sweep

  /** The elements of `s` that satisfy `keep`, in order. */
  function Filter(s: seq<string>, keep: string -> bool): seq<string> {
    if s == [] then []
    else Filter(s[..|s| - 1], keep) + (if keep(s[|s| - 1]) then [s[|s| - 1]] else [])
  }

  lemma {:induction false} FilterMembers(s: seq<string>, keep: string -> bool, x: string)
    ensures x in Filter(s, keep) <==> x in s && keep(x)
  {
    if s != [] {
      FilterMembers(s[..|s| - 1], keep, x);
      assert s == s[..|s| - 1] + [s[|s| - 1]];
    }
  }

  /** The preferences the sweep reads. */
  datatype CleanupPrefs = CleanupPrefs(
    prevTimestamp: int,       // build date recorded before the last install
    lastUpdatePath: JString,  // the package installed last
    reinstalling: bool,
    deleteUpdates: bool,      // "delete updates after install"
    cleanupDone: bool)

  /** The files deleted, in order, and the two preference writes. */
  datatype CleanupPlan = CleanupPlan(deleted: seq<string>, removeLastUpdatePref: bool, markCleanupDone: bool)

  /** The installed package is removed after a new build or a reinstall, when auto-delete is on. */
  predicate WantsLastUpdateDeleted(buildTimestamp: int, prefs: CleanupPrefs) {
    (buildTimestamp != prefs.prevTimestamp || prefs.reinstalling) && prefs.deleteUpdates
    && prefs.lastUpdatePath.Some?
  }

  /**
   * The decision of `cleanupDownloadsDir` over the directory listing (absent when the
   * path is not a readable directory): first every uncrypt file, then the installed
   * package if it still exists, then, unless a sweep already ran, every remaining file
   * that no known update owns.
   */
  function CleanupSpec(listing: Option<seq<string>>, uncryptExt: string, buildTimestamp: int,
                       prefs: CleanupPrefs, fileExists: string -> bool, knownPaths: seq<string>): CleanupPlan
  {
    var uncrypt := if listing.None? then [] else Filter(listing.value, f => EndsWith(f, uncryptExt));
    var dropLast := WantsLastUpdateDeleted(buildTimestamp, prefs)
                    && fileExists(prefs.lastUpdatePath.value) && prefs.lastUpdatePath.value !in uncrypt;
    var first := uncrypt + (if dropLast then [prefs.lastUpdatePath.value] else []);
    if prefs.cleanupDone || listing.None? then CleanupPlan(first, dropLast, false)
    else
      var remaining := Filter(listing.value, f => f !in first);
      CleanupPlan(first + Filter(remaining, f => f !in knownPaths), dropLast, true)
  }

  method CleanupDownloadsDir(listing: Option<seq<string>>, uncryptExt: string, buildTimestamp: int,
                             prefs: CleanupPrefs, fileExists: string -> bool, knownPaths: seq<string>)
    returns (plan: CleanupPlan)
    ensures plan == CleanupSpec(listing, uncryptExt, buildTimestamp, prefs, fileExists, knownPaths)
  {
    // removeUncryptFiles
    var deleted: seq<string> := [];
    if listing.Some? {
      var files := listing.value;
      for i := 0 to |files|
        invariant deleted == Filter(files[..i], f => EndsWith(f, uncryptExt))
      {
        assert files[..i + 1][..i] == files[..i];
        if EndsWith(files[i], uncryptExt) {
          deleted := deleted + [files[i]];
        }
      }
      assert files[..|files|] == files;
    }
    var uncrypt := deleted;
    // the package installed last
    var dropLast := false;
    if WantsLastUpdateDeleted(buildTimestamp, prefs) {
      var last := prefs.lastUpdatePath.value;
      if fileExists(last) && last !in uncrypt {
        deleted := deleted + [last];
        dropLast := true;
      }
    }
    if prefs.cleanupDone || listing.None? {
      return CleanupPlan(deleted, dropLast, false);
    }
    // the stray-file sweep over what is left in the directory
    var first := deleted;
    var files := Filter(listing.value, f => f !in first);
    for i := 0 to |files|
      invariant deleted == first + Filter(files[..i], f => f !in knownPaths)
    {
      assert files[..i + 1][..i] == files[..i];
      if files[i] !in knownPaths {
        deleted := deleted + [files[i]];
      }
    }
    assert files[..|files|] == files;
    return CleanupPlan(deleted, dropLast, true);
  }

  /**
   * Within a sweep a file of the directory is deleted exactly when it is an uncrypt file,
   * the installed package being removed, or a file no known update owns.
   */
  lemma SweepDeletesExactly(listing: seq<string>, uncryptExt: string, buildTimestamp: int,
                            prefs: CleanupPrefs, fileExists: string -> bool, knownPaths: seq<string>, f: string)
    requires !prefs.cleanupDone && f in listing
    ensures var plan := CleanupSpec(Some(listing), uncryptExt, buildTimestamp, prefs, fileExists, knownPaths);
      f in plan.deleted <==>
        EndsWith(f, uncryptExt) || (plan.removeLastUpdatePref && f == prefs.lastUpdatePath.value) || f !in knownPaths
  {
    var uncrypt := Filter(listing, g => EndsWith(g, uncryptExt));
    FilterMembers(listing, g => EndsWith(g, uncryptExt), f);
    var plan := CleanupSpec(Some(listing), uncryptExt, buildTimestamp, prefs, fileExists, knownPaths);
    var first := uncrypt + (if plan.removeLastUpdatePref then [prefs.lastUpdatePath.value] else []);
    var remaining := Filter(listing, g => g !in first);
    FilterMembers(listing, g => g !in first, f);
    FilterMembers(remaining, g => g !in knownPaths, f);
  }

  /** Once a sweep has been recorded, only uncrypt files and the installed package are deleted. */
  lemma DoneSkipsSweep(listing: Option<seq<string>>, uncryptExt: string, buildTimestamp: int,
                       prefs: CleanupPrefs, fileExists: string -> bool, knownPaths: seq<string>, f: string)
    requires prefs.cleanupDone
    ensures var plan := CleanupSpec(listing, uncryptExt, buildTimestamp, prefs, fileExists, knownPaths);
      !plan.markCleanupDone &&
      (f in plan.deleted ==> EndsWith(f, uncryptExt) || (plan.removeLastUpdatePref && f == prefs.lastUpdatePath.value))
  {
    if listing.Some? {
      FilterMembers(listing.value, g => EndsWith(g, uncryptExt), f);
    }
  }

  /** The installed package is deleted only under the new-build-or-reinstall, auto-delete rule. */
  lemma LastUpdateDeletedOnlyWhenWanted(listing: Option<seq<string>>, uncryptExt: string, buildTimestamp: int,
                                        prefs: CleanupPrefs, fileExists: string -> bool, knownPaths: seq<string>)
    ensures CleanupSpec(listing, uncryptExt, buildTimestamp, prefs, fileExists, knownPaths).removeLastUpdatePref
      <==> WantsLastUpdateDeleted(buildTimestamp, prefs) && fileExists(prefs.lastUpdatePath.value)
           && !(listing.Some? && prefs.lastUpdatePath.value in listing.value && EndsWith(prefs.lastUpdatePath.value, uncryptExt))
  {
    if listing.Some? && prefs.lastUpdatePath.Some? {
      FilterMembers(listing.value, g => EndsWith(g, uncryptExt), prefs.lastUpdatePath.value);
    }
  }

  // ---------------------------------------------------------------------------
  // Network type

  datatype Transport = Cellular | Wifi | Bluetooth | Ethernet | Vpn | WifiAware | Lowpan

  /** What the connectivity service reports: whether it exists, and the active network's transports. */
  datatype Connectivity = Connectivity(hasManager: bool, capabilities: Option<set<Transport>>)

  /** A network is available when it runs over cellular, Wi-Fi, Bluetooth or Ethernet. */
  function IsNetworkAvailable(c: Connectivity): (r: bool)
    ensures r <==> (c.hasManager && c.capabilities.Some? &&
                    (Cellular in c.capabilities.value || Wifi in c.capabilities.value
                     || Bluetooth in c.capabilities.value || Ethernet in c.capabilities.value))
    ensures c.capabilities.Some? && c.capabilities.value <= {Vpn, WifiAware, Lowpan} ==> !r
  {
    if !c.hasManager then false
    else if c.capabilities.None? then false
    else
      var t := c.capabilities.value;
      Cellular in t || Wifi in t || Bluetooth in t || Ethernet in t
  }

  /**
   * `isOnWifiOrEthernet` as written: it returns false as soon as a network is available,
   * so it can only go on to test Wi-Fi and Ethernet when neither is present.
   */
  function IsOnWifiOrEthernetAsWritten(c: Connectivity): (r: bool)
    ensures !r
  {
    if IsNetworkAvailable(c) then false
    else if !c.hasManager then false
    else if c.capabilities.None? then false
    else Wifi in c.capabilities.value || Ethernet in c.capabilities.value
  }

  lemma WifiNotRecognised()
    ensures !IsOnWifiOrEthernetAsWritten(Connectivity(true, Some({Wifi})))
    ensures IsOnWifiOrEthernet(Connectivity(true, Some({Wifi})))
  {
  }

  /** `isOnWifiOrEthernet` as intended: the active network runs over Wi-Fi or Ethernet. */
  function IsOnWifiOrEthernet(c: Connectivity): (r: bool)
    ensures r <==> c.hasManager && c.capabilities.Some? && (Wifi in c.capabilities.value || Ethernet in c.capabilities.value)
    ensures r ==> IsNetworkAvailable(c)
  {
    if !IsNetworkAvailable(c) then false
    else Wifi in c.capabilities.value || Ethernet in c.capabilities.value
  }
}
