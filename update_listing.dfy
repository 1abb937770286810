/**
 * How the update screens turn a freshly downloaded feed into the list they show: the
 * feed is handed to the controller, the controller's updates are sorted oldest first,
 * every update newer than the running build gets a changelog that also carries the
 * changelogs of the older newer updates, and the list is re-sorted newest first.
 */
module UpdateListing {
  import opened JavaLang
  import opened UpdateModel
  import Utils

  function Timestamp(u: UpdateInfo): int {
    u.base.timestamp
  }

  // ---------------------------------------------------------------------------
  // Sorting (the library's stable `List.sort`)

  /** `x` goes in front of `y`: strictly earlier in the chosen order, so ties keep their order. */
  predicate Precedes(x: UpdateInfo, y: UpdateInfo, descending: bool) {
    if descending then Timestamp(x) > Timestamp(y) else Timestamp(x) < Timestamp(y)
  }

  /** Ordered by timestamp, oldest first or newest first: no element precedes an earlier one. */
  predicate Ordered(s: seq<UpdateInfo>, descending: bool) {
    forall i, j :: 0 <= i < j < |s| ==> !Precedes(s[j], s[i], descending)
  }

  /** Inserts `x` behind every element it does not precede. */
  function Insert(sorted: seq<UpdateInfo>, x: UpdateInfo, descending: bool): (r: seq<UpdateInfo>)
    ensures multiset(r) == multiset(sorted) + multiset{x}
    ensures |r| == |sorted| + 1
  {
    if sorted == [] then [x]
    else
      var last := sorted[|sorted| - 1];
      var init := sorted[..|sorted| - 1];
      assert sorted == init + [last];
      if Precedes(x, last, descending) then Insert(init, x, descending) + [last]
      else sorted + [x]
  }

  lemma {:induction false} InsertOrdered(sorted: seq<UpdateInfo>, x: UpdateInfo, descending: bool)
    requires Ordered(sorted, descending)
    ensures Ordered(Insert(sorted, x, descending), descending)
  {
    if sorted != [] {
      var last := sorted[|sorted| - 1];
      var init := sorted[..|sorted| - 1];
      assert sorted == init + [last];
      if Precedes(x, last, descending) {
        InsertOrdered(init, x, descending);
        var ins := Insert(init, x, descending);
        forall i | 0 <= i < |ins|
          ensures !Precedes(last, ins[i], descending)
        {
          assert ins[i] in multiset(ins);
          if ins[i] != x {
            assert ins[i] in multiset(init);
            var k :| 0 <= k < |init| && init[k] == ins[i];
            assert init[k] == sorted[k];
          }
        }
        assert Insert(sorted, x, descending) == ins + [last];
      } else {
        assert Insert(sorted, x, descending) == sorted + [x];
        forall i | 0 <= i < |sorted|
          ensures !Precedes(x, sorted[i], descending)
        {
          if i < |sorted| - 1 {
            assert !Precedes(last, sorted[i], descending);
          }
        }
      }
    }
  }

  /** The stable insertion sort standing in for `List.sort` with a timestamp comparator. */
  function SortByTimestamp(s: seq<UpdateInfo>, descending: bool): (r: seq<UpdateInfo>)
    ensures multiset(r) == multiset(s)
    ensures |r| == |s|
  {
    if s == [] then []
    else
      assert s == s[..|s| - 1] + [s[|s| - 1]];
      Insert(SortByTimestamp(s[..|s| - 1], descending), s[|s| - 1], descending)
  }

  /** The sort orders the list and only permutes it. */
  lemma {:induction false} SortOrdered(s: seq<UpdateInfo>, descending: bool)
    ensures Ordered(SortByTimestamp(s, descending), descending)
    ensures multiset(SortByTimestamp(s, descending)) == multiset(s)
  {
    if s != [] {
      SortOrdered(s[..|s| - 1], descending);
      InsertOrdered(SortByTimestamp(s[..|s| - 1], descending), s[|s| - 1], descending);
    }
  }

  // ---------------------------------------------------------------------------
  // Changelog merge

  /**
   * One step of the merge: the update's own changelog (a null one prints as "null"),
   * then a newline unless nothing has been accumulated, then the accumulated text.
   */
  function Step(own: JString, acc: string): (r: string)
    ensures acc == "" ==> r == ConcatText(own)
    ensures acc != "" ==> r == ConcatText(own) + "\n" + acc
  {
    ConcatText(own) + (if acc == "" then "" else "\n") + acc
  }

  /** The accumulated changelog after walking `s` in order. */
  function Acc(s: seq<UpdateInfo>, buildDate: int): string {
    if s == [] then ""
    else
      var last := s[|s| - 1];
      var before := Acc(s[..|s| - 1], buildDate);
      if Timestamp(last) > buildDate then Step(last.base.changeLog, before) else before
  }

  /** What the merge makes of one element given the text accumulated before it. */
  function MergeOne(u: UpdateInfo, buildDate: int, acc: string): UpdateInfo {
    if Timestamp(u) > buildDate then u.(base := u.base.(changeLog := Some(Step(u.base.changeLog, acc))))
    else u
  }

  /** The list after the merge loop. */
  function Merged(s: seq<UpdateInfo>, buildDate: int): (r: seq<UpdateInfo>)
    ensures |r| == |s|
  {
    seq(|s|, i requires 0 <= i < |s| => MergeOne(s[i], buildDate, Acc(s[..i], buildDate)))
  }

  /**
   * The merge keeps the length and the order of the list: each element differs from
   * the original at most in its changelog, and updates at or below the build date are
   * untouched. A newer update's changelog is its own text followed by the text
   * accumulated over every earlier element of the list.
   */
  lemma MergedShape(s: seq<UpdateInfo>, buildDate: int, i: int)
    requires 0 <= i < |s|
    ensures Merged(s, buildDate)[i].(base := Merged(s, buildDate)[i].base.(changeLog := s[i].base.changeLog)) == s[i]
    ensures Timestamp(s[i]) <= buildDate ==> Merged(s, buildDate)[i] == s[i]
    ensures Timestamp(s[i]) > buildDate ==> Merged(s, buildDate)[i].base.changeLog == Some(Acc(s[..i + 1], buildDate))
  {
    assert s[..i + 1][..i] == s[..i];
  }

  /** Elements at or below the build date add nothing to the accumulated text. */
  lemma {:induction false} AccSkipsOlder(s: seq<UpdateInfo>, buildDate: int, j: int, i: int)
    requires 0 <= j <= i <= |s|
    requires forall k :: j <= k < i ==> Timestamp(s[k]) <= buildDate
    ensures Acc(s[..i], buildDate) == Acc(s[..j], buildDate)
  {
    if i > j {
      assert s[..i][..i - 1] == s[..i - 1];
      AccSkipsOlder(s, buildDate, j, i - 1);
    }
  }

  /** No element newer than the build date yet: nothing is accumulated. */
  lemma AccEmptyBeforeFirstNewer(s: seq<UpdateInfo>, buildDate: int, i: int)
    requires 0 <= i <= |s|
    requires forall k :: 0 <= k < i ==> Timestamp(s[k]) <= buildDate
    ensures Acc(s[..i], buildDate) == ""
  {
    AccSkipsOlder(s, buildDate, 0, i);
  }

  /**
   * The accumulator is the previous newer update's merged changelog: for newer updates
   * at `j < i` with no newer update between them, the one at `i` reads its own text,
   * a newline (when the earlier text is not empty) and the merged text of the one at `j`.
   */
  lemma MergeChain(s: seq<UpdateInfo>, buildDate: int, j: int, i: int)
    requires 0 <= j < i < |s|
    requires Timestamp(s[j]) > buildDate && Timestamp(s[i]) > buildDate
    requires forall k :: j < k < i ==> Timestamp(s[k]) <= buildDate
    ensures Merged(s, buildDate)[i].base.changeLog ==
      Some(Step(s[i].base.changeLog, Merged(s, buildDate)[j].base.changeLog.value))
  {
    MergedShape(s, buildDate, j);
    MergedShape(s, buildDate, i);
    AccSkipsOlder(s, buildDate, j + 1, i);
    assert s[..i + 1][..i] == s[..i];
  }

  /** The first newer update keeps its own changelog (with null printed as "null"). */
  lemma MergeFirstNewer(s: seq<UpdateInfo>, buildDate: int, i: int)
    requires 0 <= i < |s| && Timestamp(s[i]) > buildDate
    requires forall k :: 0 <= k < i ==> Timestamp(s[k]) <= buildDate
    ensures Merged(s, buildDate)[i].base.changeLog == Some(ConcatText(s[i].base.changeLog))
  {
    MergedShape(s, buildDate, i);
    AccEmptyBeforeFirstNewer(s, buildDate, i);
    assert s[..i + 1][..i] == s[..i];
  }

  /**
   * The changelog loop over the ascending list. `setChangeLog` rewrites the element in
   * place, and the iterator's `remove` followed by `add` puts the same element back at
   * the same position.
   */
  method MergeChangelogs(a: array<UpdateInfo>, buildDate: int)
    modifies a
    ensures a[..] == Merged(old(a[..]), buildDate)
  {
    ghost var s := a[..];
    var changelog := "";
    var i := 0;
    while i < a.Length
      invariant 0 <= i <= a.Length
      invariant changelog == Acc(s[..i], buildDate)
      invariant forall k :: 0 <= k < i ==> a[k] == Merged(s, buildDate)[k]
      invariant forall k :: i <= k < a.Length ==> a[k] == s[k]
    {
      AccNext(s, buildDate, i);
      var u := a[i];
      if u.base.timestamp > buildDate {
        changelog := Step(u.base.changeLog, changelog);
        a[i] := u.(base := u.base.(changeLog := Some(changelog)));
      }
      i := i + 1;
    }
  }

  /** One element further along, the accumulator takes in that element, and the merge rewrites it with the text before it. */
  lemma AccNext(s: seq<UpdateInfo>, buildDate: int, i: int)
    requires 0 <= i < |s|
    ensures Acc(s[..i + 1], buildDate) ==
      if Timestamp(s[i]) > buildDate then Step(s[i].base.changeLog, Acc(s[..i], buildDate)) else Acc(s[..i], buildDate)
    ensures Merged(s, buildDate)[i] == MergeOne(s[i], buildDate, Acc(s[..i], buildDate))
  {
    assert s[..i + 1][..i] == s[..i];
  }

  /** The download id of each update in list order: one per element. */
  method CollectIds(updates: seq<UpdateInfo>) returns (ids: seq<JString>)
    ensures |ids| == |updates|
    ensures forall i :: 0 <= i < |updates| ==> ids[i] == updates[i].base.downloadId
  {
    ids := [];
    for i := 0 to |updates|
      invariant |ids| == i
      invariant forall k :: 0 <= k < i ==> ids[k] == updates[k].base.downloadId
    {
      ids := ids + [updates[i].base.downloadId];
    }
  }

  /** The ascending sort, the merge and the descending sort, as the screens do them. */
  function PreparedList(updates: seq<UpdateInfo>, buildDate: int): seq<UpdateInfo> {
    SortByTimestamp(Merged(SortByTimestamp(updates, false), buildDate), true)
  }

  /**
   * Sorts the controller's list, merges the changelogs and sorts again, then collects
   * the ids in the final order.
   */
  method PrepareList(updates: seq<UpdateInfo>, buildDate: int) returns (sorted: seq<UpdateInfo>, ids: seq<JString>)
    ensures sorted == PreparedList(updates, buildDate)
    ensures |ids| == |sorted| && forall i :: 0 <= i < |sorted| ==> ids[i] == sorted[i].base.downloadId
  {
    var ascending := SortByTimestamp(updates, false);
    var a := new UpdateInfo[|ascending|](i requires 0 <= i < |ascending| => ascending[i]);
    assert a[..] == ascending;
    MergeChangelogs(a, buildDate);
    sorted := SortByTimestamp(a[..], true);
    ids := CollectIds(sorted);
  }

  /**
   * The prepared list is ordered newest first and holds as many updates as the
   * controller's list; its ids are one per update in that order.
   */
  lemma PreparedListOrdered(updates: seq<UpdateInfo>, buildDate: int)
    ensures Ordered(PreparedList(updates, buildDate), true)
    ensures |PreparedList(updates, buildDate)| == |updates|
    ensures multiset(PreparedList(updates, buildDate)) == multiset(Merged(SortByTimestamp(updates, false), buildDate))
  {
    SortOrdered(Merged(SortByTimestamp(updates, false), buildDate), true);
  }

  /**
   * Merging is not idempotent: merging an already merged list appends the older
   * changelogs a second time.
   */
  lemma MergeTwiceRepeats(a: UpdateInfo, b: UpdateInfo)
    requires a.base.timestamp == 1 && a.base.changeLog == Some("a")
    requires b.base.timestamp == 2 && b.base.changeLog == Some("b")
    ensures Merged([a, b], 0)[1].base.changeLog == Some("b\na")
    ensures Merged(Merged([a, b], 0), 0)[1].base.changeLog == Some("b\na\na")
  {
    var s := [a, b];
    MergeFirstNewer(s, 0, 0);
    MergeChain(s, 0, 0, 1);
    assert Step(Some("b"), "a") == "b\na";
    var m := Merged(s, 0);
    MergedShape(s, 0, 0);
    MergedShape(s, 0, 1);
    MergeFirstNewer(m, 0, 0);
    MergeChain(m, 0, 0, 1);
    assert Step(Some("b\na"), "a") == "b\na\na";
  }

  // ---------------------------------------------------------------------------
  // Feed intake

  datatype Snackbar = UpdatesFound | NoUpdatesFound

  /** What handing the feed to the controller yields. */
  datatype Intake = Intake(onlineIds: seq<JString>, anyAdded: bool, snackbar: Option<Snackbar>)

  /** Some update of the list was new to the controller. */
  predicate AnyAdded(updates: seq<UpdateBaseInfo>, addUpdate: UpdateBaseInfo -> bool) {
    exists i :: 0 <= i < |updates| && addUpdate(updates[i])
  }

  /**
   * The first half of `loadUpdatesList`: every parsed update is offered to the
   * controller (`addUpdate` answers whether it was new), its id is recorded as available
   * online, and on a manual refresh the snackbar says whether anything was new.
   */
  method IntakeFeed(feed: seq<Utils.FeedEntry>, manualRefresh: bool, addUpdate: UpdateBaseInfo -> bool)
    returns (r: Intake)
    ensures r.onlineIds == Utils.UpdateIds(Utils.ParsedUpdates(feed))
    ensures r.anyAdded == AnyAdded(Utils.ParsedUpdates(feed), addUpdate)
    ensures r.snackbar == if manualRefresh then Some(if r.anyAdded then UpdatesFound else NoUpdatesFound) else None
  {
    var updates := Utils.ParseUpdateList(feed, true);
    var newUpdates := false;
    var online: seq<JString> := [];
    for i := 0 to |updates|
      invariant newUpdates == AnyAdded(updates[..i], addUpdate)
      invariant online == Utils.UpdateIds(updates[..i])
    {
      assert updates[..i + 1][..i] == updates[..i];
      var added := addUpdate(updates[i]);  // `|=` evaluates the call even once true
      newUpdates := newUpdates || added;
      online := online + [updates[i].downloadId];
    }
    assert updates[..|updates|] == updates;
    var snackbar := if manualRefresh then Some(if newUpdates then UpdatesFound else NoUpdatesFound) else None;
    return Intake(online, newUpdates, snackbar);
  }
}
