/**
 * The adapter behind the list of notices: it holds the ids to show and binds each row
 * to the stored notice's decoded title and text.
 */
module NoticesList {
  import opened JavaLang
  import opened NoticeModel

  class NoticesListAdapter {
    /** The notice ids shown, in order; absent until the first `setData`. */
    var ids: Option<seq<JString>>

    constructor ()
      ensures ids.None?
    {
      ids := None;
    }

    method SetData(newIds: seq<JString>)
      modifies this
      ensures ids == Some(newIds)
    {
      ids := Some(newIds);
    }

    function GetItemCount(): (n: int)
      reads this
      ensures ids.None? ==> n == 0
      ensures ids.Some? ==> n == |ids.value|
    {
      if ids.None? then 0 else |ids.value|
    }

    /**
     * `onBindViewHolder`: the row's title and text are the stored notice's decoded ones.
     * Without an id list, at a missing position, or for an id the controller does not
     * know, the source throws.
     */
    function Bind(i: int, getNotice: JString -> Option<NoticeInfo>): (r: Result<(JString, JString)>)
      reads this
      ensures ids.None? ==> r == Err(NullPointer)
      ensures ids.Some? && !(0 <= i < |ids.value|) ==> r == Err(IndexOutOfBounds)
      ensures r.Ok? <==> ids.Some? && 0 <= i < |ids.value| && getNotice(ids.value[i]).Some?
      ensures r.Ok? ==> r.value == (getNotice(ids.value[i]).value.title, getNotice(ids.value[i]).value.texts)
    {
      if ids.None? then Err(NullPointer)
      else if !(0 <= i < |ids.value|) then Err(IndexOutOfBounds)
      else
        match getNotice(ids.value[i])
        case None => Err(NullPointer)
        case Some(notice) => Ok((notice.title, notice.texts))
    }

    /** The position `notifyItemChanged(id)` refreshes: none without an id list, else the first index (-1 if absent). */
    function ChangedPosition(id: JString): (p: Option<int>)
      reads this
      ensures p.None? <==> ids.None?
      ensures p.Some? ==> (p.value == -1 <==> id !in ids.value)
      ensures p.Some? && p.value >= 0 ==>
        p.value < |ids.value| && ids.value[p.value] == id
        && forall k :: 0 <= k < p.value ==> ids.value[k] != id
    {
      if ids.None? then None else Some(IndexOf(ids.value, id))
    }

    /** `removeItem`: the first occurrence of the id goes, and the position it had is reported. */
    method RemoveItem(id: JString) returns (removedAt: Option<int>)
      modifies this
      ensures old(ids).None? ==> ids == old(ids) && removedAt.None?
      ensures old(ids).Some? ==>
        && removedAt == Some(IndexOf(old(ids).value, id))
        && ids == Some(RemoveFirst(old(ids).value, id))
    {
      if ids.None? {
        return None;
      }
      var position := IndexOf(ids.value, id);
      ids := Some(RemoveFirst(ids.value, id));
      return Some(position);
    }
  }
}
