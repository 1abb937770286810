/**
 * The notice controller: an insert-or-update map from notice id to the stored notice.
 */
module NoticeStore {
  import opened JavaLang
  import opened NoticeModel

  type NoticeMap = map<JString, NoticeInfo>

  /** Every stored notice sits under its own id. */
  ghost predicate KeyedById(m: NoticeMap) {
    forall k :: k in m ==> m[k].id == k
  }

  /** What adding `info` does to the map `m`: the result and the new map. */
  datatype AddOutcome = AddOutcome(result: Result<bool>, notices: NoticeMap)

  /**
   * A known id only has its stored image URL replaced and yields false; an unknown id
   * stores a decoded copy and yields true, unless the copy throws on a null encoded field.
   */
  function AddNoticeSpec(m: NoticeMap, info: NoticeInfo, decode: Decoder): AddOutcome {
    if info.id in m then
      AddOutcome(Ok(false), m[info.id := m[info.id].(imageUrl := info.imageUrl)])
    else
      match Decoded(info, decode)
      case Ok(copy) => AddOutcome(Ok(true), m[info.id := copy])
      case Err(e) => AddOutcome(Err(e), m)
  }

  /** `addNotice` answers true exactly when the id was not stored before. */
  lemma AddNoticeTrueIffNew(m: NoticeMap, info: NoticeInfo, decode: Decoder)
    requires Decoded(info, decode).Ok?
    ensures AddNoticeSpec(m, info, decode).result == Ok(info.id !in m)
  {
  }

  /** Re-adding a stored id changes only that notice's image URL; the size stays the same. */
  lemma ReAddOnlyChangesImage(m: NoticeMap, info: NoticeInfo, decode: Decoder)
    requires info.id in m
    ensures var m' := AddNoticeSpec(m, info, decode).notices;
      m'.Keys == m.Keys && |m'| == |m| &&
      m'[info.id] == m[info.id].(imageUrl := info.imageUrl) &&
      m'[info.id].title == m[info.id].title && m'[info.id].texts == m[info.id].texts
  {
    var m' := AddNoticeSpec(m, info, decode).notices;
    assert m'.Keys == m.Keys;
  }

  /** After a successful add the id can be looked up, and it holds the decoded notice if new. */
  lemma AddThenGet(m: NoticeMap, info: NoticeInfo, decode: Decoder)
    requires AddNoticeSpec(m, info, decode).result.Ok?
    ensures info.id in AddNoticeSpec(m, info, decode).notices
    ensures info.id !in m ==> AddNoticeSpec(m, info, decode).notices[info.id] == Decoded(info, decode).value
  {
  }

  /** Adding a notice never alters the entries stored under other ids. */
  lemma AddKeepsOthers(m: NoticeMap, info: NoticeInfo, decode: Decoder, k: JString)
    requires k in m && k != info.id
    ensures k in AddNoticeSpec(m, info, decode).notices
    ensures AddNoticeSpec(m, info, decode).notices[k] == m[k]
  {
  }

  /** Adding keeps every notice under its own id. */
  lemma AddKeepsKeyedById(m: NoticeMap, info: NoticeInfo, decode: Decoder)
    requires KeyedById(m)
    ensures KeyedById(AddNoticeSpec(m, info, decode).notices)
  {
  }

  class NoticeController {
    var notices: NoticeMap

    ghost predicate Valid()
      reads this
    {
      KeyedById(notices)
    }

    constructor ()
      ensures Valid() && notices == map[]
    {
      notices := map[];
    }

    method AddNotice(info: NoticeInfo, decode: Decoder) returns (r: Result<bool>)
      requires Valid()
      modifies this
      ensures Valid()
      ensures AddOutcome(r, notices) == AddNoticeSpec(old(notices), info, decode)
    {
      if info.id in notices {
        var added := notices[info.id];
        notices := notices[info.id := added.(imageUrl := info.imageUrl)];
        return Ok(false);
      }
      var copy := Decoded(info, decode);
      if copy.Err? {
        return Err(copy.error);
      }
      // the second copy `new Notice(notice)` decodes the same encoded fields again
      DecodedIdempotent(info, decode);
      notices := notices[copy.value.id := Decoded(copy.value, decode).value];
      return Ok(true);
    }

    /** The map lookup: null for an id that was never added. */
    function GetNotice(id: JString): (r: Option<NoticeInfo>)
      reads this
      ensures r.None? <==> id !in notices
      ensures r.Some? ==> r.value == notices[id]
    {
      if id in notices then Some(notices[id]) else None
    }

    /**
     * The values of the map, in the map's (unspecified) iteration order: one entry per
     * stored id and nothing else.
     */
    method GetNotices() returns (list: seq<NoticeInfo>)
      requires Valid()
      ensures |list| == |notices|
      ensures forall i :: 0 <= i < |list| ==> list[i].id in notices && notices[list[i].id] == list[i]
      ensures forall i, j :: 0 <= i < j < |list| ==> list[i].id != list[j].id
      ensures forall k :: k in notices ==> notices[k] in list
    {
      list := [];
      var remaining := notices.Keys;
      while remaining != {}
        invariant remaining <= notices.Keys
        invariant |list| + |remaining| == |notices|
        invariant forall i :: 0 <= i < |list| ==> list[i].id in notices.Keys - remaining && notices[list[i].id] == list[i]
        invariant forall i, j :: 0 <= i < j < |list| ==> list[i].id != list[j].id
        invariant forall k :: k in notices.Keys - remaining ==> notices[k] in list
        decreases |remaining|
      {
        var k :| k in remaining;
        list := list + [notices[k]];
        remaining := remaining - {k};
      }
    }
  }
}
