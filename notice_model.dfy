/**
 * A notice from the notice feed: its title and text arrive base64-encoded and are
 * kept both encoded and decoded.
 */
module NoticeModel {
  import opened JavaLang

  /** The six fields of a notice (the `NoticeInfo` interface). */
  datatype NoticeInfo = NoticeInfo(
    base64Title: JString,
    base64Texts: JString,
    title: JString,
    texts: JString,
    imageUrl: JString,
    id: JString)

  /** The base64 decoder, taken as a given total function from encoded to plain text. */
  type Decoder = string -> string

  /**
   * The notice `init` rebuilds from `n`: the same encoded fields, id and image, and the
   * decodings of the encoded fields as title and text. A null encoded field makes it throw.
   */
  function Decoded(n: NoticeInfo, decode: Decoder): (r: Result<NoticeInfo>)
    ensures r.Err? <==> n.base64Title.None? || n.base64Texts.None?
    ensures r.Ok? ==> r.value == n.(title := Some(decode(n.base64Title.value)),
                                    texts := Some(decode(n.base64Texts.value)))
  {
    match (n.base64Title, n.base64Texts)
    case (Some(t), Some(x)) => Ok(n.(title := Some(decode(t)), texts := Some(decode(x))))
    case _ => Err(NullPointer)
  }

  /**
   * Decoding is idempotent: a copy of a copy equals the first copy, so storing
   * `new Notice(new Notice(info))` is the same as storing one copy.
   */
  lemma DecodedIdempotent(n: NoticeInfo, decode: Decoder)
    requires Decoded(n, decode).Ok?
    ensures Decoded(Decoded(n, decode).value, decode) == Decoded(n, decode)
  {
  }

  /** A copy never depends on the title and text it is given, only on the encoded fields. */
  lemma DecodedIgnoresPlainText(n: NoticeInfo, m: NoticeInfo, decode: Decoder)
    requires n.(title := None, texts := None) == m.(title := None, texts := None)
    ensures Decoded(n, decode) == Decoded(m, decode)
  {
  }

  class Notice {
    var base64Title: JString
    var base64Texts: JString
    var title: JString
    var texts: JString
    var imageUrl: JString
    var id: JString

    /** The notice's current fields; each getter of the source returns one of them. */
    function Info(): NoticeInfo
      reads this
    {
      NoticeInfo(base64Title, base64Texts, title, texts, imageUrl, id)
    }

    constructor ()
      ensures Info() == NoticeInfo(None, None, None, None, None, None)
    {
      base64Title, base64Texts, title, texts, imageUrl, id := None, None, None, None, None, None;
    }

    /** Stores the four given fields, then decodes title and text. */
    constructor WithFields(b64Title: string, b64Texts: string, noticeId: JString, image: JString,
                           decode: Decoder)
      ensures Info() == NoticeInfo(Some(b64Title), Some(b64Texts), Some(decode(b64Title)),
                                   Some(decode(b64Texts)), image, noticeId)
    {
      base64Title := Some(b64Title);
      base64Texts := Some(b64Texts);
      id := noticeId;
      imageUrl := image;
      title := Some(decode(b64Title));
      texts := Some(decode(b64Texts));
    }

    /** Copies the encoded fields, id and image of `n`, and decodes instead of copying. */
    constructor Copy(n: NoticeInfo, decode: Decoder)
      requires Decoded(n, decode).Ok?
      ensures Info() == Decoded(n, decode).value
    {
      base64Title := n.base64Title;
      base64Texts := n.base64Texts;
      id := n.id;
      imageUrl := n.imageUrl;
      title := Some(decode(n.base64Title.value));
      texts := Some(decode(n.base64Texts.value));
    }

    /**
     * Overwrites title and text with the decodings of the encoded fields. A null encoded
     * title throws before anything changes; a null encoded text throws after the title
     * has been rewritten.
     */
    method Init(decode: Decoder) returns (r: Result<()>)
      modifies this
      ensures old(base64Title).None? ==> r == Err(NullPointer) && Info() == old(Info())
      ensures old(base64Title).Some? && old(base64Texts).None? ==>
        r == Err(NullPointer) && Info() == old(Info()).(title := Some(decode(old(base64Title).value)))
      ensures r.Ok? <==> Decoded(old(Info()), decode).Ok?
      ensures r.Ok? ==> Info() == Decoded(old(Info()), decode).value
    {
      if base64Title.None? {
        return Err(NullPointer);
      }
      title := Some(decode(base64Title.value));
      if base64Texts.None? {
        return Err(NullPointer);
      }
      texts := Some(decode(base64Texts.value));
      return Ok(());
    }

    /** Only the encoded field changes; the decoded title is not recomputed. */
    method SetBase64Title(v: JString)
      modifies this
      ensures Info() == old(Info()).(base64Title := v)
    {
      base64Title := v;
    }

    method SetBase64Texts(v: JString)
      modifies this
      ensures Info() == old(Info()).(base64Texts := v)
    {
      base64Texts := v;
    }

    method SetTitle(v: JString)
      modifies this
      ensures Info() == old(Info()).(title := v)
    {
      title := v;
    }

    method SetTexts(v: JString)
      modifies this
      ensures Info() == old(Info()).(texts := v)
    {
      texts := v;
    }

    method SetId(v: JString)
      modifies this
      ensures Info() == old(Info()).(id := v)
    {
      id := v;
    }

    method SetImageUrl(v: JString)
      modifies this
      ensures Info() == old(Info()).(imageUrl := v)
    {
      imageUrl := v;
    }
  }
}
