/**
 * The screen listing every update: it fills the updates adapter from the controller's
 * list, and sizes each card's image to the card's height.
 */
module UpdatesScreen {
  import opened JavaLang
  import opened UpdateModel
  import opened UpdateListing
  import Utils
  import UpdatesList

  /** Which of the two containers is visible. */
  datatype ListView = NoNewUpdatesView | UpdateContainerView

  /**
   * `loadUpdatesList` of the updates screen: the feed goes through the controller; an
   * empty controller list shows the "no new updates" view and leaves the adapter alone,
   * otherwise the prepared list's ids, newest first, become the adapter's data.
   */
  method LoadUpdatesList(feed: seq<Utils.FeedEntry>, manualRefresh: bool, addUpdate: UpdateBaseInfo -> bool,
                         controllerUpdates: seq<UpdateInfo>, buildDate: int, adapter: UpdatesList.UpdatesListAdapter)
    returns (intake: Intake, view: ListView)
    modifies adapter
    ensures intake.onlineIds == Utils.UpdateIds(Utils.ParsedUpdates(feed))
    ensures intake.anyAdded == AnyAdded(Utils.ParsedUpdates(feed), addUpdate)
    ensures intake.snackbar ==
      if manualRefresh then Some(if intake.anyAdded then UpdatesFound else NoUpdatesFound) else None
    ensures controllerUpdates == [] ==> view == NoNewUpdatesView && adapter.downloadIds == old(adapter.downloadIds)
    ensures controllerUpdates != [] ==>
      && view == UpdateContainerView
      && adapter.downloadIds.Some?
      && var p := PreparedList(controllerUpdates, buildDate);
         |adapter.downloadIds.value| == |p|
         && forall i :: 0 <= i < |p| ==> adapter.downloadIds.value[i] == p[i].base.downloadId
  {
    intake := IntakeFeed(feed, manualRefresh, addUpdate);
    if controllerUpdates == [] {
      view := NoNewUpdatesView;
    } else {
      view := UpdateContainerView;
      var sorted, ids := PrepareList(controllerUpdates, buildDate);
      adapter.SetData(ids);
    }
  }

  /**
   * The width an update or notice card gives its image: none while the image height is
   * unknown (zero), otherwise the card height scaled by the image's aspect ratio, in
   * 32-bit `int` arithmetic (the product wraps, the quotient truncates).
   */
  function ScaledImageWidth(cardHeight: int, imageWidth: int, imageHeight: int): (w: int)
    requires IsInt32(cardHeight) && IsInt32(imageWidth) && IsInt32(imageHeight)
    ensures imageHeight == 0 ==> w == 0
    ensures IsInt32(w)
    ensures imageHeight > 0 && 0 <= cardHeight * imageWidth <= INT_MAX ==>
      w * imageHeight <= cardHeight * imageWidth < (w + 1) * imageHeight
  {
    if imageHeight == 0 then 0
    else
      var product := cardHeight * imageWidth;
      if imageHeight > 0 && 0 <= product <= INT_MAX then
        FloorQuotient(product, imageHeight);
        Wrap32(JavaDiv(Wrap32(product), imageHeight))
      else Wrap32(JavaDiv(Wrap32(product), imageHeight))
  }

  /** The floor quotient of a non-negative number by a positive one lies between 0 and the number, and brackets it. */
  lemma FloorQuotient(p: int, d: int)
    requires 0 <= p && d > 0
    ensures 0 <= p / d <= p
    ensures (p / d) * d <= p < (p / d + 1) * d
  {
    QuotientParts(p / d, p % d, d, p);
  }

  /** The same facts for any quotient and remainder that decompose `p`. */
  lemma QuotientParts(q: int, r: int, d: int, p: int)
    requires q * d + r == p && 0 <= r < d && 0 <= p
    ensures 0 <= q <= p
    ensures q * d <= p < (q + 1) * d
  {
    assert (q + 1) * d == q * d + d;
    if q < 0 {
      ProductSign(-q, d);
    } else if q > 0 {
      ProductSign(q, d);
      assert q * d == q * (d - 1) + q;
      assert q * (d - 1) >= 0;
    }
  }

  /** A square image is given the card's height as its width, while that product fits in an `int`. */
  lemma ScaledImageWidthSquare(cardHeight: int, imageHeight: int)
    requires 0 <= cardHeight <= INT_MAX && 0 < imageHeight <= INT_MAX
    requires cardHeight * imageHeight <= INT_MAX
    ensures ScaledImageWidth(cardHeight, imageHeight, imageHeight) == cardHeight
  {
    var w := ScaledImageWidth(cardHeight, imageHeight, imageHeight);
    assert w * imageHeight <= cardHeight * imageHeight < (w + 1) * imageHeight;
    assert (w - cardHeight) * imageHeight <= 0;
    assert (cardHeight - w) * imageHeight < imageHeight;
    ProductSign(w - cardHeight, imageHeight);
    ProductSign(cardHeight - w, imageHeight);
  }

  /** A positive factor keeps the sign of the other and scales it by at least itself. */
  lemma ProductSign(a: int, k: int)
    requires k > 0
    ensures a > 0 ==> a * k >= k
    ensures a * k <= 0 ==> a <= 0
  {
    if a > 0 {
      assert a * k == (a - 1) * k + k;
      assert (a - 1) * k >= 0;
    }
  }

  /** The product wraps: a 65536 by 65536 image on a 65536-high card is given no width. */
  lemma ScaledImageWidthWraps()
    ensures ScaledImageWidth(65536, 65536, 65536) == 0
  {
    assert 65536 * 65536 == 0x1_0000_0000;
  }
}
