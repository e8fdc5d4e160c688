/**
 * Where the glowing avatar goes on the card. The illustration band runs from
 * 15% to 62% of the card height; the avatar is shrunk to fit inside 60% of the
 * card width by the height of that band, then centred horizontally on the
 * card and vertically within the band, never left of the card edge nor above
 * the band.
 *
 * All of it is integer arithmetic over `Math.round` and `Math.max`.
 */
module Placement {
  import opened Raster

  /** The illustration band and the box the avatar is resized into. */
  datatype Band = Band(illustrationBottom: nat, minTop: nat, maxAvatarWidth: nat, maxAvatarHeight: int)

  /** Where the avatar's top-left corner goes, and the size it is placed at. */
  datatype Spot = Spot(left: int, top: int, width: int, height: int)

  /** The band for a card of the given size. */
  function CardBand(cardWidth: nat, cardHeight: nat): (b: Band)
    ensures b.minTop <= b.illustrationBottom <= cardHeight
    ensures b.maxAvatarWidth <= cardWidth
    ensures b.maxAvatarHeight == b.illustrationBottom - b.minTop >= 0
  {
    RoundPercentMonotone(cardHeight, 15, 62);
    var illustrationBottom := RoundPercent(cardHeight, 62);
    var minTop := RoundPercent(cardHeight, 15);
    var maxAvatarWidth := RoundPercent(cardWidth, 60);
    Band(illustrationBottom, minTop, maxAvatarWidth, illustrationBottom - minTop)
  }

  /** `Math.round(n / 2)`: the nearest integer to n/2, halves rounded up (also for negative n). */
  function RoundHalf(n: int): (r: int)
    ensures 2 * r - 1 <= n <= 2 * r
  {
    (n + 1) / 2
  }

  /** `Math.max(0, Math.round((cardWidth - avatarWidth) / 2))`. */
  function AvatarLeft(cardWidth: int, avatarWidth: int): (left: int)
    ensures left >= 0
  {
    var centred := RoundHalf(cardWidth - avatarWidth);
    if centred > 0 then centred else 0
  }

  /** `Math.max(minTop, Math.round(minTop + freeVerticalSpace / 2))`. */
  function AvatarTop(band: Band, avatarHeight: int): (top: int)
    ensures top >= band.minTop
  {
    var freeVerticalSpace := band.illustrationBottom - band.minTop - avatarHeight;
    var centred := band.minTop + RoundHalf(freeVerticalSpace);
    if centred > band.minTop then centred else band.minTop
  }

  /**
   * The placement for a card of the given size and an avatar whose resized
   * size the image metadata reports as `measuredWidth` by `measuredHeight`
   * (0 when missing, in which case the resize box is used).
   */
  function Place(cardWidth: nat, cardHeight: nat, measuredWidth: nat, measuredHeight: nat): (s: Spot)
    ensures 0 <= s.left <= cardWidth
    ensures s.top >= CardBand(cardWidth, cardHeight).minTop
  {
    var band := CardBand(cardWidth, cardHeight);
    // `meta.width || maxAvatarWidth`: a missing size is reported as 0
    var avatarWidth := if measuredWidth != 0 then measuredWidth else band.maxAvatarWidth;
    var avatarHeight := if measuredHeight != 0 then measuredHeight else band.maxAvatarHeight;
    Spot(AvatarLeft(cardWidth, avatarWidth), AvatarTop(band, avatarHeight), avatarWidth, avatarHeight)
  }

  /** The resized avatar fits the box it was resized into. */
  predicate FitsBox(cardWidth: nat, cardHeight: nat, measuredWidth: nat, measuredHeight: nat) {
    var band := CardBand(cardWidth, cardHeight);
    measuredWidth <= band.maxAvatarWidth && measuredHeight <= band.maxAvatarHeight
  }

  /** An avatar that fits its box lies wholly inside the card and wholly inside the band. */
  lemma PlacedInsideBand(cardWidth: nat, cardHeight: nat, measuredWidth: nat, measuredHeight: nat)
    requires FitsBox(cardWidth, cardHeight, measuredWidth, measuredHeight)
    ensures var s, band := Place(cardWidth, cardHeight, measuredWidth, measuredHeight), CardBand(cardWidth, cardHeight);
      && 0 <= s.left && s.left + s.width <= cardWidth
      && band.minTop <= s.top && s.top + s.height <= band.illustrationBottom
  {
  }

  /**
   * An avatar that fits its box is centred: the gap on its left is the gap on
   * its right or one more, and the gap above it within the band is the gap
   * below it or one more.
   */
  lemma PlacedCentred(cardWidth: nat, cardHeight: nat, measuredWidth: nat, measuredHeight: nat)
    requires FitsBox(cardWidth, cardHeight, measuredWidth, measuredHeight)
    ensures var s, band := Place(cardWidth, cardHeight, measuredWidth, measuredHeight), CardBand(cardWidth, cardHeight);
      var right, below := cardWidth - s.left - s.width, band.illustrationBottom - s.top - s.height;
      && 0 <= s.left - right <= 1
      && 0 <= (s.top - band.minTop) - below <= 1
  {
  }

  /** An avatar wider than the card is pinned to the left edge. */
  lemma WideAvatarPinnedLeft(cardWidth: nat, avatarWidth: int)
    requires avatarWidth >= cardWidth
    ensures AvatarLeft(cardWidth, avatarWidth) == 0
  {
  }

  /** An avatar at least as tall as the band is pinned to the top of the band. */
  lemma TallAvatarPinnedTop(band: Band, avatarHeight: int)
    requires avatarHeight >= band.illustrationBottom - band.minTop
    ensures AvatarTop(band, avatarHeight) == band.minTop
  {
  }

  /** Missing metadata places the avatar as if it filled its whole box. */
  lemma MissingSizeFillsBox(cardWidth: nat, cardHeight: nat)
    ensures var s, band := Place(cardWidth, cardHeight, 0, 0), CardBand(cardWidth, cardHeight);
      s.width == band.maxAvatarWidth && s.height == band.maxAvatarHeight && s.top == band.minTop
  {
  }
}
