/**
 * The glow behind the figure: the figure's alpha channel is blurred into a
 * soft mask, each mask value is doubled (saturating at 255) into the alpha of
 * a white halo layer, and the halo is screened under the avatar. A zero-sized
 * avatar, or any failure of the image library on the way, leaves the avatar
 * as it was.
 *
 * The blur and the two-layer composite belong to the image library and are
 * parameters here; `None` stands for the library throwing.
 */
module Glow {
  import opened Raster

  /** `Math.min(255, Math.round(a * 2.0))`: twice the mask value, saturating at 255. */
  function Amplify(a: byte): (r: byte)
    ensures a <= r <= 2 * a
    ensures r == 2 * a || r == 255
  {
    if 2 * a < 255 then 2 * a else 255
  }

  /** A stronger mask value never gives a weaker halo. */
  lemma AmplifyMonotone(a: byte, b: byte)
    requires a <= b
    ensures Amplify(a) <= Amplify(b)
  {
  }

  /** From mask value 128 on, the halo is fully opaque. */
  lemma AmplifySaturates(a: byte)
    requires a >= 128
    ensures Amplify(a) == 255
  {
  }

  /** The blur radius: 12% of the shorter side, rounded. */
  function GlowRadius(w: nat, h: nat): (r: nat)
    ensures r <= w && r <= h
    ensures w >= 5 && h >= 5 ==> r >= 1
  {
    var shorter := if w <= h then w else h;
    RoundPercent(shorter, 12)
  }

  /**
   * Byte `i` of the halo layer: pixels the mask covers are white with the
   * amplified mask value as alpha; the rest of the zero-filled buffer stays 0.
   */
  function HaloByte(mask: seq<byte>, i: nat): byte {
    if i / 4 < |mask| then
      (if i % 4 == AlphaOffset then Amplify(mask[i / 4]) else 255)
    else 0
  }

  /** The halo layer for `n` pixels. */
  function HaloLayer(mask: seq<byte>, n: nat): (r: seq<byte>)
    ensures |r| == n * 4
  {
    seq(n * 4, i requires 0 <= i < n * 4 => HaloByte(mask, i))
  }

  /**
   * Build the RGBA halo from the single-channel blurred mask: a zero-filled
   * buffer of `w * h` pixels, then one pass over the mask. Writes past the end
   * of the buffer are dropped, as with a typed array; since the buffer holds
   * whole pixels, a pixel is written completely or not at all.
   */
  method BuildHaloLayer(mask: seq<byte>, w: nat, h: nat) returns (rgba: array<byte>)
    ensures fresh(rgba)
    ensures rgba[..] == HaloLayer(mask, w * h)
  {
    rgba := new byte[w * h * 4](_ => 0);
    for i := 0 to |mask|
      invariant forall j :: 0 <= j < rgba.Length ==> rgba[j] == if j / 4 < i then HaloByte(mask, j) else 0
    {
      var a := Amplify(mask[i]);
      var idx := i * 4;
      if idx < rgba.Length {
        rgba[idx] := 255;
        rgba[idx + 1] := 255;
        rgba[idx + 2] := 255;
        rgba[idx + 3] := a;
      }
    }
  }

  /** Each covered halo pixel is opaque-white-coloured, with an alpha at least the mask value. */
  lemma HaloPixel(mask: seq<byte>, n: nat, p: nat)
    requires p < n && p < |mask|
    ensures 4 * p + 3 < |HaloLayer(mask, n)|
    ensures var layer := HaloLayer(mask, n);
      && layer[4 * p] == 255 && layer[4 * p + 1] == 255 && layer[4 * p + 2] == 255
      && mask[p] <= layer[4 * p + 3] == Amplify(mask[p])
  {
    var layer := HaloLayer(mask, n);
    assert layer[4 * p + 3] == HaloByte(mask, 4 * p + 3);
  }

  /** Halo pixels the mask does not reach stay fully transparent black. */
  lemma HaloBeyondMask(mask: seq<byte>, n: nat, i: nat)
    requires |mask| * 4 <= i < n * 4
    ensures HaloLayer(mask, n)[i] == 0
  {
  }

  /** The halo is invisible exactly where the blurred mask is 0. */
  lemma HaloInvisibleIffMaskZero(mask: seq<byte>, n: nat, p: nat)
    requires p < n && p < |mask|
    ensures HaloLayer(mask, n)[4 * p + 3] == 0 <==> mask[p] == 0
  {
    HaloPixel(mask, n, p);
  }

  /** Add a white glow around the figure of `avatar`. */
  method AddGlowAroundFigure(avatar: Image, blurAlpha: (Image, nat) -> Option<seq<byte>>,
                             composite: (Image, Image) -> Option<Image>) returns (out: Image)
    ensures avatar.width == 0 || avatar.height == 0 ==> out == avatar
    ensures blurAlpha(avatar, GlowRadius(avatar.width, avatar.height)).None? ==> out == avatar
    ensures var blurred := blurAlpha(avatar, GlowRadius(avatar.width, avatar.height));
      avatar.width != 0 && avatar.height != 0 && blurred.Some? ==>
        var halo := Image(avatar.width, avatar.height, HaloLayer(blurred.value, avatar.width * avatar.height));
        && (composite(halo, avatar).None? ==> out == avatar)
        && (composite(halo, avatar).Some? ==> out == composite(halo, avatar).value)
  {
    var width, height := avatar.width, avatar.height;
    if width == 0 || height == 0 {
      return avatar;
    }
    var radius := GlowRadius(width, height);
    var blurred := blurAlpha(avatar, radius);
    if blurred.None? {
      return avatar;
    }
    var rgba := BuildHaloLayer(blurred.value, width, height);
    var glow := Image(width, height, rgba[..]);
    var card := composite(glow, avatar);
    if card.None? {
      return avatar;
    }
    return card.value;
  }

  /** The halo handed to the composite has the avatar's size and a whole number of RGBA pixels. */
  lemma HaloFitsAvatar(avatar: Image, mask: seq<byte>)
    ensures Image(avatar.width, avatar.height, HaloLayer(mask, avatar.width * avatar.height)).Valid()
  {
  }
}
