/** `padCroppedImage`: pads the shorter side of a cropped region with zero
    pixels, the same amount on both sides, so that the crop becomes square
    (or one pixel short of square). */
module Padding {
  import opened Images

  /** `int((longer - shorter) / 2)`: Python's true division followed by `int`,
      which truncates toward zero; the difference is never negative here, so
      this is Dafny's division. */
  function Fill(longer: nat, shorter: nat): nat
    requires shorter <= longer
  {
    (longer - shorter) / 2
  }

  /** Zero rows added above (and below) the crop: only when it is wider than tall. */
  function TopFill(img: Image): nat
  {
    if img.height < img.width then Fill(img.width, img.height) else 0
  }

  /** Zero columns added left (and right) of the crop: only when it is taller than wide. */
  function LeftFill(img: Image): nat
  {
    if img.height > img.width then Fill(img.height, img.width) else 0
  }

  /** `padCroppedImage(crop_img)`. A square crop comes back as it is; a tall one
      keeps its height and widens by twice the truncated half-difference; a wide
      one keeps its width and grows by the same amount in height. */
  function PadCroppedImage(img: Image): (out: Image)
    requires img.Valid()
    ensures out.Valid()
    ensures out.channels == img.channels
    ensures img.height == img.width ==> out == img
    ensures img.height > img.width ==>
              out.height == img.height && out.width == img.width + 2 * ((img.height - img.width) / 2)
    ensures img.height < img.width ==>
              out.width == img.width && out.height == img.height + 2 * ((img.width - img.height) / 2)
  {
    // both tests read the height and width taken before any padding
    if img.height > img.width then
      CopyMakeBorder(img, 0, 0, Fill(img.height, img.width), Fill(img.height, img.width))
    else if img.height < img.width then
      CopyMakeBorder(img, Fill(img.width, img.height), Fill(img.width, img.height), 0, 0)
    else
      img
  }

  /** The padded crop is square when the two sides differ by an even number of
      pixels, and one pixel short of square (on the side that was padded) when
      they differ by an odd number. */
  lemma PadNearlySquare(img: Image)
    requires img.Valid()
    ensures var out := PadCroppedImage(img);
            && (out.height == out.width <==> (img.height - img.width) % 2 == 0)
            && (img.height > img.width ==> out.height - out.width == (img.height - img.width) % 2)
            && (img.height < img.width ==> out.width - out.height == (img.width - img.height) % 2)
  {
  }

  /** The padded crop's shape: `TopFill` zero rows above and below the crop,
      `LeftFill` zero columns left and right of it. */
  lemma PadShape(img: Image)
    requires img.Valid()
    ensures PadCroppedImage(img).height == 2 * TopFill(img) + img.height
    ensures PadCroppedImage(img).width == 2 * LeftFill(img) + img.width
  {
  }

  /** Where each pixel of the padded crop comes from: the original pixel moved
      down by `TopFill` and right by `LeftFill`, and zero everywhere else. */
  lemma PadCroppedImageAt(img: Image, r: nat, c: nat)
    requires img.Valid()
    requires r < 2 * TopFill(img) + img.height && c < 2 * LeftFill(img) + img.width
    ensures r < PadCroppedImage(img).height && c < PadCroppedImage(img).width
    ensures TopFill(img) <= r < TopFill(img) + img.height && LeftFill(img) <= c < LeftFill(img) + img.width ==>
              PadCroppedImage(img).rows[r][c] == img.rows[r - TopFill(img)][c - LeftFill(img)]
    ensures !(TopFill(img) <= r < TopFill(img) + img.height && LeftFill(img) <= c < LeftFill(img) + img.width) ==>
              PadCroppedImage(img).rows[r][c] == ZeroPixel(img.channels)
  {
    PadShape(img);
    var top, left := TopFill(img), LeftFill(img);
    if img.height != img.width {
      CopyMakeBorderAt(img, top, top, left, left, r, c);
    }
  }

  /** Every original pixel survives padding, moved down by `TopFill` and right by `LeftFill`. */
  lemma PadKeepsPixel(img: Image, r: nat, c: nat)
    requires img.Valid() && r < img.height && c < img.width
    ensures TopFill(img) + r < PadCroppedImage(img).height
    ensures LeftFill(img) + c < PadCroppedImage(img).width
    ensures PadCroppedImage(img).rows[TopFill(img) + r][LeftFill(img) + c] == img.rows[r][c]
  {
    PadCroppedImageAt(img, TopFill(img) + r, LeftFill(img) + c);
  }

  /** A crop whose sides differ by at most one pixel comes back unchanged: the
      truncated half-difference is zero. */
  lemma PadLeavesNearlySquare(img: Image)
    requires img.Valid()
    requires img.height <= img.width + 1 && img.width <= img.height + 1
    ensures PadCroppedImage(img) == img
  {
    if img.height != img.width {
      assert TopFill(img) == 0 && LeftFill(img) == 0;
      CopyMakeBorderNothing(img);
    }
  }

  /** Padding an already padded crop changes nothing more. */
  lemma PadIdempotent(img: Image)
    requires img.Valid()
    ensures PadCroppedImage(PadCroppedImage(img)) == PadCroppedImage(img)
  {
    PadNearlySquare(img);
    PadLeavesNearlySquare(PadCroppedImage(img));
  }
}
