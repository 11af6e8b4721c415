/** Pixel grids as the preparation script handles them: NumPy arrays of shape
    height x width x channels holding 8-bit channel values, and OpenCV's
    constant border (`cv2.copyMakeBorder` with `cv2.BORDER_CONSTANT`). */
module Images {

  /** One 8-bit channel value (frames are read with `cv2.IMREAD_COLOR`, dtype uint8). */
  newtype Byte = x: int | 0 <= x < 256

  /** A pixel: one value per channel. */
  type Pixel = seq<Byte>

  /** An image together with its NumPy shape. The shape is kept explicitly so that
      an image without rows still has a width, as a NumPy array does. */
  datatype Image = Image(height: nat, width: nat, channels: nat, rows: seq<seq<Pixel>>)
  {
    /** The rows agree with the shape. */
    predicate Valid()
    {
      && |rows| == height
      && (forall r :: 0 <= r < |rows| ==> |rows[r]| == width)
      && (forall r, c :: 0 <= r < |rows| && 0 <= c < |rows[r]| ==> |rows[r][c]| == channels)
    }
  }

  /** The pixel whose every channel is 0. */
  function ZeroPixel(channels: nat): Pixel
  {
    seq(channels, _ => 0)
  }

  /** `n` zero pixels. */
  function ZeroRow(n: nat, channels: nat): seq<Pixel>
  {
    seq(n, _ => ZeroPixel(channels))
  }

  /** One row with `left` zero pixels before it and `right` after it. */
  function Surround(row: seq<Pixel>, left: nat, right: nat, channels: nat): seq<Pixel>
  {
    ZeroRow(left, channels) + row + ZeroRow(right, channels)
  }

  /** Row `r` of the bordered image: a source row framed by zero pixels inside
      the original band, a full row of zero pixels above and below it. */
  function BorderRow(img: Image, top: nat, left: nat, right: nat, r: int): seq<Pixel>
  {
    if top <= r < top + |img.rows| then Surround(img.rows[r - top], left, right, img.channels)
    else ZeroRow(left + img.width + right, img.channels)
  }

  /** `cv2.copyMakeBorder(img, top, bottom, left, right, cv2.BORDER_CONSTANT)` with
      the default border value 0: `top` zero rows, then every row framed by
      `left` and `right` zero pixels, then `bottom` zero rows. */
  function CopyMakeBorder(img: Image, top: nat, bottom: nat, left: nat, right: nat): (out: Image)
    requires img.Valid()
    ensures out.Valid()
    ensures out.height == top + img.height + bottom
    ensures out.width == left + img.width + right
    ensures out.channels == img.channels
  {
    Image(top + img.height + bottom, left + img.width + right, img.channels,
          seq(top + img.height + bottom, r => BorderRow(img, top, left, right, r)))
  }

  /** Where each pixel of the bordered image comes from: the source pixel shifted
      by (`top`, `left`) inside the original area, the zero pixel outside it. */
  lemma CopyMakeBorderAt(img: Image, top: nat, bottom: nat, left: nat, right: nat, r: nat, c: nat)
    requires img.Valid()
    requires r < top + img.height + bottom && c < left + img.width + right
    ensures CopyMakeBorder(img, top, bottom, left, right).rows[r][c] ==
              if top <= r < top + img.height && left <= c < left + img.width
              then img.rows[r - top][c - left]
              else ZeroPixel(img.channels)
  {
    var out := CopyMakeBorder(img, top, bottom, left, right);
    if top <= r < top + img.height {
      var row := img.rows[r - top];
      assert out.rows[r] == ZeroRow(left, img.channels) + row + ZeroRow(right, img.channels);
    }
  }

  /** A border of width zero on every side leaves the image as it was. */
  lemma CopyMakeBorderNothing(img: Image)
    requires img.Valid()
    ensures CopyMakeBorder(img, 0, 0, 0, 0) == img
  {
    var out := CopyMakeBorder(img, 0, 0, 0, 0);
    forall r | 0 <= r < img.height
      ensures out.rows[r] == img.rows[r]
    {
      forall c | 0 <= c < img.width
        ensures out.rows[r][c] == img.rows[r][c]
      {
        CopyMakeBorderAt(img, 0, 0, 0, 0, r, c);
      }
    }
  }
}
