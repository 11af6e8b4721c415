/** `cv2.flip(img, 1)`: flip code 1 (positive) mirrors the image around its
    vertical axis, so every row is reversed, left to right. */
module Mirror {
  import opened Images

  /** The pixels of one row in reverse order. */
  function Reverse<T>(s: seq<T>): (r: seq<T>)
    ensures |r| == |s|
    ensures forall c :: 0 <= c < |s| ==> r[c] == s[|s| - 1 - c]
  {
    if s == [] then [] else [s[|s| - 1]] + Reverse(s[..|s| - 1])
  }

  /** `cv2.flip(img, 1)`: same shape, and the pixel at column c comes from
      column width - 1 - c of the same row. */
  function FlipHorizontal(img: Image): (out: Image)
    requires img.Valid()
    ensures out.Valid()
    ensures out.height == img.height && out.width == img.width && out.channels == img.channels
    ensures forall r, c :: 0 <= r < img.height && 0 <= c < img.width ==>
              out.rows[r][c] == img.rows[r][img.width - 1 - c]
  {
    Image(img.height, img.width, img.channels,
          seq(|img.rows|, r requires 0 <= r < |img.rows| => Reverse(img.rows[r])))
  }

  /** Mirroring twice gives back the original image. */
  lemma FlipInvolution(img: Image)
    requires img.Valid()
    ensures FlipHorizontal(FlipHorizontal(img)) == img
  {
    var once := FlipHorizontal(img);
    var twice := FlipHorizontal(once);
    forall r | 0 <= r < img.height
      ensures twice.rows[r] == img.rows[r]
    {
      forall c | 0 <= c < img.width
        ensures twice.rows[r][c] == img.rows[r][c]
      {
        assert twice.rows[r][c] == once.rows[r][img.width - 1 - c];
      }
    }
  }
}
