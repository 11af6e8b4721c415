# ai-nimals dataset preparation: a Dafny model of the crop, pad and mirror steps

The script `ai_nimals_prepare_scrapped.py` prepares a training set. For every
image of every class directory it runs a MobileNet SSD detector, crops the
frame to the first detection, pads the crop with zero pixels to a (nearly)
square shape, mirrors it left to right, writes it as `detected/<n>.png` and
deletes the source file. This project models the logic of those steps and
proves what they do:

- `Images` (`images.dfy`): an image as a NumPy array of shape
  height x width x channels with 8-bit channel values. The shape is stored
  next to the rows, so that a crop with no rows keeps its width, as a NumPy
  array does. The module also models `cv2.copyMakeBorder` with
  `cv2.BORDER_CONSTANT`.
- `Padding` (`padding.dfy`): `padCroppedImage`. The shorter side gets
  `int((longer - shorter) / 2)` zero pixels on each side. For a non-negative
  difference, Python's truncation equals Dafny's `/`. Both tests read the
  height and width taken before any padding, as the source does.
- `Selection` (`selection.dfy`): the detection loop of `findBirdInFrame`.
  `FindBirdInFrame` keeps the source's `for` loop with its `break` and early
  `return`, and is proved equal to the function `SelectAndCrop`. The first
  detection decides:
  - confidence above 0.5: the result is the crop of its box;
  - otherwise: `None`, without looking at later detections;
  - no detection at all: `crop_img` is never bound, so Python raises
    `UnboundLocalError`. The model returns the error `UnboundCropImage`.

  `FirstQualifying` is a reference "first detection above the threshold"
  policy. The lemmas show exactly where the source's first-detection-wins
  behaviour differs from it.
- `Mirror` (`mirror.dfy`): `cv2.flip(img, 1)`. The source's comment calls
  this a "vertical flip". Flip code 1 actually mirrors around the vertical
  axis: every row is reversed, left to right.
- `Prepare` (`prepare.dfy`): how `main` chains these steps for one decoded
  frame (`PrepareFrame`). `ProcessClassDirectory` models the pass over one
  class directory. It does not simulate the filesystem. It returns the images
  written, keyed by the source index `n` of `<n>.png`, and the number of
  source files removed. Every handled file is removed, whether or not it
  could be read and whether or not a crop was made. An error stops the pass
  before the failing file is removed.

The `copyMakeBorder` calls pass `0` as their seventh positional argument. In
OpenCV's Python signature that slot is the destination array, not the border
value. The border value therefore stays at OpenCV's default, which is also
zero. The model's zero padding holds either way.

The selector is easily read as "take the first detection above the
threshold". The code does not search like that: it returns `None` as soon as
the first detection is at or below the threshold. The model follows the code.
`LaterQualifyingDetectionIgnored` gives an input on which the two readings
differ.

## Model

| member | source | states |
|---|---|---|
| Images.CopyMakeBorder | ai_nimals_prepare_scrapped.py:33-38 | the bordered image is well formed, has `top + height + bottom` rows of `left + width + right` pixels and keeps the channel count |
| Images.CopyMakeBorderAt | ai_nimals_prepare_scrapped.py:33-38 | a bordered pixel is the source pixel shifted by (`top`, `left`) inside the original area, and the zero pixel everywhere else |
| Images.CopyMakeBorderNothing | ai_nimals_prepare_scrapped.py:33-38 | a border of width zero on all four sides returns the image unchanged |
| Padding.PadCroppedImage | ai_nimals_prepare_scrapped.py:26-39 | a square crop is returned unchanged; a tall crop keeps its height, and its width becomes `width + 2*((height-width)/2)`; a wide crop keeps its width, and its height becomes `height + 2*((width-height)/2)`; the channel count is kept |
| Padding.PadNearlySquare | ai_nimals_prepare_scrapped.py:31-38 | after padding the sides are equal exactly when the original difference is even; otherwise the padded side is exactly one pixel short |
| Padding.PadShape | ai_nimals_prepare_scrapped.py:31-38 | the padded crop has `TopFill` extra rows above and below it and `LeftFill` extra columns on each side |
| Padding.PadCroppedImageAt | ai_nimals_prepare_scrapped.py:30-38 | each padded pixel is the original pixel (r, c) moved to (r + TopFill, c + LeftFill) inside the original area, and zero outside it |
| Padding.PadKeepsPixel | ai_nimals_prepare_scrapped.py:33-38 | every original pixel (r, c) reappears at (TopFill + r, LeftFill + c) |
| Padding.PadLeavesNearlySquare | ai_nimals_prepare_scrapped.py:31-38 | a crop whose sides differ by at most one pixel is returned unchanged |
| Padding.PadIdempotent | ai_nimals_prepare_scrapped.py:26-39 | padding an already padded crop changes nothing |
| Mirror.Reverse | ai_nimals_prepare_scrapped.py:102 | a mirrored row has the same length, and its pixel c is the original pixel at length - 1 - c |
| Mirror.FlipHorizontal | ai_nimals_prepare_scrapped.py:102 | the flip keeps height, width and channels and maps pixel (r, c) to (r, width - 1 - c) |
| Mirror.FlipInvolution | ai_nimals_prepare_scrapped.py:102 | flipping twice gives back the original image |
| Selection.Crop | ai_nimals_prepare_scrapped.py:66 | a box inside the frame gives a crop of `endY-startY` rows and `endX-startX` columns whose pixel (r, c) is frame pixel (startY + r, startX + c) |
| Selection.SelectAndCrop | ai_nimals_prepare_scrapped.py:52-70 | the value `findBirdInFrame` returns: the unbound-variable error exactly when there is no detection, `None` exactly when the first detection is at most 0.5, and otherwise a well-formed crop of the first box's size with the frame's channels; `SelectNoneIffFirstWeak`, `SelectErrIffEmpty` and `SelectCropsFirst` state the same outcomes with the crop's pixels |
| Selection.FindBirdInFrame | ai_nimals_prepare_scrapped.py:52-70 | the loop over the detections returns exactly `SelectAndCrop`: the unbound-variable error for no detection, `None` for a weak first detection, and otherwise the crop of the first detection |
| Selection.SelectNoneIffFirstWeak | ai_nimals_prepare_scrapped.py:59-69 | the result is `None` if and only if there is a first detection with confidence at most 0.5, whatever the later detections hold |
| Selection.SelectCropsFirst | ai_nimals_prepare_scrapped.py:59-67 | when the first confidence is above 0.5, the result is a crop of `endY-startY` by `endX-startX` pixels read from the frame at (startY + r, startX + c) |
| Selection.SelectErrIffEmpty | ai_nimals_prepare_scrapped.py:52-70 | the unbound `crop_img` error happens if and only if there are no detections |
| Selection.SelectIgnoresLater | ai_nimals_prepare_scrapped.py:52-69 | replacing every detection after the first leaves the outcome unchanged |
| Selection.FirstQualifying | ai_nimals_prepare_scrapped.py:52-59 | the reference policy returns the index of a detection above the threshold with none before it, or nothing if no detection qualifies |
| Selection.SelectAgreesWithFirstQualifying | ai_nimals_prepare_scrapped.py:52-69 | the source finds a crop exactly when the first qualifying detection is the very first one, and then it crops that detection |
| Selection.LaterQualifyingDetectionIgnored | ai_nimals_prepare_scrapped.py:59-69 | a weak first detection followed by a strong one gives `None`, although a qualifying detection exists at index 1 |
| Prepare.PrepareFrame | ai_nimals_prepare_scrapped.py:94-102 | one frame fails exactly when nothing is detected; it yields an image exactly when the first detection qualifies; that image keeps the channels and is square up to one pixel |
| Prepare.PrepareFrameAt | ai_nimals_prepare_scrapped.py:94-102 | the written image is the first box widened by `TopFill` rows and `LeftFill` columns on each side, and frame pixel (startY + r, startX + c) of that box sits at row TopFill + r and column width - 1 - (LeftFill + c) |
| Prepare.PadFlipAt | ai_nimals_prepare_scrapped.py:99-102 | after padding and mirroring, crop pixel (r, c) sits at row TopFill + r and column width - 1 - (LeftFill + c) |
| Prepare.ProcessFile | ai_nimals_prepare_scrapped.py:89-102 | a file that cannot be decoded yields no image and no error; a decoded file fails exactly when nothing is detected in it and yields an image exactly when its first detection qualifies |
| Prepare.ProcessClassDirectory | ai_nimals_prepare_scrapped.py:86-106 | the pass removes every file up to the first failing one, or all files if none fails; it writes image `n` exactly for the removed files that yield a crop, and that image is the file's prepared frame |

## Left out

- Model loading and inference (`readNetFromCaffe`, `blobFromImage`, `setInput`, `forward`) are opaque calls into a neural network. The detections are an input to the model.
- Scaling the box by the frame's width and height and truncating with `astype("int")` is floating-point tensor arithmetic. The model takes the already scaled integer box. The class index is carried but, as in the source, never used.
- NumPy slicing of boxes that fall partly outside the frame (clamping, negative indices) is not modelled. The crop requires its box to lie inside the frame, and only when the first detection qualifies.
- Directory listing, `rmtree`/`makedirs`, `imread` decoding, `imwrite` and `os.remove` are filesystem I/O. A file that cannot be decoded is an input marked as unreadable. Writing and removal appear only as the report of `ProcessClassDirectory`. The outer loop over class directories is not modelled.
- OpenCV's handling of empty matrices (a degenerate box passed to `copyMakeBorder`, `flip` or `imwrite`) is not modelled. The model applies the mathematical definitions to an empty grid.
- The `CLASSES` table, the `PATH` change, the log messages and `destroyAllWindows` have no effect on the images.
