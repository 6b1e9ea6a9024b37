# Image batch resize and rename, modelled in Dafny

This project models the two command-line tools of the Image_Batch_Resize
repository.

- **batchResize.py** resizes every image of a folder to a fixed
  `width` x `height` box. It keeps the aspect ratio: one uniform scale
  factor fits the image into the box, and the short axis is padded with
  solid bands of a fill colour (letterbox or pillarbox). The odd row or
  column of padding goes to the bottom or the right. The driver first checks
  the fill colour and the target size, then counts how many images it
  resized.
- **batchRename.py** reads a `original,new` mapping file into a dictionary.
  It then copies every file of a folder under its mapped name, in listing
  order, and stops at the first name the file does not map.

Modules:

- `Wrappers` (wrappers.dfy): `Option` and `Result`.
- `Raster` (raster.dfy): 8-bit, 3-channel pixels and images as grids
  (`seq<seq<Pixel>>`). It also holds the fill loop that paints a freshly
  zeroed `array2` buffer (`np.zeros` then `block[:,:] = fill_color`) and the
  side-by-side join (`np.concatenate(..., axis = 1)`).
- `Geometry` (geometry.dfy): the choice of scale factor, the floored scaled
  size, the `diff // 2` split of the padding, and where the scaled image
  lands in the box.
- `BatchResize` (batch_resize.dfy): `resize_img` as the method `ResizeImg`,
  the argument checks, the per-image success count, and the driver.
- `BatchRename` (batch_rename.dfy): `str.split(',')`, `str.strip()`,
  `get_mappings` as the method `GetMappings`, the copy loop as `PlanCopies`,
  and the driver.

`cv2.resize` is the function parameter `resample`. The only thing known
about it (`ResamplesTo`) is that it returns a grid of the requested size; its
pixel values are never inspected. The padded image's pixels are stated
relative to whatever it returned.

Scale factors are exact rationals. Line 26's test
`img_height * (width / img_width) > height` is decided as
`img_height * width > height * img_width`. The floored sizes are
`(img_width * num) / den` and `(img_height * num) / den` for the chosen factor
`num / den`. See "Left out" for where this differs from the Python floats.

## Model

| member | source | states |
|---|---|---|
| `Geometry.ScaleFactor` | batchResize.py:21-29 | The height factor `height / img_height` is chosen exactly when the width factor would make the image taller than the box; the chosen factor maps that image side exactly onto the box side. |
| `Geometry.ScaledSize` | batchResize.py:31-32 | The floored scaled size never exceeds the box in either dimension. |
| `Geometry.OneAxisMatches` | batchResize.py:24-32 | With the width factor the scaled width equals the target width. With the height factor the scaled height equals the target height and the scaled width is strictly less than the target width. This is what lets line 41 pick the padding axis. |
| `Geometry.ExactFitIff` | batchResize.py:36-38 | The scaled size equals the box exactly when the image and the box have the same aspect ratio (`img_height * width == height * img_width`). |
| `Geometry.AspectPreserved` | batchResize.py:25-33 | Both sides are the floor of the image side times the one chosen factor, so there is no distortion beyond truncation. The axis that does not match its target is short of the source aspect ratio by less than one pixel. |
| `Geometry.SplitPadding` | batchResize.py:42-57 | `diff // 2` before and `diff - diff // 2` after: the bands sum to the gap, the after-band is equal or one larger, and they are equal exactly when the gap is even. |
| `Geometry.Placement` | batchResize.py:36-66 | The scaled image sits inside the box. On the padded axis it is centred, with the after-band equal to or one more than the before-band. On the other axis it spans the whole box. |
| `Geometry.WorkedExamples` | batchResize.py:25-57 | Three concrete cases. 100x200 into 50x50 gives 25x50 with 12/13 side bands. 300x100 into 100x100 gives 100x33 with 33/34 top and bottom bands. 640x480 into 640x480 needs no padding. |
| `Raster.SolidBlock` | batchResize.py:46-50 | The padding buffer has the requested rows and columns, and every pixel in it equals the fill colour. |
| `BatchResize.ResizeImg` | batchResize.py:18-68 | Fails exactly when a floored dimension is 0, which `cv2.resize` rejects. Otherwise the result has exactly `height` rows of `width` pixels. Each pixel is the resampled image's pixel, shifted by the placement offset, inside the placed region, and the fill colour outside it. On an exact fit the result is the resampled image itself. |
| `BatchResize.ValidateArgs` | batchResize.py:93-109 | Accepts exactly when every given fill channel is in [0, 255] and both width and height are at least 1. A bad colour is the error reported even when the size is also bad. Without a colour the fill is black. |
| `BatchResize.CountResizable` | batchResize.py:117-122 | The number of images that resize successfully is at most the number attempted. It equals that number exactly when every image can be resized. |
| `BatchResize.ResizeBatch` | batchResize.py:116-122 | One outcome per image, in order. An image's outcome is present exactly when that image can be resized, and then it has the target size. The success counter equals the number of such images and never exceeds the number attempted. |
| `BatchResize.RunResize` | batchResize.py:93-122 | Invalid arguments stop the run before any image is processed, and the error is the one the argument checks report. Otherwise every image is attempted: an image's outcome is present exactly when it can be resized, and then it has the target size. The counter is the number of successes. |
| `BatchRename.SplitComma` | batchRename.py:14 | `line.split(',')` gives at least one field, one more field than the line has commas, and no field contains a comma. |
| `BatchRename.JoinSplit` | batchRename.py:14 | Joining the fields with commas gives back the line. |
| `BatchRename.SplitJoin` | batchRename.py:14 | Splitting a comma-join of comma-free fields gives back those fields. |
| `BatchRename.SplitLine` | batchRename.py:14 | The two-name unpacking succeeds exactly when the line has one comma, and then the two fields are the text before and after that comma. |
| `BatchRename.LineFields` | batchRename.py:13-15 | The line `key,value` built from comma-free text unpacks to that exact key, not stripped, and that value. |
| `BatchRename.Strip` | batchRename.py:15 | `value.strip()` neither starts nor ends with whitespace. It is the slice of the value after its leading whitespace, and only whitespace follows it in the value. Whitespace is the set of characters Python's `str.isspace` accepts. |
| `BatchRename.StripIdempotent` | batchRename.py:15 | Stripping an already stripped value changes nothing. |
| `BatchRename.FirstMalformed` | batchRename.py:13-14 | Gives the first line that does not split into exactly two fields: every earlier line is well formed and that line is not. |
| `BatchRename.KeysOfFromLines` | batchRename.py:11-16 | Every key of the dictionary is the first field of some line of the file. |
| `BatchRename.GetMappings` | batchRename.py:10-16 | The parse fails exactly when some line is malformed, and it fails at the first such line. Otherwise the key set is exactly the set of first fields. Each key maps to the stripped second field of the last line carrying that key, so later duplicates override earlier ones. |
| `BatchRename.PlanCopies` | batchRename.py:41-42 | Files are copied in listing order, each under its mapped name. If every name is mapped, every file is copied. Otherwise the copies are exactly those of the names before the first unmapped one, and that name is the failure. |
| `BatchRename.RenameBatch` | batchRename.py:40-42 | A malformed mapping file fails before any copy, reporting its first malformed line. A well-formed file never reports a malformed line. Its copies are the listed files in order, each a key of the file, and the batch fails exactly when some listed name is not a key; it then names the first such name. |

## Left out

- Command-line handling (`sys.argv`, `exit()`, every `print`) is not
  modelled. The driver models take the already-converted numbers:
  `int(...)` on the arguments, the `split('-')` of the colour argument and its
  crash on a wrong number of parts are string parsing, not modelled.
- File-system I/O is not modelled: `os.chdir`, `glob.glob`, `cv2.imread`,
  `cv2.imwrite`, `open` and `shutil.copyfile`. The file names, the decoded
  images and the mapping file's lines (terminators included) are inputs. A
  copy is a `Copy(source, destination)` record.
- The `None` that `cv2.imread` returns for an unreadable file is not
  modelled. In the source it makes `resize_img` raise, and the driver catches
  that per image. The model's frames are always decoded, non-empty images.
- Write failures are not modelled: the model assumes every write succeeds.
  `cv2.imwrite` usually reports a failure (a missing or read-only output
  folder) by returning False. batchResize.py:121 ignores that value, so the
  source counts such an image as a success.
- `cv2.resize` interpolation is not modelled: `resample` is a parameter that
  only promises the output size.
- Floating point. The source computes the scale factors as IEEE doubles; the
  model uses exact rationals. The two can differ. For example
  `49 * (1 / 49)` is `0.9999999999999999` in doubles, so `int()` at
  batchResize.py:31 gives 0 where the exact value is 1 (a 49-pixel-wide image
  into a 1-pixel-wide box), and `cv2.resize` fails. More generally, a floored
  size can fall one pixel short of the target. The source then pads an axis
  it did not intend to pad, or the concatenation fails on mismatched shapes.
  The model's `OneAxisMatches` and `ResizeImg` hold for exact arithmetic
  only.
- The success percentage (batchResize.py:128) is output formatting and is
  not modelled. It also divides by zero on an empty folder.
- Channel count is not inferred from `img_frame.shape`: it is fixed at 3.
- The fill triple is stored in channel order as given. OpenCV reads channel
  0 as blue, so the `r-g-b` triple the user types lands as B, G, R in the
  written file. The model keeps that order and does not interpret channels.
- `resize_img` itself does not reject a non-positive target size or an
  out-of-range colour; only the driver checks them. `ResizeImg` needs no
  precondition on the target size, because a zero side gives a zero floored
  size and the `cv2.resize` error. The colour is range-checked only in
  `ValidateArgs`. The type `Byte` keeps the fill pixel 8-bit.
- Python's `ValueError` from a malformed mapping line carries no line
  number. The model's `MalformedLine(index)` records which line stopped the
  loop.
- BatchRename.RenameBatch: states the copies' sources, that each is a key of
  the file, and where the batch stops, but not their destinations. The
  destinations come from the dictionary that `GetMappings` builds, and
  `PlanCopies` states them against that dictionary.
- BatchResize.ResizeBatch: states each output's presence and size, not its
  pixels; `ResizeImg` states the pixels of each single resize.
