# FrameData: per-frame RGB-D record, depth decoder and depth-consistency filter

This project models `FrameData`, the record that holds one RGB-D frame in a
SIFT-based visual-feature pipeline. It has three parts, each proved in Dafny.

- **The ownership state machine** (module `Frame`, class `FrameData`). The
  record has a frame id (`-1` means "no frame"), an optional colour image, a
  feature buffer with a feature count, and an optional depth buffer. The
  operations are the constructor, `LoadImage`, `IsLoaded`, `LoadDepthData`,
  `ComputeFeatures`, `ReleaseData`, `AssignData` (a destructive move) and
  `RemoveInvalidFeatures`. The image codec and the SIFT detector are outside
  the model. What they return becomes a parameter of the operation that calls
  them: an `Option<Image>`, an `Option<DepthImage>`, or a feature sequence.
- **The depth decoder** (module `DepthCodec`). The raw `char` storage of the
  depth image has a 3-byte pixel stride. Sample `i` is
  `((unsigned char)b[3i] << 8) | (unsigned char)b[3i+1]`. `DecodeInto` fills the
  depth buffer in place. The samples are specified by `DecodedDepth`. A
  reference encoder (`EncodeDepth`) writes the exporter's format, and decoding
  its output gives back any depth map.
- **The depth-consistency filter** (module `FeatureFilter`). The predicate
  `Keep` says which features survive. `KeptIndices` and `Filter` are the
  specification. `ScanWindow`, `ValidFeatureIds` and `CopyKept` are the loops
  of `removeInvalidFeatures`, each proved against that specification. The
  lemmas show that the result is an order-preserving subsequence and that
  zero-depth features are always dropped. They show that a non-positive radius
  keeps exactly the features with nonzero depth, and that an all-valid input
  comes back unchanged.

Feature coordinates are integer pixels, taken as already rounded. The depth map
is indexed with the fixed row stride `ROW_STRIDE = 640`, as the source does.
The filter requires (`FilterReady`) that every feature's own pixel lie inside
the depth buffer. With a positive radius, the whole window of every feature with
nonzero own depth must lie inside it too, even the samples the early exit skips.

The model follows the code as written, including these details:

- `loadImage(-1)` can succeed and then holds an image while the id is `-1`. So
  the invariant is only "no image ⇒ id is `-1`" (`FrameData.Valid`).
- `computeFeatures` without an image sets the count to 0 but keeps the old
  feature buffer. A failed `loadImage` also leaves the features alone. So the
  count is only bounded by the buffer (`nbFeatures <= |features|`). The live
  features are the first `nbFeatures` entries.
- `loadDepthData` does not check the frame id; it just tries to load the file.
- `removeInvalidFeatures` replaces the buffer only when some feature was
  dropped. Otherwise the buffer and the count are left exactly as they were,
  and that includes a stale buffer behind a zero count.

## Model

| member | source | states |
|---|---|---|
| `DepthCodec.AsUnsignedChar` | FrameData.cpp:80-81 | the `(unsigned char)` cast of a signed byte `c` is `c mod 256`, and is `c` itself for a non-negative byte |
| `DepthCodec.SignedUnsignedRoundTrip` | FrameData.cpp:80-81 | the cast loses nothing: the signed byte can be recovered from the unsigned one |
| `DepthCodec.ShiftOrIsMulAdd` | FrameData.cpp:82 | on 16-bit words, `(hi << 8) \| lo` for two bytes equals `hi * 256 + lo`, and shifting right by 8 or masking with `0xFF` gives `hi` and `lo` back |
| `DepthCodec.DecodeSample` | FrameData.cpp:82 | the decoded sample is a 16-bit value whose high byte is `hi` and whose low byte is `lo` |
| `DepthCodec.PixelSample` | FrameData.cpp:77-82 | sample `i` is `(b[3i] mod 256) * 256 + b[3i+1] mod 256` and is below 65536 |
| `DepthCodec.DecodedDepth` | FrameData.cpp:77-83 | the decoded map has exactly one sample per pixel (`width * height`) |
| `DepthCodec.DecodeSplit` | FrameData.cpp:79-82 | splitting any `v` in `[0, 65535]` into `v / 256` and `v % 256` and decoding gives `v` back |
| `DepthCodec.SplitDecode` | FrameData.cpp:79-82 | decoding two bytes and splitting the sample gives the two bytes back |
| `DepthCodec.EncodeDepth` | FrameData.cpp:79 | the exporter's storage for a depth map has three bytes per sample |
| `DepthCodec.EncodeDepthAt` | FrameData.cpp:79-81 | in the exporter's storage, bytes `3i` and `3i+1` hold the high and low byte of sample `i` |
| `DepthCodec.DecodeEncodeDepth` | FrameData.cpp:77-83 | decoding the exporter's storage of any depth map gives that depth map back |
| `DepthCodec.DecodeInto` | FrameData.cpp:77-83 | after the in-place loop, the first `n` buffer entries are the decoded samples and the rest of the buffer is unchanged |
| `FeatureFilter.Abs` | FrameData.cpp:171 | `abs` returns the magnitude of the depth difference |
| `FeatureFilter.NeighbourIndex` | FrameData.cpp:170 | the window index at offset (0, 0) is the feature's own pixel `y * 640 + x` |
| `FeatureFilter.AxisSwapIrrelevant` | FrameData.cpp:167-170 | adding the row offset to x and the column offset to y gives the same verdict as the other way round |
| `FeatureFilter.ScanWindow` | FrameData.cpp:165-173 | the nested scan with its early exit on `validArea` returns true iff every nonzero window sample is within `maxDeltaDepthArea` of the feature's depth |
| `FeatureFilter.ValidFeatureIds` | FrameData.cpp:155-178 | the first pass collects exactly the kept indices, in increasing order: zero own depth is skipped, a non-positive radius accepts, otherwise the window decides |
| `FeatureFilter.CopyKept` | FrameData.cpp:186-193 | the copy loop puts the feature at the j-th kept index into slot j of the new buffer |
| `FeatureFilter.KeptIndicesSpec` | FrameData.cpp:155-178 | the kept indices are strictly increasing, in range, at most as many as the features, and index `i` is among them iff feature `i` passes `Keep` |
| `FeatureFilter.FilterSelectsKept` | FrameData.cpp:186-199 | the filtered features are the input read at the kept indices |
| `FeatureFilter.FilterIsOrderedSubsequence` | FrameData.cpp:180-200 | the result is an order-preserving subsequence of the input, and its length is the number of kept indices |
| `FeatureFilter.ZeroDepthNeverKept` | FrameData.cpp:157-159 | a feature whose own depth is 0 is never kept, whatever the radius and delta |
| `FeatureFilter.RadiusZeroKeepsNonzeroDepth` | FrameData.cpp:161-162 | when `sizeSurfaceArea <= 0`, exactly the features with nonzero own depth are kept |
| `FeatureFilter.FilterFullLengthIsIdentity` | FrameData.cpp:180 | the filter never lengthens the input, and a result as long as the input is the input (so skipping the rebuild when nothing was dropped is sound) |
| `FeatureFilter.AllKeptIsIdentity` | FrameData.cpp:180-201 | when every feature is valid, the features come back unchanged |
| `FeatureFilter.IdentityMeansAllKept` | FrameData.cpp:180-201 | when the features come back unchanged, every feature was valid |
| `Frame.FrameData.constructor` | FrameData.cpp:21-28 | a new record is empty: id `-1`, no image, no features, count 0, no depth buffer |
| `Frame.FrameData.ReleaseData` | FrameData.cpp:97-112 | after release the record is empty, also when it was already empty, and `IsLoaded(k)` is false for every `k` |
| `Frame.FrameData.LoadImage` | FrameData.cpp:36-57 | succeeds iff the codec returned an image; the id is then `id`, and otherwise it is `-1`. `IsLoaded(id)` holds iff it succeeded, and for no other id. Features and depth are untouched |
| `Frame.FrameData.LoadDepthData` | FrameData.cpp:59-95 | returns true iff a depth buffer is held, which is iff the depth image loaded. On success the buffer holds the decoded samples; it is a new array of `width * height` samples or the reused old one. On failure the buffer is gone |
| `Frame.FrameData.AssignData` | FrameData.cpp:114-129 | the destination holds exactly the source's id, image, feature buffer, count and depth array from before the call, and the source is empty; assigning a record to itself leaves it empty |
| `Frame.FrameData.ComputeFeatures` | FrameData.cpp:131-138 | with an image, the detector's features are stored and their count is returned; without one, the count becomes 0 and the buffer is kept |
| `Frame.FrameData.RemoveInvalidFeatures` | FrameData.cpp:149-202 | the live features become the filtered features and the count their number. The buffer is replaced only when some feature was dropped; otherwise the record is unchanged |

`IsLoaded` (FrameData.cpp:53-57) is the query itself. What it answers after each
operation is stated in the rows of `LoadImage` and `ReleaseData`.
`FeatureFilter.Keep` is the per-feature decision of FrameData.cpp:157-176. Its
properties are stated in the rows of `KeptIndicesSpec`, `ScanWindow`,
`ZeroDepthNeverKept` and `RadiusZeroKeepsNonzeroDepth`.
`FeatureFilter.FeatureDepth` stands for the call to `getFeatureDepth` at
FrameData.cpp:157: the sample at the feature's own pixel.

## Left out

- Image file I/O: `cvLoadImage` and `cvReleaseImage` are replaced by the value they return, passed in as a parameter. Path building with `sprintf` and the static `_DataPath` are left out.
- SIFT detection (`sift_features`): its result is an arbitrary feature sequence passed to `ComputeFeatures`.
- Drawing (`drawFeatures`, `draw_features`, `cvPutText`) and console output (`printf`, `fflush`): UI only.
- Memory management: `calloc`, `memcpy`, `free` and `delete` are not modelled. Neither is the `feature_data = NULL` hand-off of descriptor payloads (a descriptor is an opaque number here). The leaks are not modelled either: a second `loadImage` or `computeFeatures` leaks the old image or feature buffer, and the loaded depth `IplImage` is never released. Releasing the depth buffer with `delete` instead of `delete[]` is not modelled.
- The destructor (FrameData.cpp:30-34) only calls `releaseData`. Dafny has no destructors; `ReleaseData` states its effect.
- Floating-point coordinates and `cvRound`: features carry integer pixel coordinates.
- `getFeatureDepth` is defined outside FrameData.cpp and is not part of this model. It is modelled as the depth sample at the feature's own pixel `y * 640 + x`, the centre of the window that line 170 scans.
- `FrameData.LoadDepthData`: a reused depth buffer must hold at least `width * height` samples. The source only assumes this (FrameData.cpp:75); when it is smaller, the source writes past the end.
- `FrameData.RemoveInvalidFeatures`: its precondition asks for more than the source needs. The own pixel of every live feature must lie inside the depth buffer. When the radius is positive, the whole window of every feature with nonzero own depth must lie inside the buffer too, including samples the early exit would skip; the source only needs the samples it actually reaches. A depth buffer must exist when there are live features. The source reads out of bounds or through a null pointer otherwise.
- 32-bit `int` overflow of `width * height` and of the index arithmetic is not modelled. The image's row padding (`widthStep`) is not modelled either; the source also ignores it and indexes the storage as packed 3-byte pixels.
- The channel count of the depth file is not checked by the source or the model. `DepthImage.WellFormed` only requires the storage to cover channels 0 and 1 of every pixel.
